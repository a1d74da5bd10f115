/** Printing 16.16 fixed-point numbers in decimal and reading them back. */
module FixText {
  import opened Ctype
  import opened Words
  import opened FixArith

  // --------------------------------------------------------------------------
  // Digits
  // --------------------------------------------------------------------------

  function DigitChar(d: int): (c: char)
    requires 0 <= d < 10
    ensures IsDigit(c) && DigitVal(c) == d
  {
    '0' + d as char
  }

  function DigitVal(c: char): (d: int)
    requires IsDigit(c)
    ensures 0 <= d < 10
  {
    c as int - '0' as int
  }

  ghost predicate AllDigits(s: string) {
    forall i :: 0 <= i < |s| ==> IsDigit(s[i])
  }

  /** The number a digit string denotes. */
  ghost function Num(s: string): nat
    requires AllDigits(s)
  {
    if s == [] then 0 else 10 * Num(s[..|s| - 1]) + DigitVal(s[|s| - 1])
  }

  lemma NumAppend(s: string, c: char)
    requires AllDigits(s) && IsDigit(c)
    ensures AllDigits(s + [c]) && Num(s + [c]) == 10 * Num(s) + DigitVal(c)
  {
    assert (s + [c])[..|s|] == s;
  }

  function Pow10(k: nat): nat {
    if k == 0 then 1 else 10 * Pow10(k - 1)
  }

  lemma Pow10Values()
    ensures Pow10(0) == 1 && Pow10(1) == 10 && Pow10(2) == 100 && Pow10(3) == 1000
    ensures Pow10(4) == 10000 && Pow10(5) == 100000
  {
    assert Pow10(3) == 1000;
  }

  lemma {:induction false} NumBound(s: string)
    requires AllDigits(s)
    ensures Num(s) < Pow10(|s|)
  {
    if s != [] {
      NumBound(s[..|s| - 1]);
    }
  }

  // --------------------------------------------------------------------------
  // Printing
  // --------------------------------------------------------------------------

  /** Decimal digits of value from the given scale down; leading zeros are left out when skip is set. The program
      divides by scale; dividing by the literal powers of ten it takes is the same. */
  function Itoa(k: nat, value: nat, skip: bool): string
    requires k <= 5 && value < Pow10(k)
    decreases k
  {
    if k == 0 then []
    else
      var (digit, rest) := DivMod(value, Pow10(k - 1));
      DigitSmall(value, k, digit, rest);
      if !skip || digit != 0 || k == 1 then [DigitChar(digit)] + Itoa(k - 1, rest, false)
      else Itoa(k - 1, value, skip)
  }

  lemma DigitSmall(value: nat, k: nat, digit: nat, rest: nat)
    requires k > 0 && value < Pow10(k) && value == digit * Pow10(k - 1) + rest && rest < Pow10(k - 1)
    ensures digit < 10 && (digit == 0 ==> value < Pow10(k - 1))
  {
    LessFactor(digit, 10, Pow10(k - 1));
  }

  lemma {:induction false} NumPrepend(c: char, s: string)
    requires IsDigit(c) && AllDigits(s)
    ensures AllDigits([c] + s) && Num([c] + s) == DigitVal(c) * Pow10(|s|) + Num(s)
  {
    hide Num, DigitVal, IsDigit;
    NumNone();
    if s == [] {
      assert [c] + s == [] + [c];
      NumAppend([], c);
      TimesOne(DigitVal(c));
    } else {
      var n := |s| - 1;
      var init := s[..n];
      assert s == init + [s[n]];
      assert [c] + s == ([c] + init) + [s[n]];
      NumPrepend(c, init);
      NumAppend([c] + init, s[n]);
      NumAppend(init, s[n]);
      TimesTen(DigitVal(c), Pow10(n));
    }
  }

  lemma TimesTen(x: int, p: int)
    ensures x * (10 * p) == 10 * (x * p)
  {
  }

  /** The printed digits denote the value; without skipping there are exactly k of them. */
  lemma {:induction false} ItoaMeaning(k: nat, value: nat, skip: bool)
    requires k <= 5 && value < Pow10(k)
    ensures var s := Itoa(k, value, skip);
      && AllDigits(s) && Num(s) == value && |s| <= k
      && (!skip ==> |s| == k) && (k > 0 ==> s != [])
      && (skip && |s| > 1 ==> s[0] != '0')
    decreases k
  {
    hide DivMod, Num;
    if k == 0 {
      NumNone();
    } else {
      var (digit, rest) := DivMod(value, Pow10(k - 1));
      DigitSmall(value, k, digit, rest);
      if !skip || digit != 0 || k == 1 {
        ItoaMeaning(k - 1, rest, false);
        NumPrepend(DigitChar(digit), Itoa(k - 1, rest, false));
      } else {
        ItoaMeaning(k - 1, value, skip);
      }
    }
  }

  lemma NumNone()
    ensures Num([]) == 0
  {
  }

  /** itoa_loop: appends the digits; scale is 10^(k-1), or 0 for k = 0. */
  method ItoaLoop(buf0: string, scale0: Word, value0: Word, skip0: bool, ghost k0: nat) returns (buf: string)
    requires k0 <= 5 && value0 < Pow10(k0) && scale0 == if k0 == 0 then 0 else Pow10(k0 - 1)
    ensures buf == buf0 + Itoa(k0, value0, skip0)
  {
    hide DivMod, Itoa, Pow10;
    buf := buf0;
    var scale: Word := scale0;
    var value: Word := value0;
    var skip := skip0;
    ghost var k := k0;
    while scale != 0
      invariant 0 <= k <= 5 && value < Pow10(k) && scale == if k == 0 then 0 else Pow10(k - 1)
      invariant buf + Itoa(k, value, skip) == buf0 + Itoa(k0, value0, skip0)
      decreases scale
    {
      var (digit, rest) := DivMod(value, scale);
      ItoaStep(k, value, skip);
      if !skip || digit != 0 || scale == 1 {
        assert buf + ([DigitChar(digit)] + Itoa(k - 1, rest, false)) == buf + [DigitChar(digit)] + Itoa(k - 1, rest, false);
        skip := false;
        buf := buf + [DigitChar(digit)];
        value := rest;
      }
      k := k - 1;
      scale := scale / 10;
    }
    LastDigit(k);
    ItoaNone(value, skip);
    assert buf + [] == buf;
  }

  lemma LastDigit(k: nat)
    requires k <= 5
    ensures k > 0 ==> Pow10(k - 1) > 0
  {
    if k > 0 {
      Pow10Small(k - 1);
    }
  }

  lemma ItoaNone(value: nat, skip: bool)
    requires value < Pow10(0)
    ensures Itoa(0, value, skip) == []
  {
  }

  lemma ItoaStep(k: nat, value: nat, skip: bool)
    requires 0 < k <= 5 && value < Pow10(k)
    ensures var (digit, rest) := DivMod(value, Pow10(k - 1));
      && digit < 10 && rest < Pow10(k - 1) && (Pow10(k - 1) == 1 <==> k == 1) && (digit == 0 ==> value < Pow10(k - 1))
      && Itoa(k, value, skip) ==
         if !skip || digit != 0 || k == 1 then [DigitChar(digit)] + Itoa(k - 1, rest, false)
         else Itoa(k - 1, value, skip)
    ensures Pow10(k - 1) / 10 == if k == 1 then 0 else Pow10(k - 2)
  {
    hide DivMod;
    var (digit, rest) := DivMod(value, Pow10(k - 1));
    DigitSmall(value, k, digit, rest);
    Pow10One(k - 1);
  }

  lemma Pow10One(k: nat)
    ensures Pow10(k) == 1 <==> k == 0
  {
  }

  function Scale(decimals: int): Word {
    Pow10Small(Digits(decimals));
    Pow10(Digits(decimals))
  }

  lemma Pow10Small(k: nat)
    requires k <= 5
    ensures 1 <= Pow10(k) <= 100000
  {
    Pow10Values();
    assert k == 0 || k == 1 || k == 2 || k == 3 || k == 4 || k == 5;
  }

  /** The number of decimals printed: the scale table has eight entries, the last three alike. */
  function Digits(decimals: int): (k: nat)
    ensures k <= 5
  {
    if decimals % 8 < 5 then decimals % 8 else 5
  }

  /** Integer and decimal part as printed. */
  function Parts(value: Fix, decimals: int): (p: (nat, nat))
    ensures p.0 < Pow10(5) && p.1 < Scale(decimals)
  {
    var u := Abs(value);
    var frac := (u % 65536 * Scale(decimals) + 0x8000) / 65536;
    PartsSmall(u, decimals);
    if frac >= Scale(decimals) then (u / 65536 + 1, frac - Scale(decimals)) else (u / 65536, frac)
  }

  lemma PartsSmall(u: nat, decimals: int)
    requires u <= 0x8000_0000
    ensures u / 65536 + 1 < Pow10(5) && 0 <= (u % 65536 * Scale(decimals) + 0x8000) / 65536 <= Scale(decimals)
    ensures 0 <= u % 65536 * Scale(decimals) < 0x1_9000_0000 && 1 <= Scale(decimals) <= 100000
  {
    Pow10Values();
    Pow10Small(Digits(decimals));
    FracSmall(u % 65536, Scale(decimals));
  }

  lemma FracSmall(x: nat, c: nat)
    requires x < 65536 && 1 <= c <= 100000
    ensures x * c <= 65535 * c && 0 <= x * c
    ensures 0 <= (x * c + 0x8000) / 65536 <= c
  {
    Grows(65535, x, c);
  }

  function Text(value: Fix, decimals: int): string {
    var (i, f) := Parts(value, decimals);
    (if value < 0 then "-" else "") + Body(i, Digits(decimals), f)
  }

  /** Integer part and decimals, of which there may be none. */
  function Body(i: nat, k: nat, f: nat): string
    requires i < Pow10(5) && k <= 5 && f < Pow10(k)
  {
    Itoa(5, i, true) + if k == 0 then "" else "." + Itoa(k, f, false)
  }

  /** The printed text: a sign if the value is negative, an integer part without leading zeros, and, unless there are
      none, a point and that many decimals, the number being the nearest one with so many decimals. */
  lemma TextIs(value: Fix, decimals: int) returns (ds: string, fs: string)
    ensures Text(value, decimals) == (if value < 0 then "-" else "") + ds + (if fs == "" then "" else "." + fs)
    ensures AllDigits(ds) && (|ds| == 1 || (|ds| > 1 && ds[0] != '0'))
    ensures AllDigits(fs) && |fs| == (if decimals % 8 < 5 then decimals % 8 else 5)
    ensures var (n, p) := (Num(ds) * Pow10(|fs|) + Num(fs), Pow10(|fs|));
      -0x8000 <= Abs(value) * p - n * 65536 < 0x8000
  {
    hide Itoa, Num, Pow10, Parts;
    var (i, f) := Parts(value, decimals);
    var k := Digits(decimals);
    ds, fs := Itoa(5, i, true), Itoa(k, f, false);
    ItoaMeaning(5, i, true);
    ItoaMeaning(k, f, false);
    PartsNearest(value, decimals);
    assert (if value < 0 then "-" else "") + (ds + if k == 0 then "" else "." + fs)
      == (if value < 0 then "-" else "") + ds + (if fs == "" then "" else "." + fs);
  }

  lemma PartsNearest(value: Fix, decimals: int)
    ensures var (i, f) := Parts(value, decimals);
      var p := Pow10(Digits(decimals));
      -0x8000 <= Abs(value) * p - (i * p + f) * 65536 < 0x8000
  {
    hide Pow10;
    var u, p := Abs(value), Scale(decimals);
    PartsSmall(u, decimals);
    SplitTimes(u / 65536, u % 65536, p);
  }

  lemma SplitTimes(q: nat, r: nat, p: nat)
    ensures (q * 65536 + r) * p == q * p * 65536 + r * p && (q + 1) * p == q * p + p
  {
  }

  lemma MulByScale(frac: Fix, scale: Fix)
    requires 0 <= frac < 65536 && 1 <= scale <= 100000
    ensures Mul(frac, scale) == (frac * scale + 0x8000) / 65536
  {
    hide Mul;
    MulMeaning(frac, scale);
    assert Hi(frac) == 0 && Lo(frac) == frac;
    FracSmall(frac, scale);
    assert 0 * Lo(scale) == 0;
    SmallTimes(Hi(scale), frac);
  }

  lemma SmallTimes(h: int, x: nat)
    requires h == 0 || h == 1
    ensures h * x == 0 || h * x == x
  {
  }

  /** fix16_to_str; the terminating NUL is the end of the string. */
  method ToStr(value: Fix, decimals: int) returns (buf: string)
    ensures buf == Text(value, decimals)
  {
    hide Itoa, Mul, Pow10;
    Pow10Values();
    PartsSmall(Abs(value), decimals);
    var uvalue: Word := if value >= 0 then value else 0 - value;
    buf := "";
    if value < 0 {
      buf := buf + "-";
    }
    var intpart: Word := uvalue / 65536;
    var fracpart: Word := uvalue % 65536;
    var scales := [1, 10, 100, 1000, 10000, 100000, 100000, 100000];
    var scale: Word := scales[decimals % 8];
    assert scale == Scale(decimals);
    MulByScale(fracpart, scale);
    fracpart := Mul(fracpart, scale);
    if fracpart >= scale {
      intpart := intpart + 1;
      fracpart := fracpart - scale;
    }
    buf := ItoaLoop(buf, 10000, intpart, true, 5);
    if scale != 1 {
      buf := buf + ".";
      buf := ItoaLoop(buf, scale / 10, fracpart, false, Digits(decimals));
    }
  }

  // --------------------------------------------------------------------------
  // Reading
  // --------------------------------------------------------------------------

  /** The leading digits, at most `max` of them. */
  function DigitRun(s: string, max: nat): (r: string)
    ensures |r| <= max && r <= s && forall i :: 0 <= i < |r| ==> IsDigit(r[i])
  {
    if s == [] || max == 0 || !IsDigit(s[0]) then [] else [s[0]] + DigitRun(s[1..], max - 1)
  }

  /** Only digits and white space. */
  predicate Harmless(s: string) {
    forall i :: 0 <= i < |s| ==> IsDigit(s[i]) || IsSpace(s[i])
  }

  predicate Starts(s: string, c: char) {
    s != [] && s[0] == c
  }

  function AfterSign(s: string): string {
    if Starts(s, '-') || Starts(s, '+') then s[1..] else s
  }

  /** The integer part is missing, too long or too large. */
  ghost predicate BadInteger(ds: string, negative: bool)
    requires AllDigits(ds)
  {
    ds == [] || |ds| > 5 || Num(ds) > 32768 || (!negative && Num(ds) > 32767)
  }

  /** Value and rest of the text behind an integer part i. */
  ghost function WithFraction(i: nat, s: string): (Fix, string) {
    if Starts(s, '.') || Starts(s, ',') then
      var fs := DigitRun(s[1..], 5);
      Pow10Small(|fs|);
      NumBound(fs);
      (Wrap32(Wrap32(i * 65536) + Quotient(Num(fs), Pow10(|fs|))), s[1 + |fs|..])
    else (Wrap32(i * 65536), s)
  }

  /** The number an unsigned text denotes, taken negative if asked, or OVERFLOW. */
  ghost function Number(u: string, negative: bool): Fix {
    var ds := DigitRun(u, |u|);
    if BadInteger(ds, negative) then OVERFLOW
    else
      var (v, rest) := WithFraction(Num(ds), u[|ds|..]);
      if !Harmless(rest) then OVERFLOW
      else if negative then Wrap32(0 - v)
      else v
  }

  /** The number a text denotes, or OVERFLOW. */
  ghost function Parsed(s: string): Fix {
    var t := SkipSpace(s);
    Number(AfterSign(t), Starts(t, '-'))
  }

  /** The character at pos; the text ends with a NUL. */
  function At(s: string, pos: nat): char {
    if pos < |s| then s[pos] else '\0'
  }

  lemma RunStep(s: string, from: nat, pos: nat, max: nat)
    requires from <= pos < |s| && max > 0 && IsDigit(s[pos])
    ensures s[from..pos + 1] == s[from..pos] + [s[pos]]
    ensures s[from..pos] + DigitRun(s[pos..], max) == s[from..pos + 1] + DigitRun(s[pos + 1..], max - 1)
  {
    assert s[pos..][1..] == s[pos + 1..];
  }

  lemma RunEnd(s: string, from: nat, pos: nat, max: nat)
    requires from <= pos <= |s| && (pos == |s| || max == 0 || !IsDigit(s[pos]))
    ensures s[from..pos] + DigitRun(s[pos..], max) == s[from..pos]
  {
  }

  method ReadInteger(s: string, from: nat) returns (pos: nat, intpart: Word, count: nat)
    requires from <= |s|
    ensures from <= pos <= |s| && s[from..pos] == DigitRun(s[from..], |s| - from) && count == pos - from
    ensures AllDigits(s[from..pos]) && intpart == U32(Num(s[from..pos]))
  {
    hide Num, U32, DigitRun, DigitVal;
    pos, intpart, count := from, 0, 0;
    NumNone();
    assert s[from..from] == [];
    U32Is(0, 0);
    while IsDigit(At(s, pos))
      invariant from <= pos <= |s| && count == pos - from
      invariant AllDigits(s[from..pos]) && intpart == U32(Num(s[from..pos]))
      invariant s[from..pos] + DigitRun(s[pos..], |s| - pos) == DigitRun(s[from..], |s| - from)
      decreases |s| - pos
    {
      RunStep(s, from, pos, |s| - pos);
      NumAppend(s[from..pos], s[pos]);
      WrapDigit(intpart, Num(s[from..pos]), DigitVal(s[pos]));
      intpart := U32(intpart * 10);
      intpart := U32(intpart + DigitVal(s[pos]));
      pos, count := pos + 1, count + 1;
    }
    RunEnd(s, from, pos, |s| - pos);
  }

  lemma WrapDigit(w: Word, n: nat, d: nat)
    requires w == U32(n)
    ensures U32(U32(w * 10) + d) == U32(10 * n + d)
  {
    var k := n / 0x1_0000_0000;
    assert n == k * 0x1_0000_0000 + w;
    assert 10 * n + d == 10 * k * 0x1_0000_0000 + (10 * w + d);
  }

  method ReadFraction(s: string, from: nat) returns (pos: nat, fracpart: Word, scale: Word)
    requires from <= |s|
    ensures from <= pos <= |s| && s[from..pos] == DigitRun(s[from..], 5)
    ensures AllDigits(s[from..pos]) && fracpart == Num(s[from..pos]) && scale == Pow10(pos - from)
  {
    hide Num, Pow10, DigitRun, AllDigits;
    pos, fracpart, scale := from, 0, 1;
    NothingRead(s, from);
    while IsDigit(At(s, pos)) && scale < 100000
      invariant from <= pos <= |s| && pos - from <= 5 && FractionRead(s, from, pos, fracpart, scale)
      decreases |s| - pos
    {
      FractionStep(s, from, pos, fracpart, scale);
      scale := scale * 10;
      fracpart := fracpart * 10;
      fracpart := fracpart + DigitVal(s[pos]);
      pos := pos + 1;
    }
    FullScale(pos - from);
    RunEnd(s, from, pos, 5 - (pos - from));
  }

  /** The digits before pos have been read as a number and a power of ten. */
  ghost predicate FractionRead(s: string, from: nat, pos: nat, num: int, scale: int)
    requires from <= pos <= |s| && pos - from <= 5
  {
    && AllDigits(s[from..pos]) && num == Num(s[from..pos]) && scale == Pow10(pos - from)
    && s[from..pos] + DigitRun(s[pos..], 5 - (pos - from)) == DigitRun(s[from..], 5)
  }

  lemma NothingRead(s: string, from: nat)
    requires from <= |s|
    ensures FractionRead(s, from, from, 0, 1)
  {
    hide Num, Pow10, DigitRun;
    assert s[from..from] == [];
    NumNone();
    Pow10Values();
  }

  lemma FractionStep(s: string, from: nat, pos: nat, num: nat, scale: nat)
    requires from <= pos < |s| && pos - from <= 5 && FractionRead(s, from, pos, num, scale)
    requires IsDigit(s[pos]) && scale < 100000
    ensures pos - from < 5 && num < 10000 && scale <= 10000
    ensures FractionRead(s, from, pos + 1, 10 * num + DigitVal(s[pos]), 10 * scale)
  {
    hide Num, Pow10, DigitRun, AllDigits, DigitVal;
    var k := pos - from;
    FullScale(k);
    NumBound(s[from..pos]);
    Pow10Values();
    assert k == 0 || k == 1 || k == 2 || k == 3 || k == 4;
    RunStep(s, from, pos, 5 - k);
    NumAppend(s[from..pos], s[pos]);
  }

  lemma FullScale(k: nat)
    requires k <= 5
    ensures Pow10(k) < 100000 <==> k < 5
  {
    Pow10Values();
    assert k == 0 || k == 1 || k == 2 || k == 3 || k == 4 || k == 5;
  }

  method CheckRest(s: string, from: nat) returns (ok: bool)
    requires from <= |s| && '\0' !in s
    ensures ok <==> Harmless(s[from..])
  {
    var pos := from;
    while At(s, pos) != '\0'
      invariant from <= pos <= |s| && Harmless(s[from..pos])
      decreases |s| - pos
    {
      if !IsDigit(s[pos]) && !IsSpace(s[pos]) {
        assert s[from..][pos - from] == s[pos];
        return false;
      }
      assert s[from..pos + 1] == s[from..pos] + [s[pos]];
      pos := pos + 1;
    }
    assert s[from..] == s[from..pos];
    ok := true;
  }

  /** The value with its decimal part, if there is one (lines 84-101 of the reading function). */
  method AddFraction(s: string, from: nat, intpart: Word) returns (pos: nat, v: Fix)
    requires from <= |s|
    ensures from <= pos <= |s| && (v, s[pos..]) == WithFraction(intpart, s[from..])
  {
    hide Num, DigitRun, Quotient, Wrap32, Pow10;
    pos := from;
    v := Wrap32(intpart * 65536);
    if At(s, pos) == '.' || At(s, pos) == ',' {
      pos := pos + 1;
      ghost var f := pos;
      assert s[from..][1..] == s[f..];
      var fracpart, scale;
      pos, fracpart, scale := ReadFraction(s, pos);
      assert s[from..][1 + |s[f..pos]|..] == s[pos..];
      Pow10Small(pos - f);
      NumBound(s[f..pos]);
      var d := Div(fracpart, scale);
      v := Wrap32(v + d);
    }
  }

  /** The text behind the sign (lines 71-112 of the reading function). */
  method ReadNumber(s: string, from: nat, negative: bool) returns (v: Fix)
    requires from <= |s| && '\0' !in s
    ensures v == Number(s[from..], negative)
  {
    hide Num, DigitRun, WithFraction, Harmless, U32, Wrap32;
    var pos, intpart, count := ReadInteger(s, from);
    ghost var ds := s[from..pos];
    if count <= 5 {
      ShortNum(ds);
    }
    if count == 0 || count > 5 || intpart > 32768 || (!negative && intpart > 32767) {
      return OVERFLOW;
    }
    assert s[from..][|ds|..] == s[pos..];
    pos, v := AddFraction(s, pos, intpart);
    var ok := CheckRest(s, pos);
    if !ok {
      return OVERFLOW;
    }
    v := if negative then Wrap32(0 - v) else v;
  }

  /** fix16_from_str, on a text that is a C string. */
  method FromStr(s: string) returns (v: Fix)
    requires '\0' !in s
    ensures v == Parsed(s)
  {
    hide Number, SkipSpace, Starts, AfterSign;
    var pos := SkipBlanks(s);
    SignAt(s, pos);
    var negative := At(s, pos) == '-';
    if At(s, pos) == '+' || At(s, pos) == '-' {
      pos := pos + 1;
    }
    v := ReadNumber(s, pos, negative);
  }

  method SkipBlanks(s: string) returns (pos: nat)
    ensures pos <= |s| && s[pos..] == SkipSpace(s)
  {
    hide SkipSpace;
    pos := 0;
    assert s[0..] == s;
    while IsSpace(At(s, pos))
      invariant 0 <= pos <= |s| && SkipSpace(s[pos..]) == SkipSpace(s)
      decreases |s| - pos
    {
      SkipStep(s, pos);
      pos := pos + 1;
    }
    SkipDone(s[pos..]);
  }

  lemma SignAt(s: string, pos: nat)
    requires pos <= |s|
    ensures Starts(s[pos..], '-') <==> At(s, pos) == '-'
    ensures (At(s, pos) == '+' || At(s, pos) == '-') ==> pos < |s| && AfterSign(s[pos..]) == s[pos + 1..]
    ensures !(At(s, pos) == '+' || At(s, pos) == '-') ==> AfterSign(s[pos..]) == s[pos..]
  {
    if pos < |s| {
      assert s[pos..][1..] == s[pos + 1..];
    }
  }

  lemma SkipStep(s: string, pos: nat)
    requires pos < |s| && IsSpace(s[pos])
    ensures SkipSpace(s[pos + 1..]) == SkipSpace(s[pos..])
  {
    assert s[pos..][1..] == s[pos + 1..];
  }

  lemma SkipDone(t: string)
    requires t == [] || !IsSpace(t[0])
    ensures SkipSpace(t) == t
  {
  }

  lemma ShortNum(ds: string)
    requires AllDigits(ds) && |ds| <= 5
    ensures U32(Num(ds)) == Num(ds) < 100000
  {
    NumBound(ds);
    Pow10Small(|ds|);
  }

  // --------------------------------------------------------------------------
  // The round trip
  // --------------------------------------------------------------------------

  lemma {:induction false} DigitRunOf(d: string, t: string, max: nat)
    requires AllDigits(d) && |d| <= max && (|d| == max || t == [] || !IsDigit(t[0]))
    ensures DigitRun(d + t, max) == d
  {
    if d == [] {
      assert d + t == t;
    } else {
      assert (d + t)[1..] == d[1..] + t;
      DigitRunOf(d[1..], t, max - 1);
    }
  }

  /** The decimals f of k, read back as a fraction. */
  function Fraction(f: nat, k: nat): Fix
    requires k <= 5 && f < Pow10(k)
  {
    Pow10Small(k);
    Quotient(f, Pow10(k))
  }

  /** The printed text without its sign is read back as integer and decimal part, or rejected for its size. */
  lemma NumberOf(i: nat, k: nat, f: nat, negative: bool)
    requires i < Pow10(5) && k <= 5 && f < Pow10(k)
    ensures var v := Wrap32(Wrap32(i * 65536) + Fraction(f, k));
      Number(Body(i, k, f), negative) ==
      if i > (if negative then 32768 else 32767) then OVERFLOW else if negative then Wrap32(0 - v) else v
  {
    hide Itoa, Num, Quotient, Wrap32, DigitRun, Pow10;
    ItoaMeaning(5, i, true);
    ItoaMeaning(k, f, false);
    var a, b := Itoa(5, i, true), Itoa(k, f, false);
    var tail := if k == 0 then "" else "." + b;
    var s := a + tail;
    DigitRunOf(a, tail, |s|);
    assert s[|a|..] == tail;
    if k == 0 {
      NoDecimals(i, f);
    } else {
      assert tail[1..] == b && b + [] == b;
      DigitRunOf(b, [], 5);
      assert tail[1 + |b|..] == [];
    }
  }

  lemma NoDecimals(i: nat, f: nat)
    requires f < Pow10(0)
    ensures Wrap32(Wrap32(i * 65536) + Fraction(f, 0)) == Wrap32(i * 65536)
  {
    hide Fraction, Wrap32;
    FractionSmall(f, 0);
    WrapIs(Wrap32(i * 65536), 0);
  }

  /** The sign in front of the digits is taken off again. */
  lemma SignedText(value: Fix, decimals: int)
    ensures var (i, f) := Parts(value, decimals);
      && SkipSpace(Text(value, decimals)) == Text(value, decimals)
      && AfterSign(Text(value, decimals)) == Body(i, Digits(decimals), f)
      && (Starts(Text(value, decimals), '-') <==> value < 0)
  {
    hide Itoa, Parts;
    var (i, f) := Parts(value, decimals);
    PartsSmall(Abs(value), decimals);
    ItoaMeaning(5, i, true);
    var body := Body(i, Digits(decimals), f);
    assert body[0] == Itoa(5, i, true)[0];
    NotSpace(body[0]);
    if value < 0 {
      assert ("-" + body)[1..] == body;
      SkipDone("-" + body);
    } else {
      assert "" + body == body;
      SkipDone(body);
    }
  }

  lemma NotSpace(c: char)
    requires IsDigit(c)
    ensures !IsSpace(c) && c != '-' && c != '+'
  {
  }

  /** The printed decimals round the value up to 32768. */
  predicate PrintsTooLarge(value: Fix, decimals: int) {
    Pow10(Digits(decimals)) * (0x8000_0000 - value) <= 0x8000
  }

  lemma TooLargeParts(value: Fix, decimals: int)
    ensures var (i, f) := Parts(value, decimals);
      && (PrintsTooLarge(value, decimals) <==> value >= 0 && i > 32767)
      && i <= 32768 && (i == 32768 ==> f == 0)
  {
    hide Pow10;
    var u, c := Abs(value), Scale(decimals);
    PartsSmall(Abs(value), decimals);
    FracSmall(u % 65536, c);
    CarryFlat(u / 65536, u % 65536, c, if value < 0 then 0x8000 else 0x7FFF);
    if value < 0 {
      Grows(0x8000_0000 - value, 0x8000_0001, c);
    }
  }

  lemma CarryFlat(i: nat, x: nat, c: nat, top: nat)
    requires 1 <= c && x < 65536 && i * 65536 + x <= top * 65536 + 65535
    requires top == 0x7FFF || (top == 0x8000 && i * 65536 + x <= 0x8000_0000)
    ensures top == 0x7FFF ==> (c * (0x8000_0000 - (i * 65536 + x)) <= 0x8000 <==> i == 0x7FFF && (x * c + 0x8000) / 65536 >= c)
    ensures i <= top && (i == 0x8000 ==> (x * c + 0x8000) / 65536 == 0 && x * c == 0)
  {
    if i < 0x7FFF {
      Grows(0x8000_0000 - (i * 65536 + x), 65537, c);
    } else if i == 0x7FFF {
      assert c * (0x8000_0000 - (i * 65536 + x)) == 65536 * c - x * c;
    } else {
      assert x == 0;
    }
  }

  /** What reading a printed number gives, for every value and number of decimals: it is rejected exactly when the
      decimals round it up to 32768; otherwise it is the printed number, off by at most half a decimal and half a unit. */
  lemma ReadBack(value: Fix, decimals: int)
    ensures var (i, f) := Parts(value, decimals);
      var m := i * 65536 + Fraction(f, Digits(decimals));
      Parsed(Text(value, decimals)) ==
      if PrintsTooLarge(value, decimals) then OVERFLOW else if value < 0 then 0 - m else m
    ensures !PrintsTooLarge(value, decimals) ==>
      2 * (Pow10(Digits(decimals)) * Abs(Parsed(Text(value, decimals)) - value)) <= 65536 + Pow10(Digits(decimals))
  {
    hide Itoa, Fraction, Wrap32, Number, Parts, Pow10, Text, SkipSpace, PrintsTooLarge, Body;
    var (i, f) := Parts(value, decimals);
    var k := Digits(decimals);
    PartsSmall(Abs(value), decimals);
    SignedText(value, decimals);
    NumberOf(i, k, f, value < 0);
    TooLargeParts(value, decimals);
    FractionSmall(f, k);
    PrintedDistance(value, decimals);
    if !PrintsTooLarge(value, decimals) {
      WrapParts(i, Fraction(f, k), value < 0);
    }
  }

  /** A fraction read back stays below one. */
  lemma FractionSmall(f: nat, k: nat)
    requires k <= 5 && f < Pow10(k)
    ensures 0 <= Fraction(f, k) < 65536 && (f == 0 ==> Fraction(f, k) == 0)
    ensures 131072 * f - Pow10(k) < 2 * (Fraction(f, k) * Pow10(k)) <= 131072 * f + Pow10(k)
  {
    hide Quotient, Pow10;
    var d := Pow10(k);
    Pow10Small(k);
    DivNearest(f, d);
    var g := Fraction(f, k);
    if g >= 65536 {
      Grows(g, 65536, d);
    }
    if f == 0 && g >= 1 {
      Grows(g, 1, d);
    }
  }

  lemma WrapParts(i: nat, g: nat, negative: bool)
    requires g < 65536 && (i < 32768 || (negative && i == 32768 && g == 0))
    ensures var v := Wrap32(Wrap32(i * 65536) + g);
      (if negative then Wrap32(0 - v) else v) == if negative then 0 - (i * 65536 + g) else i * 65536 + g
  {
  }

  lemma PrintedDistance(value: Fix, decimals: int)
    ensures var (i, f) := Parts(value, decimals);
      var d := Pow10(Digits(decimals));
      2 * (d * Abs(i * 65536 + Fraction(f, Digits(decimals)) - Abs(value))) <= 65536 + d
  {
    hide Pow10, Fraction;
    var u, d := Abs(value), Scale(decimals);
    var (i, f) := Parts(value, decimals);
    PartsSmall(Abs(value), decimals);
    FractionSmall(f, Digits(decimals));
    DistanceFlat(u / 65536, u % 65536, d, (u % 65536 * d + 0x8000) / 65536, i, f, Fraction(f, Digits(decimals)));
  }

  lemma DistanceFlat(I: nat, x: nat, d: nat, p: nat, i: nat, f: nat, g: nat)
    requires d > 0 && 131072 * f - d < 2 * (g * d) <= 131072 * f + d
    requires 65536 * p <= x * d + 0x8000 < 65536 * p + 65536
    requires (i == I && f == p) || (i == I + 1 && f == p - d)
    ensures 2 * (d * Abs(i * 65536 + g - (I * 65536 + x))) <= 65536 + d
  {
    var m := i * 65536 + g - (I * 65536 + x);
    assert d * m == (if i == I then 0 else 65536 * d) + g * d - x * d;
    assert d * (0 - m) == 0 - d * m;
  }

  /** Reading a number printed with five decimals gives the number, for every 32-bit value. */
  lemma RoundTrip(value: Fix, decimals: int)
    requires Digits(decimals) == 5
    ensures Parsed(Text(value, decimals)) == value
  {
    hide Parsed, Text;
    Pow10Values();
    ReadBack(value, decimals);
  }

  /** With four decimals the largest value is rounded up to a text that is not read back. */
  lemma RoundedUpIsRejected()
    ensures Parsed(Text(0x7FFF_FFFF, 4)) == OVERFLOW
  {
    hide Parsed, Text, Fraction, Parts, Pow10;
    Pow10Values();
    ReadBack(0x7FFF_FFFF, 4);
  }

  // --------------------------------------------------------------------------
  // Any text
  // --------------------------------------------------------------------------

  /** Integer part, decimals and their number, at most five, of a text behind its sign. */
  ghost function Decimal(u: string): (d: (nat, nat, nat))
    ensures d.2 <= 5 && d.1 < Pow10(d.2)
  {
    var ds := DigitRun(u, |u|);
    var s := u[|ds|..];
    if Starts(s, '.') || Starts(s, ',') then
      var fs := DigitRun(s[1..], 5);
      NumBound(fs);
      (Num(ds), Num(fs), |fs|)
    else (Num(ds), 0, 0)
  }

  /** The integer part is in range and nothing but digits and white space follows the decimals. */
  ghost predicate Accepted(u: string, negative: bool) {
    var ds := DigitRun(u, |u|);
    !BadInteger(ds, negative) && Harmless(WithFraction(Num(ds), u[|ds|..]).1)
  }

  /** For every text: it is rejected, or the value is the decimal it denotes, rounded to nearest; but beyond -32768 it
      comes out positive, 65536 too large. */
  lemma NumberMeaning(u: string, negative: bool)
    ensures var (i, f, k) := Decimal(u);
      var m := i * 65536 + Fraction(f, k);
      && (!Accepted(u, negative) ==> Number(u, negative) == OVERFLOW)
      && (Accepted(u, negative) ==>
            Number(u, negative) == if !negative then m else if Beyond(i, f, k) then 0x1_0000_0000 - m else 0 - m)
      && 131072 * (i * Pow10(k) + f) - Pow10(k) < 2 * (m * Pow10(k)) <= 131072 * (i * Pow10(k) + f) + Pow10(k)
  {
    hide Num, DigitRun, Quotient, Wrap32, Pow10, Harmless, Fraction, Starts;
    var (i, f, k) := Decimal(u);
    FractionSmall(f, k);
    FractionZero(f, k);
    DecimalDistance(i, f, k, Fraction(f, k), Pow10(k));
    FractionOf(u);
    if Accepted(u, negative) {
      WrapNumber(i, Fraction(f, k), negative);
    }
  }

  /** Any text, taken apart: white space, sign, integer digits, point or comma with at most five decimals, and the rest.
      It is rejected exactly when the integer part is missing, too long or too large, or when the rest holds anything but
      digits and white space; otherwise the value is the nearest one to the decimal, but for the one below -32768. */
  lemma TextMeaning(blanks: string, sign: string, ds: string, point: string, fs: string, rest: string)
    requires Blank(blanks) && (sign == "" || sign == "+" || sign == "-")
    requires AllDigits(ds) && AllDigits(fs) && |fs| <= 5
    requires point == "." || point == "," || (point == fs == "" && (rest == "" || (rest[0] != '.' && rest[0] != ',')))
    requires (point == "" || |fs| < 5) && rest != "" ==> !IsDigit(rest[0])
    requires sign == ds == point == "" && rest != "" ==> !IsSpace(rest[0]) && rest[0] != '+' && rest[0] != '-'
    ensures var v: int := Parsed(blanks + (sign + (ds + (point + (fs + rest)))));
      var (i, f, p) := (Num(ds), Num(fs), Pow10(|fs|));
      if ds == "" || |ds| > 5 || i > (if sign == "-" then 32768 else 32767) || exists c :: c in rest && !IsDigit(c) && !IsSpace(c)
      then v == OVERFLOW
      else
        var m: int := if sign != "-" then v else if i == 32768 && 131072 * f >= p then 0x1_0000_0000 - v else 0 - v;
        131072 * (i * p + f) - p < 2 * (m * p) <= 131072 * (i * p + f) + p
  {
    hide Num, Number, Parsed, Pow10, IsSpace, IsDigit, AllDigits;
    if sign == "" {
      assert point == "" ==> fs + rest == rest;
      FirstIsNoSign(ds, point, fs + rest);
    }
    ParsedIs(blanks, sign, ds + (point + (fs + rest)));
    UnsignedMeaning(ds, point, fs, rest, sign == "-");
  }

  lemma ParsedIs(blanks: string, sign: string, u: string)
    requires Blank(blanks) && (sign == "" || sign == "+" || sign == "-")
    requires sign == "" && u != "" ==> !IsSpace(u[0]) && u[0] != '+' && u[0] != '-'
    ensures Parsed(blanks + (sign + u)) == Number(u, sign == "-")
  {
    hide Number, IsSpace, SkipSpace, AfterSign, Starts;
    SignTakenOff(sign, u);
    BlankSkipped(blanks, sign + u);
  }

  lemma UnsignedMeaning(ds: string, point: string, fs: string, rest: string, negative: bool)
    requires AllDigits(ds) && AllDigits(fs) && |fs| <= 5
    requires point == "." || point == "," || (point == fs == "" && (rest == "" || (rest[0] != '.' && rest[0] != ',')))
    requires (point == "" || |fs| < 5) && rest != "" ==> !IsDigit(rest[0])
    ensures var v: int := Number(ds + (point + (fs + rest)), negative);
      var (i, f, p) := (Num(ds), Num(fs), Pow10(|fs|));
      if ds == "" || |ds| > 5 || i > (if negative then 32768 else 32767) || exists c :: c in rest && !IsDigit(c) && !IsSpace(c)
      then v == OVERFLOW
      else
        var m: int := if !negative then v else if i == 32768 && 131072 * f >= p then 0x1_0000_0000 - v else 0 - v;
        131072 * (i * p + f) - p < 2 * (m * p) <= 131072 * (i * p + f) + p
  {
    hide Num, Number, Pow10, Decimal, Accepted, IsSpace, IsDigit, AllDigits;
    DecimalOf(ds, point, fs, rest);
    AcceptedOf(ds, point, fs, rest, negative);
    NumberNearest(ds + (point + (fs + rest)), negative, Num(ds), Num(fs), |fs|);
  }

  lemma NumberNearest(u: string, negative: bool, i: nat, f: nat, k: nat)
    requires Decimal(u) == (i, f, k)
    ensures var v: int := Number(u, negative);
      if !Accepted(u, negative) then v == OVERFLOW
      else
        var m: int := if !negative then v else if i == 32768 && 131072 * f >= Pow10(k) then 0x1_0000_0000 - v else 0 - v;
        131072 * (i * Pow10(k) + f) - Pow10(k) < 2 * (m * Pow10(k)) <= 131072 * (i * Pow10(k) + f) + Pow10(k)
  {
    hide Number, Pow10, Decimal, Accepted, Fraction;
    NumberMeaning(u, negative);
  }

  lemma FirstIsNoSign(ds: string, point: string, rest: string)
    requires AllDigits(ds) && (point == "" || point == "." || point == ",")
    requires ds == point == "" && rest != "" ==> !IsSpace(rest[0]) && rest[0] != '+' && rest[0] != '-'
    ensures var u := ds + (point + rest);
      u != "" && (ds != "" || point != "" || rest != "") ==> !IsSpace(u[0]) && u[0] != '+' && u[0] != '-'
  {
    if ds != "" {
      NotSpace(ds[0]);
      assert (ds + (point + rest))[0] == ds[0];
    } else if point != "" {
      assert (ds + (point + rest))[0] == point[0];
    } else {
      assert ds + (point + rest) == rest;
    }
  }

  lemma SignTakenOff(sign: string, u: string)
    requires sign == "" || sign == "+" || sign == "-"
    requires sign == "" && u != "" ==> !IsSpace(u[0]) && u[0] != '+' && u[0] != '-'
    ensures AfterSign(sign + u) == u && (Starts(sign + u, '-') <==> sign == "-")
    ensures sign + u == "" || !IsSpace((sign + u)[0])
  {
    assert sign != "" ==> (sign + u)[1..] == u;
    assert "" + u == u;
  }

  lemma DecimalOf(ds: string, point: string, fs: string, rest: string)
    requires AllDigits(ds) && AllDigits(fs) && |fs| <= 5
    requires point == "." || point == "," || (point == fs == "" && (rest == "" || (rest[0] != '.' && rest[0] != ',')))
    requires (point == "" || |fs| < 5) && rest != "" ==> !IsDigit(rest[0])
    ensures Decimal(ds + (point + (fs + rest))) == (Num(ds), Num(fs), |fs|)
  {
    hide Num, DigitRun, Pow10, IsDigit;
    RunsOf(ds, point, fs, rest);
    NumNone();
  }

  lemma AcceptedOf(ds: string, point: string, fs: string, rest: string, negative: bool)
    requires AllDigits(ds) && AllDigits(fs) && |fs| <= 5
    requires point == "." || point == "," || (point == fs == "" && (rest == "" || (rest[0] != '.' && rest[0] != ',')))
    requires (point == "" || |fs| < 5) && rest != "" ==> !IsDigit(rest[0])
    ensures Accepted(ds + (point + (fs + rest)), negative) <==>
      !(ds == "" || |ds| > 5 || Num(ds) > (if negative then 32768 else 32767))
      && forall c :: c in rest ==> IsDigit(c) || IsSpace(c)
  {
    hide Num, DigitRun, Pow10, WithFraction, IsDigit, IsSpace, AllDigits, Harmless;
    RunsOf(ds, point, fs, rest);
    RestOf(ds, point, fs, rest);
    HarmlessIs(rest);
  }

  lemma HarmlessIs(s: string)
    ensures Harmless(s) <==> forall c :: c in s ==> IsDigit(c) || IsSpace(c)
  {
    hide IsDigit, IsSpace;
  }

  lemma RestOf(ds: string, point: string, fs: string, rest: string)
    requires AllDigits(ds) && AllDigits(fs) && |fs| <= 5
    requires point == "." || point == "," || (point == fs == "" && (rest == "" || (rest[0] != '.' && rest[0] != ',')))
    requires (point == "" || |fs| < 5) && rest != "" ==> !IsDigit(rest[0])
    ensures WithFraction(Num(ds), point + (fs + rest)).1 == rest
  {
    hide Num, DigitRun, Pow10, Quotient, Wrap32, IsDigit, IsSpace, AllDigits;
    RunsOf(ds, point, fs, rest);
  }

  /** The two runs of digits the reader finds in such a text. */
  lemma RunsOf(ds: string, point: string, fs: string, rest: string)
    requires AllDigits(ds) && AllDigits(fs) && |fs| <= 5
    requires point == "." || point == "," || (point == fs == "" && (rest == "" || (rest[0] != '.' && rest[0] != ',')))
    requires (point == "" || |fs| < 5) && rest != "" ==> !IsDigit(rest[0])
    ensures var tail := point + (fs + rest);
      var u := ds + tail;
      && DigitRun(u, |u|) == ds && u[|ds|..] == tail
      && (if point == "" then tail == rest else
            tail != "" && tail[0] == point[0] && DigitRun(tail[1..], 5) == fs && tail[1 + |fs|..] == rest)
  {
    hide DigitRun;
    var tail := point + (fs + rest);
    var u := ds + tail;
    assert point == "" ==> tail == rest;
    DigitRunOf(ds, tail, |u|);
    assert u[|ds|..] == tail;
    if point != "" {
      assert tail[1..] == fs + rest && tail[1 + |fs|..] == rest;
      DigitRunOf(fs, rest, 5);
    }
  }

  /** A decimal below -32768 by half a unit or more. */
  predicate Beyond(i: nat, f: nat, k: nat) {
    i == 32768 && 131072 * f >= Pow10(k)
  }

  lemma FractionZero(f: nat, k: nat)
    requires k <= 5 && f < Pow10(k)
    ensures Fraction(f, k) > 0 <==> 131072 * f >= Pow10(k)
  {
    hide Fraction, Pow10;
    FractionSmall(f, k);
    Pow10Small(k);
    if Fraction(f, k) >= 1 {
      Grows(Fraction(f, k), 1, Pow10(k));
    } else {
      assert Fraction(f, k) == 0;
    }
  }

  lemma FractionOf(u: string)
    ensures var (i, f, k) := Decimal(u);
      var ds := DigitRun(u, |u|);
      i == Num(ds) && WithFraction(Num(ds), u[|ds|..]).0 == Wrap32(Wrap32(i * 65536) + Fraction(f, k))
  {
    hide Num, DigitRun, Wrap32, Quotient, Pow10, Fraction;
    FractionIs(u);
    Pow10Values();
    NoDecimals(Decimal(u).0, 0);
  }

  lemma FractionIs(u: string)
    ensures Pow10(Decimal(u).2) <= 100000 && Pow10(Decimal(u).2) > 0
    ensures Fraction(Decimal(u).1, Decimal(u).2) == Quotient(Decimal(u).1, Pow10(Decimal(u).2))
  {
    Pow10Small(Decimal(u).2);
  }

  lemma DecimalDistance(i: nat, f: nat, k: nat, g: nat, d: nat)
    requires 131072 * f - d < 2 * (g * d) <= 131072 * f + d
    ensures 131072 * (i * d + f) - d < 2 * ((i * 65536 + g) * d) <= 131072 * (i * d + f) + d
  {
    Distribute(i * 65536, g, d);
    assert i * 65536 * d == 65536 * (i * d);
  }

  lemma WrapNumber(i: nat, g: nat, negative: bool)
    requires g < 65536 && i <= if negative then 32768 else 32767
    ensures var v := Wrap32(Wrap32(i * 65536) + g);
      (if negative then Wrap32(0 - v) else v) ==
      if !negative then i * 65536 + g
      else if i == 32768 && g > 0 then 0x1_0000_0000 - (i * 65536 + g) else 0 - (i * 65536 + g)
  {
  }

  lemma NumOfLimit()
    ensures AllDigits("32768") && Num("32768") == 32768 && AllDigits("5") && Num("5") == 5
  {
    hide Num;
    NumNone();
    assert "" + ['3'] == "3" && "" + ['5'] == "5";
    NumAppend("", '3');
    NumAppend("", '5');
    assert "3" + ['2'] == "32" && "32" + ['7'] == "327" && "327" + ['6'] == "3276" && "3276" + ['8'] == "32768";
    NumAppend("3", '2');
    NumAppend("32", '7');
    NumAppend("327", '6');
    NumAppend("3276", '8');
  }

  /** Reading "-32768.5" gives 32767.5. */
  lemma BeyondSmallest()
    ensures Parsed("-32768.5") == 0x7FFF_8000
  {
    hide Num, DigitRun, Fraction, Number, Quotient, Wrap32;
    var u := "32768.5";
    SkipDone("-32768.5");
    assert "-32768.5"[1..] == u;
    assert "32768" + ".5" == u && u[5..] == ".5" && ".5"[1..] == "5" && "5" + "" == "5" && ".5"[2..] == "";
    NumOfLimit();
    DigitRunOf("32768", ".5", 7);
    DigitRunOf("5", "", 5);
    Pow10Values();
    NumberMeaning(u, true);
    FractionSmall(5, 1);
  }
}
