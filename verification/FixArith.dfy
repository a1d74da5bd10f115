/** Multiplication and division of 16.16 fixed-point numbers with 32-bit operations only. */
module FixArith {
  import opened Words

  type Fix = x: int | -0x8000_0000 <= x < 0x8000_0000

  const OVERFLOW: Fix := -0x8000_0000

  function Wrap32(x: int): Fix {
    (x + 0x8000_0000) % 0x1_0000_0000 - 0x8000_0000
  }

  function U32(x: int): Word {
    x % 0x1_0000_0000
  }

  // --------------------------------------------------------------------------
  // Multiplication
  // --------------------------------------------------------------------------

  function Hi(x: int): int {
    x / 65536
  }

  function Lo(x: int): (r: int)
    ensures 0 <= r < 65536
  {
    x % 65536
  }

  /** The rounding of lines 148-164, from the two words of the product. */
  function RoundWords(hi: Fix, lo: Word): Fix {
    var borrow := if hi < 0 then 0x8001 else 0x8000;
    var lo1 := U32(lo - borrow);
    var hi1 := if lo1 > lo then Wrap32(hi - 1) else hi;
    // The two shifted words share no bits, so the bitwise or is a sum.
    Wrap32(Wrap32(hi1 * 65536 + lo1 / 65536) + 1)
  }

  /** Lines 124-165, from the four 16-bit products: ac = A*C, mid = A*D + C*B, bd = B*D. */
  function MulParts(ac: int, mid: int, bd: int): Fix {
    var ac32 := Wrap32(ac);
    var mid32 := Wrap32(mid);
    var bd32 := U32(bd);
    var hi0 := Wrap32(ac32 + mid32 / 65536);
    var lo := U32(bd32 + U32(mid32 * 65536));
    var hi := if lo < bd32 then Wrap32(hi0 + 1) else hi0;
    if hi / 0x8000_0000 != hi / 0x8000 then OVERFLOW else RoundWords(hi, lo)
  }

  function Mul(a: Fix, b: Fix): Fix {
    MulParts(Hi(a) * Hi(b), Hi(a) * Lo(b) + Hi(b) * Lo(a), Lo(a) * Lo(b))
  }

  /** P / 65536 rounded to nearest, halves away from zero. */
  function RoundAway(P: int): int {
    if P >= 0 then (P + 0x8000) / 65536 else -((0x8000 - P) / 65536)
  }

  /** What a product should be: rounded, or OVERFLOW where it does not fit. */
  function Rounded(P: int): Fix {
    var r := RoundAway(P);
    if -0x8000_0000 <= r < 0x8000_0000 then r else OVERFLOW
  }

  /** The middle term of the product fits in 32 bits (line 128). */
  predicate MiddleFits(a: Fix, b: Fix) {
    -0x8000_0000 <= Hi(a) * Lo(b) + Hi(b) * Lo(a) < 0x8000_0000
  }

  lemma RoundWordsMeaning(hi: Fix, lo: Word)
    requires -0x8000 <= hi < 0x8000
    ensures RoundWords(hi, lo) == Wrap32(RoundAway(hi * 0x1_0000_0000 + lo))
  {
    hide Wrap32, U32, RoundAway;
    var P, borrow := hi * 0x1_0000_0000 + lo, if hi < 0 then 0x8001 else 0x8000;
    var under := if lo < borrow then 1 else 0;
    U32Is(lo - borrow, 0 - under);
    WrapIs(hi - 1, 0);
    var hi1, lo1 := hi - under, lo - borrow + under * 0x1_0000_0000;
    WrapTwice(hi1 * 65536 + lo1 / 65536);
    FloorWords(hi1, lo1);
    RoundAwayIs(P);
  }

  lemma WrapTwice(x: int)
    ensures Wrap32(Wrap32(x) + 1) == Wrap32(x + 1)
  {
  }

  lemma FloorWords(hi: int, lo: int)
    ensures (hi * 0x1_0000_0000 + lo) / 65536 == hi * 65536 + lo / 65536
  {
  }

  lemma RoundAwayIs(P: int)
    ensures RoundAway(P) == (P - if P < 0 then 0x8001 else 0x8000) / 65536 + 1
  {
  }

  /** The two words hold the product: its middle term reduced to 32 bits, everything else exactly. */
  lemma WordsOfProduct(ac: int, mid: int, bd: int, k: int)
    requires -0x4000_0000 <= ac <= 0x4000_0000 && 0 <= bd < 0x1_0000_0000
    requires -0x8000_0000 <= mid - k * 0x1_0000_0000 < 0x8000_0000
    ensures var m := mid - k * 0x1_0000_0000;
      var P := ac * 0x1_0000_0000 + m * 65536 + bd;
      MulParts(ac, mid, bd) == if -0x8000_0000_0000 <= P < 0x8000_0000_0000 then Wrap32(RoundAway(P)) else OVERFLOW
  {
    hide RoundWords, RoundAway, Wrap32, U32;
    var m := mid - k * 0x1_0000_0000;
    WrapIs(mid, k);
    WrapIs(ac, 0);
    U32Is(bd, 0);
    var m1, m0 := m / 65536, m % 65536;
    U32Is(m * 65536, m1);
    var c := if bd + m0 * 65536 >= 0x1_0000_0000 then 1 else 0;
    U32Is(bd + m0 * 65536, c);
    WrapIs(ac + m1, 0);
    WrapIs(ac + m1 + 1, 0);
    var hi, lo := ac + m1 + c, bd + m0 * 65536 - c * 0x1_0000_0000;
    assert MulParts(ac, mid, bd) == if hi / 0x8000_0000 != hi / 0x8000 then OVERFLOW else RoundWords(hi, lo);
    if -0x8000 <= hi < 0x8000 {
      RoundWordsMeaning(hi, lo);
    }
  }

  lemma WrapIs(x: int, k: int)
    requires -0x8000_0000 <= x - k * 0x1_0000_0000 < 0x8000_0000
    ensures Wrap32(x) == x - k * 0x1_0000_0000
  {
  }

  lemma U32Is(x: int, k: int)
    requires 0 <= x - k * 0x1_0000_0000 < 0x1_0000_0000
    ensures U32(x) == x - k * 0x1_0000_0000
  {
  }

  lemma Product(A: int, B: int, C: int, D: int)
    ensures (65536 * A + B) * (65536 * C + D) == A * C * 0x1_0000_0000 + (A * D + C * B) * 65536 + B * D
  {
  }

  lemma PartBounds(A: int, B: int, C: int, D: int)
    requires -0x8000 <= A < 0x8000 && -0x8000 <= C < 0x8000 && 0 <= B < 65536 && 0 <= D < 65536
    ensures -0x4000_0000 <= A * C <= 0x4000_0000 && 0 <= B * D < 0x1_0000_0000
    ensures -0x8000_0000 <= A * D < 0x8000_0000 && -0x8000_0000 <= C * B < 0x8000_0000
  {
    ProductBound(A, C, 32768, 32768);
    ProductBound(B, D, 65535, 65535);
    ProductBound(A, D, 32768, 65535);
    ProductBound(C, B, 32768, 65535);
    ProductSign(B, D);
  }

  lemma ProductBound(x: int, y: int, m: int, n: int)
    requires -m <= x <= m && -n <= y <= n
    ensures -(m * n) <= x * y <= m * n
  {
    assert (m - x) * (n + y) >= 0 && (m + x) * (n - y) >= 0;
    assert (m - x) * (n - y) >= 0 && (m + x) * (n + y) >= 0;
  }

  lemma WindowRounds(P: int)
    ensures Rounded(P) == if -0x8000_0000_0000 <= P < 0x8000_0000_0000 then Wrap32(RoundAway(P)) else OVERFLOW
  {
    if P == -0x8000_0000_0000 {
      assert RoundAway(P) == -0x8000_0000;
    }
  }

  /** How many multiples of 2^32 the middle term is beyond 32 bits. */
  function Laps(a: Fix, b: Fix): (k: int)
    ensures k == 0 <==> MiddleFits(a, b)
  {
    var mid := Hi(a) * Lo(b) + Hi(b) * Lo(a);
    if mid < -0x8000_0000 then -1 else if mid >= 0x8000_0000 then 1 else 0
  }

  /** The product the program rounds: the middle term, which stands 16 bits up, has wrapped. */
  function Taken(a: Fix, b: Fix): int {
    a * b - Laps(a, b) * 0x1_0000_0000_0000
  }

  /** For all arguments, what the program computes is the taken product, rounded, or OVERFLOW where that is too large. */
  lemma MulMeaning(a: Fix, b: Fix)
    ensures Mul(a, b) == Rounded(Taken(a, b))
  {
    hide MulParts, Rounded, RoundAway, Wrap32;
    var A, B, C, D := Hi(a), Lo(a), Hi(b), Lo(b);
    assert a == 65536 * A + B && b == 65536 * C + D;
    Product(A, B, C, D);
    PartBounds(A, B, C, D);
    WordsOfProduct(A * C, A * D + C * B, B * D, Laps(a, b));
    WindowRounds(Taken(a, b));
  }

  /** The same in numbers: the middle term, when it does not fit 32 bits, leaves 2^48 too little or too much; what it leaves
      is rounded to nearest, halves away from zero, and is OVERFLOW from 32768 less half a unit on. */
  lemma MulNumbers(a: Fix, b: Fix)
    ensures var mid := (a / 65536) * (b % 65536) + (b / 65536) * (a % 65536);
      var P := if mid < -0x8000_0000 then a * b + 0x1_0000_0000_0000
               else if mid >= 0x8000_0000 then a * b - 0x1_0000_0000_0000 else a * b;
      var r := Mul(a, b) * 65536;
      if P >= 0x7FFF_FFFF_8000 || P <= -0x7FFF_FFFF_8000 then Mul(a, b) == OVERFLOW
      else if P >= 0 then P - 0x8000 < r <= P + 0x8000 else P - 0x8000 <= r < P + 0x8000
  {
    hide Mul, Rounded;
    MulMeaning(a, b);
    RoundedNearest(Taken(a, b));
  }

  lemma RoundedNearest(P: int)
    ensures if P >= 0x7FFF_FFFF_8000 || P <= -0x7FFF_FFFF_8000 then Rounded(P) == OVERFLOW
            else if P >= 0 then P - 0x8000 < Rounded(P) * 65536 <= P + 0x8000
            else P - 0x8000 <= Rounded(P) * 65536 < P + 0x8000
  {
  }

  /** The product is the nearest value, halves away from zero, or OVERFLOW where that does not fit, exactly when the
      middle term fits, or when both the product and what is taken for it are too large. */
  lemma MulRight(a: Fix, b: Fix)
    ensures Mul(a, b) == Rounded(a * b) <==>
            MiddleFits(a, b) || (TooLarge(a * b) && TooLarge(Taken(a, b)))
  {
    hide Mul, MiddleFits;
    MulMeaning(a, b);
    if !MiddleFits(a, b) {
      FarApart(a * b, Taken(a, b));
    }
  }

  /** The rounded value does not fit, or is the one that stands for overflow. */
  predicate TooLarge(P: int) {
    Abs(P) >= 0x7FFF_FFFF_8000
  }

  lemma FarApart(P: int, Q: int)
    requires P - Q >= 0x1_0000_0000_0000 || Q - P >= 0x1_0000_0000_0000
    ensures Rounded(P) == Rounded(Q) <==> TooLarge(P) && TooLarge(Q)
  {
    assert P - Q >= 0x1_0000_0000_0000 ==> RoundAway(P) - RoundAway(Q) >= 0xFFFF_FFFF;
    assert Q - P >= 0x1_0000_0000_0000 ==> RoundAway(Q) - RoundAway(P) >= 0xFFFF_FFFF;
  }

  /** Raw -2147418113 times raw -1 is raw 32767 once rounded, and comes out as OVERFLOW. */
  lemma MulFalseOverflow()
    ensures Mul(-2147418113, -1) == OVERFLOW && Rounded(-2147418113 * -1) == 32767
  {
    hide Mul;
    assert Hi(-2147418113) == -32768 && Lo(-2147418113) == 65535 && Hi(-1) == -1 && Lo(-1) == 65535;
    MulMeaning(-2147418113, -1);
  }

  /** Beyond, an overflow can go unnoticed: 2.99998 times 32767.99998 comes out as 32767.50005. */
  lemma MulMissesOverflow()
    ensures Mul(196607, 2147483647) == 2147450877 && Rounded(196607 * 2147483647) == OVERFLOW
  {
    hide Mul;
    assert Hi(196607) == 2 && Lo(196607) == 65535 && Hi(2147483647) == 32767 && Lo(2147483647) == 65535;
    MulMeaning(196607, 2147483647);
  }

  // --------------------------------------------------------------------------
  // Division
  // --------------------------------------------------------------------------

  /** What the kick-start of line 306 adds to the scaled dividend n * 2^17 by its rounding. */
  function Slack(n: nat, d: nat): (e: nat)
    requires d > 0
    ensures e < 131072 && (d < 0x10_0000 ==> e == 0)
  {
    if d < 0x10_0000 then 0 else DivMod(n, d / 131072 + 1).0 * d % 131072
  }

  /** The quotient with 17 fraction bits. */
  function Scaled(n: nat, d: nat): nat
    requires d > 0
  {
    DivMod(131072 * n + Slack(n, d), d).0
  }

  /** The quotient a division returns: rounded to 16 fraction bits, with the sign, or OVERFLOW. */
  function Quotient(a: Fix, b: Fix): Fix
    requires b != 0
  {
    var N := Scaled(Abs(a), Abs(b));
    var q := (N + 1) / 2;
    if N >= 0x1_0000_0000 then OVERFLOW else Wrap32(if (a < 0) != (b < 0) then 0 - q else q)
  }

  /** The part of the quotient found, q, and the remainder R scaled by 2^bp still to be divided by D. */
  predicate Dividing(T: int, D: int, q: int, R: int, bp: int) {
    bp >= -1 && 2 * T == 2 * (q * D) + R * Pow2(bp + 1)
  }

  lemma DivideFlat(T: int, D: int, q: int, R: int, s: int, t: int, div: int, rem: int)
    requires 2 * T == 2 * (q * D) + R * (s * (2 * t)) && R * s == div * D + rem
    ensures 2 * T == 2 * ((q + div * t) * D) + 2 * rem * t
  {
    assert R * (s * (2 * t)) == 2 * ((R * s) * t);
    assert (div * D + rem) * t == div * t * D + rem * t;
    assert (q + div * t) * D == q * D + div * t * D;
  }

  /** One round of the loop at line 320. */
  lemma DivideStep(T: nat, D: nat, q: nat, R: nat, bp: int, shift: nat, div: nat, rem: nat, m: nat)
    requires Dividing(T, D, q, R, bp) && 0 <= shift <= bp && D > 0
    requires R * Pow2(shift) == div * D + rem && rem < D && m * D <= T < (m + 1) * D
    ensures var t := Pow2(bp - shift);
      && Dividing(T, D, q + div * t, 2 * rem, bp - shift - 1)
      && q + div * t <= m && div * t <= m && (q == 0 ==> m < (div + 1) * t)
  {
    var s, t := Pow2(shift), Pow2(bp - shift);
    Pow2Add(shift, bp - shift + 1);
    DivideFlat(T, D, q, R, s, t, div, rem);
    ProductSign(rem, t);
    ProductSign(div, t);
    var q' := q + div * t;
    LessFactor(q', m + 1, D);
    if q == 0 {
      TopStep(T, D, t, div, rem, m);
    }
  }

  lemma TopStep(T: nat, D: nat, t: nat, div: nat, rem: nat, m: nat)
    requires D > 0 && t > 0 && 2 * T == 2 * (div * t * D) + 2 * rem * t && rem < D && m * D <= T
    ensures m < (div + 1) * t
  {
    assert (D - rem) * t > 0;
    assert (div + 1) * t * D == div * t * D + D * t;
    assert T < (div + 1) * t * D;
    LessFactor(m, (div + 1) * t, D);
  }

  /** The bits a quotient digit must not have (line 333). */
  function OverMask(bp: nat): nat {
    U32(0xFFFF_FFFF - Shr(0xFFFF_FFFF, bp))
  }

  lemma OverMaskIs(bp: nat)
    requires bp <= 32
    ensures OverMask(bp) == (Pow2(bp) - 1) * Pow2(32 - bp)
  {
    hide Shr, Pow2, U32;
    Pow2Values();
    var c, p := Pow2(32 - bp), Pow2(bp);
    Pow2Add(32 - bp, bp);
    MaskFlat(c, p);
    ShiftUnique(0xFFFF_FFFF, bp, c - 1, p - 1);
    U32Is(0xFFFF_FFFF - (c - 1), 0);
  }

  lemma MaskFlat(c: nat, p: nat)
    requires c > 0 && p > 0
    ensures (c - 1) * p + (p - 1) == c * p - 1 && (p - 1) * c == c * p - c && c <= c * p
  {
  }

  /** The overflow test of line 333. */
  lemma OverflowTest(div: Word, bp: nat)
    requires bp <= 32
    ensures And(div, OverMask(bp)) != 0 <==> div >= Pow2(32 - bp)
  {
    hide And, OverMask, Shr, LowBits, Pow2;
    Pow2Values();
    var c, p := Pow2(32 - bp), Pow2(bp);
    Pow2Add(32 - bp, bp);
    OverMaskIs(bp);
    AndShifted(div, p - 1, 32 - bp);
    var y, low := Shr(div, 32 - bp), LowBits(div, 32 - bp);
    AndMask(y, bp);
    ShiftSplits(div, 32 - bp);
    LessFactor(y, p, c);
    SmallWord(y, bp);
    Nonzero(y, c, low, div);
  }

  lemma Nonzero(y: nat, c: nat, low: nat, x: nat)
    requires x == y * c + low && low < c
    ensures y * c != 0 <==> x >= c
  {
    if y >= 1 {
      MulAtLeast(y, c);
    } else {
      assert y * c == 0;
    }
  }

  // The method.

  /** The kick-start leaves q0 and a remainder whose scaled value is too large by the slack only. */
  lemma KickStart(n: nat, d: nat, q0: nat, R: int)
    requires n <= 0x8000_0000 && 0x10_0000 <= d <= 0x8000_0000
    requires q0 == DivMod(n, d / 131072 + 1).0 && R == n - q0 * d / 131072
    ensures 0 <= R <= n && 131072 * n + Slack(n, d) == q0 * d + 131072 * R && q0 < 0x1000_0000
  {
    var s := d / 131072 + 1;
    var X := q0 * d;
    ProductSign(q0, d);
    assert 131072 * (X / 131072) + X % 131072 == X;
    assert d <= 131072 * s && s >= 9;
    Grows(131072 * s, d, q0);
    assert q0 * (131072 * s) == 131072 * (q0 * s);
    assert X <= 131072 * n;
    Grows(s, 9, q0);
  }

  lemma ScaledParts(n: nat, d: nat, q0: nat, R: nat, m: nat)
    requires d > 0 && 131072 * n + Slack(n, d) == q0 * d + 131072 * R && m == DivMod(131072 * R, d).0
    ensures Scaled(n, d) == q0 + m
  {
    hide DivMod, Slack;
    var r := DivMod(131072 * R, d).1;
    Distribute(q0, m, d);
    DivModIs(131072 * n + Slack(n, d), d, q0 + m, r);
  }

  /** Dividing both by a common factor. */
  lemma CommonFactor(X: nat, d: nat, T: nat, D: nat, c: nat)
    requires d > 0 && D > 0 && c > 0 && X == T * c && d == D * c
    ensures DivMod(X, d).0 == DivMod(T, D).0
  {
    hide DivMod;
    var (m, r) := DivMod(T, D);
    FactorFlat(T, D, c, m, r);
    DivModIs(X, d, m, r * c);
  }

  lemma FactorFlat(T: nat, D: nat, c: nat, m: nat, r: nat)
    requires T == m * D + r && r < D && c > 0
    ensures T * c == m * (D * c) + r * c && 0 <= r * c < D * c
  {
    Grows(D, r + 1, c);
    Distribute(r, 1, c);
    Distribute(m * D, r, c);
    assert m * D * c == m * (D * c);
    ProductSign(r, c);
  }

  lemma KickSmall(n: nat, d: nat)
    requires n <= 0x8000_0000 && 0x10_0000 <= d <= 0x8000_0000
    ensures Scaled(n, d) < 0x2000_0000
  {
    hide DivMod, Slack;
    var X := 131072 * n + Slack(n, d);
    var m := DivMod(X, d).0;
    Grows(d, 0x10_0000, m);
    assert m * d <= X;
  }

  lemma NotAllOnes(n: nat, d: nat)
    requires n <= 0x8000_0000 && 0 < d <= 0x8000_0000
    ensures Scaled(n, d) != 0xFFFF_FFFF
  {
    hide DivMod, Slack;
    if d >= 0x10_0000 {
      KickSmall(n, d);
    } else if Scaled(n, d) == 0xFFFF_FFFF {
      NoKick(n, d);
      AllOnesFlat(n, d, DivMod(131072 * n, d).1);
    }
  }

  lemma AllOnesFlat(n: nat, d: nat, r: nat)
    requires 131072 * n == 0xFFFF_FFFF * d + r && r < d
    ensures n > 0x8000_0000
  {
    var j := 32768 * d - n;
    assert d - r == 131072 * j;
    assert j >= 1;
  }

  /** Shifting by at most the leading zeros stays in 32 bits. */
  lemma ShiftFits(R: Word, shift: nat)
    requires R > 0 && shift <= Clz32(R)
    ensures R * Pow2(shift) < 0x1_0000_0000
  {
    hide Clz32, Pow2;
    var c := Clz32(R);
    Pow2Values();
    Pow2Add(32 - c, c);
    Pow2Monotone(shift, c);
    Grows(Pow2(c), Pow2(shift), R);
    Grows(Pow2(32 - c), R + 1, Pow2(c));
    Distribute(R, 1, Pow2(c));
  }

  /** When nothing is left to divide, the quotient is complete. */
  lemma DivideDone(T: nat, D: nat, q: nat, R: nat, bp: int, m: nat)
    requires Dividing(T, D, q, R, bp) && D > 0 && m == DivMod(T, D).0
    requires R == 0 || (bp == -1 && exists rem :: R == 2 * rem && 0 <= rem < D)
    ensures q == m
  {
    hide DivMod;
    if R == 0 {
      DivModIs(T, D, q, 0);
    } else {
      var rem :| R == 2 * rem && 0 <= rem < D;
      DivModIs(T, D, q, rem);
    }
  }

  lemma NoKick(n: nat, d: nat)
    requires 0 < d < 0x10_0000
    ensures 131072 * n + Slack(n, d) == 0 * d + 131072 * n
  {
  }

  lemma Reduce(d: nat, bp: int, c: nat)
    requires d > 0 && d % 16 == 0 && bp >= 4
    ensures d / 16 > 0 && d / 16 * (16 * c) == d * c && Pow2(bp - 4) * (16 * c) == Pow2(bp) * c
  {
    Pow2Add(bp - 4, 4);
    assert Pow2(4) == 16;
    var e := d / 16;
    assert d == 16 * e;
    assert e * (16 * c) == 16 * e * c;
  }

  lemma DivideStart(T: nat, D: nat, R: nat, bp: nat)
    requires T == R * Pow2(bp)
    ensures Dividing(T, D, 0, R, bp)
  {
    assert R * Pow2(bp + 1) == 2 * (R * Pow2(bp));
    assert 0 * D == 0;
  }

  /** The division rounds (lines 320-339): m more is added to the quotient, or an overflow is found. */
  method DivideLoop(remainder0: Word, divider: Word, quotient0: Word, bitPos0: int, ghost T: nat, ghost m: nat)
    returns (quotient: Word, over: bool)
    requires 0 < divider <= 0x8000_0000 && 0 <= bitPos0 <= 17 && T == remainder0 * Pow2(bitPos0) && m == DivMod(T, divider).0
    requires quotient0 == 0 || quotient0 + m < 0x1_0000_0000
    ensures over <==> m >= 0x1_0000_0000
    ensures !over ==> quotient == quotient0 + m
  {
    hide And, Clz32, OverMask, Dividing, DivMod, U32, Pow2;
    var remainder: Word := remainder0;
    var bitPos := bitPos0;
    quotient := quotient0;
    ghost var q, rest := 0, 0;
    DivideStart(T, divider, remainder, bitPos);
    Bounds(T, divider, m);
    while remainder != 0 && bitPos >= 0
      invariant -1 <= bitPos <= 17 && Dividing(T, divider, q, remainder, bitPos)
      invariant quotient == quotient0 + q && 0 <= q
      invariant m >= 0x1_0000_0000 ==> q == 0 && bitPos == bitPos0
      invariant bitPos == bitPos0 || (remainder == 2 * rest && 0 <= rest < divider)
      decreases bitPos
    {
      var shift := Clz32(remainder);
      if shift > bitPos {
        shift := bitPos;
      }
      ShiftFits(remainder, shift);
      ghost var R, bp := remainder, bitPos;
      remainder := remainder * Pow2(shift);
      bitPos := bitPos - shift;
      var (div, rem) := DivMod(remainder, divider);
      DivideStep(T, divider, q, R, bp, shift, div, rem, m);
      OverflowTest(div, bitPos);
      TopDigit(div, bitPos, m);
      remainder := rem;
      if m < 0x1_0000_0000 {
        U32Is(div * Pow2(bitPos), 0);
        U32Is(quotient + div * Pow2(bitPos), 0);
      }
      quotient := U32(quotient + U32(div * Pow2(bitPos)));
      if And(div, OverMask(bitPos)) != 0 {
        return quotient, true;
      }
      q := q + div * Pow2(bitPos);
      rest := rem;
      U32Is(remainder * 2, 0);
      remainder := U32(remainder * 2);
      bitPos := bitPos - 1;
    }
    over := false;
    Bounds(T, divider, m);
    if remainder != 0 {
      assert remainder == 2 * rest;
    }
    DivideDone(T, divider, q, remainder, bitPos, m);
  }

  lemma Bounds(T: nat, D: nat, m: nat)
    requires D > 0 && m == DivMod(T, D).0
    ensures m * D <= T < (m + 1) * D
  {
    assert (m + 1) * D == m * D + D;
  }

  /** Whether a quotient digit is too large decides whether the whole quotient is. */
  lemma TopDigit(div: nat, bp: nat, m: nat)
    requires bp <= 32
    ensures m < 0x1_0000_0000 && div * Pow2(bp) <= m ==> div < Pow2(32 - bp)
    ensures m >= 0x1_0000_0000 && m < (div + 1) * Pow2(bp) ==> div >= Pow2(32 - bp)
  {
    Pow2Values();
    Pow2Add(32 - bp, bp);
    var c, t := Pow2(32 - bp), Pow2(bp);
    if m < 0x1_0000_0000 && div * t <= m {
      LessFactor(div, c, t);
    }
    if m >= 0x1_0000_0000 && m < (div + 1) * t {
      LessFactor(c, div + 1, t);
    }
  }

  /** Quotient and overflow of magnitudes (lines 300-339). */
  method DivideWords(n: Word, d: Word) returns (quotient: Word, over: bool)
    requires n <= 0x8000_0000 && 0 < d <= 0x8000_0000
    ensures over <==> Scaled(n, d) >= 0x1_0000_0000
    ensures !over ==> quotient == Scaled(n, d)
  {
    hide And, Clz32, OverMask, Scaled, Slack, Dividing, DivMod, Pow2;
    var remainder: Word := n;
    var divider: Word := d;
    quotient := 0;
    var bitPos := 17;
    AndTop12(divider);
    if And(divider, 0xFFF0_0000) != 0 {
      var shiftedDiv := divider / 131072 + 1;
      quotient := DivMod(remainder, shiftedDiv).0;
      KickStart(n, d, quotient, remainder - quotient * divider / 131072);
      KickSmall(n, d);
      remainder := remainder - quotient * divider / 131072;
    } else {
      NoKick(n, d);
    }
    ghost var c, R, m := 1, remainder, DivMod(131072 * remainder, d).0;
    ScaledParts(n, d, quotient, R, m);
    ScaleIs();
    while And(divider, 0xF) == 0 && bitPos >= 4
      invariant 0 <= bitPos <= 17 && c > 0 && 0 < divider <= d
      invariant divider * c == d && Pow2(bitPos) * c == 131072
      decreases bitPos
    {
      AndLow4(divider);
      Reduce(divider, bitPos, c);
      divider := divider / 16;
      bitPos := bitPos - 4;
      c := 16 * c;
    }
    ReducedScale(R, bitPos, c);
    CommonFactor(131072 * R, d, R * Pow2(bitPos), divider, c);
    quotient, over := DivideLoop(remainder, divider, quotient, bitPos, R * Pow2(bitPos), m);
  }

  lemma ScaleIs()
    ensures Pow2(17) == 131072
  {
    Pow2Values();
    assert Pow2(17) == 2 * Pow2(16);
  }

  lemma ReducedScale(R: nat, bp: nat, c: nat)
    requires Pow2(bp) * c == 131072
    ensures R * Pow2(bp) >= 0 && 131072 * R == R * Pow2(bp) * c
  {
    hide Pow2;
    ProductSign(R, Pow2(bp));
    assert R * Pow2(bp) * c == R * (Pow2(bp) * c);
  }

  /** fix16_div. */
  method Div(a: Fix, b: Fix) returns (result: Fix)
    ensures b == 0 ==> result == OVERFLOW
    ensures b != 0 ==> result == Quotient(a, b)
  {
    hide Scaled, Wrap32, U32;
    if b == 0 {
      return OVERFLOW;
    }
    var remainder: Word := if a >= 0 then a else 0 - a;
    var divider: Word := if b >= 0 then b else 0 - b;
    var quotient, over := DivideWords(remainder, divider);
    if over {
      return OVERFLOW;
    }
    NotAllOnes(remainder, divider);
    U32Is(quotient + 1, 0);
    quotient := U32(quotient + 1);
    WrapIs(quotient / 2, 0);
    result := Wrap32(quotient / 2);
    if (a < 0) != (b < 0) {
      if result == -0x8000_0000 {
        return OVERFLOW;
      }
      result := Wrap32(0 - result);
    }
  }

  // How good it is.

  /** r is 65536 * a / b rounded to nearest, halves away from zero. */
  predicate Nearest(a: Fix, b: Fix, r: int) {
    var n, d, s := Abs(a), Abs(b), Abs(r);
    && 131072 * n - d < 2 * (s * d) <= 131072 * n + d
    && (r != 0 ==> (r < 0 <==> (a < 0) != (b < 0)))
  }

  lemma RoundUp(X: nat, d: nat, N: nat, s: nat)
    requires N * d <= X < (N + 1) * d && s == (N + 1) / 2
    ensures X - d < 2 * (s * d) <= X + d
  {
    Distribute(N, 1, d);
    Distribute(s, s, d);
    if N == 2 * s {
      assert s + s == N;
    } else {
      Distribute(s + s, 0 - 1, d);
      assert s + s - 1 == N;
    }
  }

  lemma QuotientSign(a: Fix, b: Fix)
    requires b != 0 && Scaled(Abs(a), Abs(b)) < 0x1_0000_0000
    ensures var s := (Scaled(Abs(a), Abs(b)) + 1) / 2;
      && s < 0x8000_0000 && Quotient(a, b) == (if (a < 0) != (b < 0) then 0 - s else s)
      && Abs(Quotient(a, b)) == s && Quotient(a, b) != OVERFLOW
  {
    hide Scaled, Wrap32;
    NotAllOnes(Abs(a), Abs(b));
    var s := (Scaled(Abs(a), Abs(b)) + 1) / 2;
    WrapIs(0 - s, 0);
    WrapIs(s, 0);
  }

  /** For divisors below 16.0 the quotient is the nearest value, and OVERFLOW exactly from 32768 on. */
  lemma DivNearest(a: Fix, b: Fix)
    requires 0 < Abs(b) < 0x10_0000
    ensures Quotient(a, b) == OVERFLOW <==> 131072 * Abs(a) >= 0x1_0000_0000 * Abs(b)
    ensures Quotient(a, b) != OVERFLOW ==> Nearest(a, b, Quotient(a, b))
  {
    hide Slack, DivMod, Quotient, Wrap32;
    var n, d := Abs(a), Abs(b);
    NoKick(n, d);
    var N := Scaled(n, d);
    Bounds(131072 * n, d, N);
    if N >= 0x1_0000_0000 {
      Grows(N, 0x1_0000_0000, d);
      QuotientOver(a, b);
    } else {
      Grows(0x1_0000_0000, N + 1, d);
      QuotientSign(a, b);
      RoundUp(131072 * n, d, N, (N + 1) / 2);
    }
  }

  lemma QuotientOver(a: Fix, b: Fix)
    requires b != 0 && Scaled(Abs(a), Abs(b)) >= 0x1_0000_0000
    ensures Quotient(a, b) == OVERFLOW
  {
  }

  /** 65536 * a / b rounded to nearest, halves away from zero. */
  function NearestValue(a: Fix, b: Fix): int
    requires b != 0
  {
    var s := (DivMod(131072 * Abs(a), Abs(b)).0 + 1) / 2;
    if (a < 0) != (b < 0) then 0 - s else s
  }

  lemma NearestIsUnique(a: Fix, b: Fix, r: int)
    requires b != 0
    ensures Nearest(a, b, r) <==> r == NearestValue(a, b)
  {
    hide DivMod;
    var n, d, t := Abs(a), Abs(b), NearestValue(a, b);
    var N := DivMod(131072 * n, d).0;
    Bounds(131072 * n, d, N);
    RoundUp(131072 * n, d, N, (N + 1) / 2);
    if Nearest(a, b, r) {
      OneMultiple(Abs(r), Abs(t), d, 131072 * n);
      OneMultiple(Abs(t), Abs(r), d, 131072 * n);
    }
  }

  lemma OneMultiple(s: nat, t: nat, d: nat, X: nat)
    requires X - d < 2 * (s * d) <= X + d && X - d < 2 * (t * d) <= X + d
    ensures s <= t
  {
    if s > t {
      Grows(s, t + 1, d);
      Distribute(t, 1, d);
    }
  }

  /** The slack of the kick-start carries an even quotient of 17 fraction bits over to the next one. */
  predicate Spoiled(n: nat, d: nat)
    requires d > 0
  {
    var (N, r) := DivMod(131072 * n, d);
    N % 2 == 0 && r + Slack(n, d) >= d
  }

  /** For all arguments: OVERFLOW exactly from 32768 on; otherwise the result is the nearest value, moved away from
      zero by one unit exactly when the kick-start spoils the quotient. */
  lemma DivExactly(a: Fix, b: Fix)
    requires b != 0
    ensures Quotient(a, b) == OVERFLOW <==> 131072 * Abs(a) >= 0x1_0000_0000 * Abs(b)
    ensures Quotient(a, b) != OVERFLOW ==>
      Abs(Quotient(a, b)) == Abs(NearestValue(a, b)) + if Spoiled(Abs(a), Abs(b)) then 1 else 0
    ensures Quotient(a, b) != OVERFLOW ==> (Nearest(a, b, Quotient(a, b)) <==> !Spoiled(Abs(a), Abs(b)))
    ensures var (n, d) := (Abs(a), Abs(b));
      var slack := if d < 0x10_0000 then 0 else DivMod(n, d / 131072 + 1).0 * d % 131072;
      Spoiled(n, d) <==> DivMod(131072 * n, d).0 % 2 == 0 && DivMod(131072 * n, d).1 + slack >= d
  {
    hide Slack, DivMod, Quotient, Wrap32, Nearest, NearestValue, Scaled, Spoiled;
    var n, d := Abs(a), Abs(b);
    SpoiledIs(n, d);
    SlackIs(n, d);
    NearestIsUnique(a, b, Quotient(a, b));
    if d < 0x10_0000 {
      DivNearest(a, b);
      NotSpoiled(n, d);
    } else {
      KickSmall(n, d);
      QuotientSign(a, b);
      ScaledCarry(n, d);
      NearestParts(a, b);
      var (N, r) := DivMod(131072 * n, d);
      HalfCarry(N, if r + Slack(n, d) >= d then 1 else 0);
    }
  }

  lemma SlackIs(n: nat, d: nat)
    requires d > 0
    ensures Slack(n, d) == if d < 0x10_0000 then 0 else DivMod(n, d / 131072 + 1).0 * d % 131072
  {
    hide DivMod;
  }

  lemma NotSpoiled(n: nat, d: nat)
    requires 0 < d < 0x10_0000
    ensures !Spoiled(n, d)
  {
    hide DivMod;
  }

  lemma SpoiledIs(n: nat, d: nat)
    requires d > 0
    ensures var (N, r) := DivMod(131072 * n, d);
      Spoiled(n, d) <==> N % 2 == 0 && r + Slack(n, d) >= d
  {
    hide DivMod, Slack;
  }

  lemma HalfCarry(N: nat, carry: nat)
    requires carry <= 1
    ensures (N + carry + 1) / 2 == (N + 1) / 2 + if N % 2 == 0 then carry else 0
  {
  }

  lemma NearestParts(a: Fix, b: Fix)
    requires b != 0
    ensures var t := (DivMod(131072 * Abs(a), Abs(b)).0 + 1) / 2;
      NearestValue(a, b) == (if (a < 0) != (b < 0) then 0 - t else t) && Abs(NearestValue(a, b)) == t
  {
    hide DivMod;
  }

  /** The slack adds at most one to the quotient of 17 fraction bits. */
  lemma ScaledCarry(n: nat, d: nat)
    requires d >= 0x10_0000
    ensures var (N, r) := DivMod(131072 * n, d);
      Scaled(n, d) == N + if r + Slack(n, d) >= d then 1 else 0
  {
    hide Slack, DivMod;
    var (N, r) := DivMod(131072 * n, d);
    var X := 131072 * n + Slack(n, d);
    if r + Slack(n, d) >= d {
      Distribute(N, 1, d);
      DivModIs(X, d, N + 1, r + Slack(n, d) - d);
    } else {
      DivModIs(X, d, N, r + Slack(n, d));
    }
  }

  /** With the kick-start the quotient is off by at most 65536 / |b| beyond the half unit of rounding. */
  lemma DivWithinOne(a: Fix, b: Fix)
    requires Abs(b) >= 0x10_0000
    ensures var s, n, d := Abs(Quotient(a, b)), Abs(a), Abs(b);
      131072 * n - d < 2 * (s * d) <= 131072 * n + d + 131072
  {
    hide Slack, DivMod, Quotient, Wrap32;
    var n, d := Abs(a), Abs(b);
    var N := Scaled(n, d);
    KickSmall(n, d);
    Bounds(131072 * n + Slack(n, d), d, N);
    QuotientSign(a, b);
    RoundUp(131072 * n + Slack(n, d), d, N, (N + 1) / 2);
  }

  /** With the kick-start the result need not be nearest: raw 633 by raw 1050271 gives 40, the nearest is 39. */
  lemma DivNotNearest()
    ensures Quotient(633, 1050271) == 40
    ensures Nearest(633, 1050271, 39) && !Nearest(633, 1050271, 40)
  {
    assert DivMod(633, 9) == (70, 3);
    assert 70 * 1050271 % 131072 == 118650;
    assert DivMod(131072 * 633 + 118650, 1050271) == (79, 131072 * 633 + 118650 - 79 * 1050271);
  }
}
