/** The 16.16 fixed-point square root: digit by digit, in two phases that stay within 32 bits. Every variable of
    the method is a 32-bit word, so that nothing overflows is part of what is proved. */
module FixSqrt {
  import opened Words
  import opened FixArith

  // --------------------------------------------------------------------------
  // Square roots
  // --------------------------------------------------------------------------

  function Sq(x: int): int {
    x * x
  }

  /** r is the integer nearest to the square root of X; a tie is impossible. */
  predicate NearestRoot(X: nat, r: nat) {
    (r > 0 ==> Sq(r) - r < X) && X <= Sq(r) + r
  }

  predicate FloorRoot(X: nat, r: nat) {
    Sq(r) <= X < Sq(r + 1)
  }

  lemma SqMonotone(a: nat, b: nat)
    requires a <= b
    ensures Sq(a) <= Sq(b)
  {
    assert Sq(b) == Sq(a) + (b - a) * (b + a);
  }

  lemma FloorRootUnique(X: nat, r: nat, s: nat)
    requires FloorRoot(X, r) && FloorRoot(X, s)
    ensures r == s
  {
    if r < s {
      SqMonotone(r + 1, s);
    } else if s < r {
      SqMonotone(s + 1, r);
    }
  }

  /** What "nearest" says about half steps: (2r - 1)^2 < 4X < (2r + 1)^2. */
  lemma NearestMeansHalfStep(X: nat, r: nat)
    ensures NearestRoot(X, r) <==> (r > 0 ==> Sq(2 * r - 1) < 4 * X) && 4 * X < Sq(2 * r + 1)
  {
    assert Sq(2 * r + 1) == 4 * (Sq(r) + r) + 1;
    assert Sq(2 * r - 1) == 4 * (Sq(r) - r) + 1;
  }

  lemma NearestUnique(X: nat, r: nat, s: nat)
    requires NearestRoot(X, r) && NearestRoot(X, s)
    ensures r == s
  {
    if r < s {
      Steps(r, s);
    } else if s < r {
      Steps(s, r);
    }
  }

  lemma Steps(r: nat, s: nat)
    requires r < s
    ensures Sq(r) + r <= Sq(s) - s
  {
    SqMonotone(r + 1, s);
    assert Sq(r + 1) == Sq(r) + 2 * r + 1;
    var d := s - (r + 1);
    assert Sq(s) - s == Sq(r + 1) - (r + 1) + d * (2 * (r + 1) + d - 1);
    assert d * (2 * (r + 1) + d - 1) >= 0;
  }

  // --------------------------------------------------------------------------
  // One digit
  // --------------------------------------------------------------------------

  /** The root found so far is rho, a multiple of the digits still to come; p = 2^k is the next digit, p * p the
      bit, and num and result are what the loop keeps of X and rho. */
  predicate Digits(X: int, rho: int, p: int, num: int, result: int) {
    && num == X - Sq(rho) && result == 2 * (rho * p) && 0 <= rho && 0 < p
    && Sq(rho) <= X < Sq(rho + 2 * p)
  }

  lemma TakeDigit(X: int, rho: int, p: int, num: int, result: int)
    requires Digits(X, rho, p, num, result)
    ensures result / 2 == rho * p && result >= 0
    ensures num >= result + Sq(p) ==>
      && num - (result + Sq(p)) == X - Sq(rho + p) && result / 2 + Sq(p) == (rho + p) * p
      && Sq(rho + p) <= X < Sq(rho + p + p)
    ensures num < result + Sq(p) ==> Sq(rho) <= X < Sq(rho + p)
  {
    assert Sq(rho + p) == Sq(rho) + 2 * (rho * p) + Sq(p);
    assert (rho + p) * p == rho * p + Sq(p);
    assert rho * p >= 0;
    assert rho + p + p == rho + 2 * p;
  }

  /** With half the digit the result is the same number, twice as many halves. */
  lemma NextDigit(X: int, rho: int, p: int, h: int, num: int, result: int)
    requires 0 < h && p == 2 * h && 0 <= rho
    requires num == X - Sq(rho) && result == rho * p && Sq(rho) <= X < Sq(rho + p)
    ensures Digits(X, rho, h, num, result)
  {
    assert rho * p == 2 * (rho * h);
  }

  /** result + bit is compared with num; this stays below 2^32. */
  function Reach(result: int, bit: int): int {
    result + 2 * bit
  }

  /** 4^k, and nothing once the digits are used up. */
  function Bit(k: int): nat {
    if k < 0 then 0 else Sq(Pow2(k))
  }

  lemma BitShift(k: int)
    requires k >= -1
    ensures Bit(k) / 4 == Bit(if k < 0 then k else k - 1)
    ensures Bit(k) == 0 <==> k == -1
  {
    if k >= 1 {
      assert Sq(Pow2(k)) == 4 * Sq(Pow2(k - 1));
    }
    if k >= 0 {
      var p := Pow2(k);
      assert Sq(p) >= 1 by {
        SqMonotone(1, p);
      }
    }
  }

  /** Before digit k, or with all digits used. */
  ghost predicate Rooting(X: int, rho: int, k: int, num: int, result: int) {
    if k < 0 then num == X - Sq(rho) && result == rho && 0 <= rho && Sq(rho) <= X < Sq(rho + 1)
    else Digits(X, rho, Pow2(k), num, result)
  }

  lemma RootingStep(X: int, rho: int, k: nat, num: int, result: int) returns (rho': int)
    requires Rooting(X, rho, k, num, result)
    ensures result >= 0
    ensures num >= result + Bit(k) ==>
      rho' == rho + Pow2(k) && Rooting(X, rho', k - 1, num - (result + Bit(k)), result / 2 + Bit(k))
    ensures num < result + Bit(k) ==>
      rho' == rho && Rooting(X, rho', k - 1, num, result / 2)
  {
    hide Sq, Digits;
    var p := Pow2(k);
    TakeDigit(X, rho, p, num, result);
    rho' := if num >= result + Sq(p) then rho + p else rho;
    if k > 0 {
      DigitsRange(X, rho, p, num, result);
      if num >= result + Sq(p) {
        NextDigit(X, rho', p, Pow2(k - 1), num - (result + Sq(p)), result / 2 + Sq(p));
      } else {
        NextDigit(X, rho', p, Pow2(k - 1), num, result / 2);
      }
    } else {
      DigitsRange(X, rho, p, num, result);
      TimesOne(rho);
      TimesOne(rho + 1);
    }
  }

  lemma DigitsRange(X: int, rho: int, p: int, num: int, result: int)
    requires Digits(X, rho, p, num, result)
    ensures num == X - Sq(rho) && rho >= 0 && p > 0 && num >= 0
  {
  }

  // --------------------------------------------------------------------------
  // The method
  // --------------------------------------------------------------------------

  /** The digit loop (lines 36-48): takes the digits from k on. */
  method DigitLoop(num0: Word, result0: Word, bit0: Word, ghost X: int, ghost rho0: int, ghost k0: int)
    returns (num: Word, result: Word)
    requires k0 >= -1 && bit0 == Bit(k0) && Rooting(X, rho0, k0, num0, result0)
    requires Reach(result0, bit0) < 0x1_0000_0000
    ensures X >= 0 && num == X - Sq(result) && FloorRoot(X, result)
  {
    hide Rooting, Bit, Sq;
    num, result := num0, result0;
    ghost var rho := rho0;
    var bit := bit0;
    ghost var k := k0;
    BitShift(k);
    while bit != 0
      invariant k >= -1 && bit == Bit(k) && (bit == 0 <==> k == -1)
      invariant Rooting(X, rho, k, num, result)
      invariant Reach(result, bit) < 0x1_0000_0000
      decreases k
    {
      BitShift(k);
      rho := RootingStep(X, rho, k, num, result);
      var next: Word := result + bit;
      if num >= next {
        num := num - next;
        result := result / 2 + bit;
      } else {
        result := result / 2;
      }
      bit := bit / 4;
      k := k - 1;
      BitShift(k);
    }
    RootingDone(X, rho, num, result);
  }

  lemma RootingDone(X: int, rho: int, num: int, result: int)
    requires Rooting(X, rho, -1, num, result)
    ensures num == X - Sq(rho) && result == rho >= 0 && X >= 0 && FloorRoot(X, rho)
  {
    assert Sq(rho) >= 0;
  }

  function ISqrt(x: nat): (t: nat)
    ensures FloorRoot(x, t)
  {
    if x == 0 then 0
    else
      var t := ISqrt(x - 1);
      SqMonotone(t + 1, t + 2);
      assert Sq(t + 2) == Sq(t + 1) + 2 * t + 3;
      if Sq(t + 1) <= x then t + 1 else t
  }

  /** The case of line 53: the remainder of the first phase does not fit in 16 bits. */
  predicate Carries(x: nat) {
    x - Sq(ISqrt(x)) > 65535
  }

  /** What the second phase takes the root of (line 62 subtracts 0x8000, where 0x4000 would keep 65536x). */
  function Target(x: nat): nat {
    if Carries(x) then 65536 * x - 16384 else 65536 * x
  }

  /** Starting the second phase from the root r of the first. */
  lemma SecondPhase(x: nat, r: nat, num: int)
    requires FloorRoot(x, r) && num == x - Sq(r) && x <= 0x8000_0000
    ensures num >= 0 && r < 0x1_0000 && (num > 65535 <==> Carries(x))
    ensures num <= 65535 ==> Digits(Target(x), 256 * r, 128, num * 65536, r * 65536)
    ensures num > 65535 ==>
      num >= r && num - r < 65536 && 0 <= (num - r) * 65536 - 0x8000
      && Digits(Target(x), 256 * r + 128, 128, (num - r) * 65536 - 0x8000, r * 65536 + 0x8000)
    ensures r * 65536 + 0x8000 + 0x8000 < 0xF000_0000
  {
    hide Sq, ISqrt, Digits;
    FloorRootUnique(x, r, ISqrt(x));
    NextSq(r);
    RootBelow(x, r);
    if num <= 65535 {
      StartPlain(x, r, num);
    } else {
      StartCarried(x, r, num);
    }
  }

  lemma RootBelow(x: nat, r: nat)
    requires Sq(r) <= x <= 0x8000_0000
    ensures r <= 46340
  {
    if r >= 46341 {
      SqMonotone(46341, r);
    }
  }

  /** Roots of 65536 times a number are 256 times as large. */
  lemma SqScaled(r: int)
    ensures Sq(256 * r) == 65536 * Sq(r)
    ensures Sq(256 * r + 128) == 65536 * Sq(r) + 65536 * r + 16384
    ensures Sq(256 * r + 256) == 65536 * Sq(r) + 131072 * r + 65536
    ensures Sq(256 * r + 384) == 65536 * Sq(r) + 196608 * r + 147456
  {
    SqSum(256 * r, 128);
    SqSum(256 * r, 256);
    SqSum(256 * r, 384);
    SqTimes(r);
  }

  lemma SqTimes(r: int)
    ensures Sq(256 * r) == 65536 * Sq(r)
  {
  }

  lemma SqSum(a: int, b: int)
    ensures Sq(a + b) == Sq(a) + 2 * (a * b) + Sq(b)
  {
  }

  lemma StartPlain(x: nat, r: nat, num: nat)
    requires num == x - Sq(r) && Sq(r) <= x < Sq(r) + 2 * r + 1
    ensures Digits(65536 * x, 256 * r, 128, num * 65536, r * 65536)
  {
    hide Sq;
    SqScaled(r);
    assert 256 * r + 2 * 128 == 256 * r + 256;
  }

  lemma StartCarried(x: nat, r: nat, num: nat)
    requires num == x - Sq(r) && Sq(r) <= x < Sq(r) + 2 * r + 1 && num > 65535 && r < 0x1_0000
    ensures Digits(65536 * x - 16384, 256 * r + 128, 128, (num - r) * 65536 - 0x8000, r * 65536 + 0x8000)
  {
    hide Sq;
    SqScaled(r);
    assert 256 * r + 128 + 2 * 128 == 256 * r + 384;
  }

  /** Start of the first phase. */
  lemma FirstPhase(x: nat, k: int)
    requires k >= -1 && (if k < 0 then x == 0 else x < 4 * Bit(k))
    ensures Rooting(x, 0, k, x, 0)
  {
    if k >= 0 {
      var p := Pow2(k);
      assert Sq(0 + 2 * p) == 4 * Sq(p);
      assert 0 * p == 0;
    }
  }

  lemma PhaseBits()
    ensures Bit(15) == 0x4000_0000 && Bit(9) == 0x4_0000 && Bit(7) == 0x4000 && Pow2(7) == 128
  {
    assert Pow2(7) == 128 && Pow2(9) == 512;
    assert Pow2(15) == 32768 by { Pow2Add(9, 6); assert Pow2(6) == 64; }
  }

  lemma Quarter(x: nat, k: nat)
    requires Bit(k) > x && x < 4 * Bit(k)
    ensures if k == 0 then x == 0 else x < 4 * Bit(k - 1)
  {
    BitShift(k);
    if k == 0 {
      assert Sq(1) == 1;
    } else {
      assert Sq(Pow2(k)) == 4 * Sq(Pow2(k - 1));
    }
  }

  /** fix16_sqrt: the nearest root of Target, with the sign of the argument. */
  method FixSqrt(inValue: Fix) returns (root: Fix)
    ensures if inValue < 0 then root <= 0 else root >= 0
    ensures NearestRoot(Target(Abs(inValue)), Abs(root))
  {
    hide Bit, Sq, Digits, Rooting, Carries, ISqrt, NearestRoot, FloorRoot, And, Target;
    var neg := inValue < 0;
    var num: Word := if neg then 0 - inValue else inValue;
    ghost var x, k := num, if num >= 0x10_0000 then 15 else 9;
    var result: Word := 0;
    var bit: Word;
    PhaseBits();
    AndTop12(num);
    if And(num, 0xFFF0_0000) != 0 {
      bit := 0x4000_0000;
    } else {
      bit := 0x4_0000;
    }
    while bit > num
      invariant -1 <= k <= 15 && bit == Bit(k) && (if k < 0 then x == 0 else x < 4 * Bit(k)) && num == x
      invariant bit <= 0x4000_0000
      decreases k
    {
      BitShift(k);
      Quarter(x, k);
      bit := bit / 4;
      k := k - 1;
    }
    FirstPhase(x, k);
    num, result := DigitLoop(num, result, bit, x, 0, k);
    ghost var rho := result;
    SecondPhase(x, rho, num);
    ghost var rho2 := if num > 65535 then 256 * rho + 128 else 256 * rho;
    if num > 65535 {
      num := num - result;
      num := num * 65536 - 0x8000;
      result := result * 65536 + 0x8000;
    } else {
      num := num * 65536;
      result := result * 65536;
    }
    bit := 0x4000;
    RootingFrom(Target(x), rho2, num, result);
    num, result := DigitLoop(num, result, bit, Target(x), rho2, 7);
    RootSmall(x, result);
    RoundRoot(Target(x), result, num);
    if num > result {
      result := result + 1;
    }
    root := if neg then 0 - result else result;
  }

  lemma RootingFrom(X: int, rho: int, num: int, result: int)
    requires Digits(X, rho, 128, num, result)
    ensures Rooting(X, rho, 7, num, result)
  {
    PhaseBits();
  }

  lemma RootSmall(x: nat, r: nat)
    requires FloorRoot(Target(x), r) && x <= 0x8000_0000
    ensures r < 0x100_0000
  {
    if r >= 0x100_0000 {
      SqMonotone(0x100_0000, r);
    }
  }

  /** Comparing the remainder with the root rounds to nearest. */
  lemma RoundRoot(X: nat, r: nat, num: int)
    requires FloorRoot(X, r) && num == X - Sq(r)
    ensures NearestRoot(X, if num > r then r + 1 else r)
  {
    assert Sq(r + 1) == Sq(r) + 2 * r + 1;
  }

  // --------------------------------------------------------------------------
  // How good it is
  // --------------------------------------------------------------------------

  /** For raw arguments below 2^30 the target is exact, so the result is the nearest root. */
  lemma ExactBelow(x: nat)
    requires x < 0x4000_0000
    ensures Target(x) == 65536 * x
  {
    var r := ISqrt(x);
    assert Sq(r + 1) == Sq(r) + 2 * r + 1;
    if r >= 32768 {
      SqMonotone(32768, r);
    }
  }

  /** Half a step above the root u of 65536x, u * u + u, lies among the 16384 values the target is too small by. */
  predicate CrossesHalf(x: nat) {
    var u := ISqrt(65536 * x);
    65536 * x - 16384 <= Sq(u) + u < 65536 * x
  }

  /** For every argument the root is the nearest one, or one below it: the latter exactly when the first phase carries
      and half a step is lost. */
  lemma WithinOne(x: nat, s: nat)
    requires NearestRoot(Target(x), s) && x <= 0x8000_0000
    ensures NearestRoot(65536 * x, s + if Carries(x) && CrossesHalf(x) then 1 else 0)
    ensures NearestRoot(65536 * x, s) <==> !(Carries(x) && CrossesHalf(x))
    ensures var (t, u) := (ISqrt(x), ISqrt(65536 * x));
      Carries(x) && CrossesHalf(x) <==> x - t * t > 65535 && 65536 * x - 16384 <= u * u + u < 65536 * x
  {
    if Carries(x) {
      LostHalf(x, s);
    }
  }

  lemma LostHalf(x: nat, s: nat)
    requires Carries(x) && NearestRoot(65536 * x - 16384, s)
    ensures NearestRoot(65536 * x, s + if CrossesHalf(x) then 1 else 0)
    ensures NearestRoot(65536 * x, s) <==> !CrossesHalf(x)
  {
    hide Carries, ISqrt, Sq;
    SmallRoot(x);
    BigRoot(65536 * x - 16384, s);
    NextSq(s);
    var u := ISqrt(65536 * x);
    if s < u {
      Steps(s, u);
    } else if u < s {
      Steps(u, s);
      SqMonotone(u + 1, s);
    }
  }

  lemma NextSq(s: int)
    ensures Sq(s + 1) == Sq(s) + 2 * s + 1
  {
  }

  lemma BigRoot(X: nat, s: nat)
    requires X <= Sq(s) + s && X >= 0x1000_0000 + 16384
    ensures s >= 16384
  {
    if s < 16384 {
      SqMonotone(s, 16384);
    }
  }

  lemma SmallRoot(x: nat)
    requires Carries(x)
    ensures x > 65535
  {
    assert Sq(ISqrt(x)) >= 0;
  }

  /** An argument for which the result is not the nearest root: raw 1090650238 gives 8454398 instead of 8454399. */
  lemma RoundsLow()
    ensures Carries(1090650238)
    ensures NearestRoot(Target(1090650238), 8454398)
    ensures !NearestRoot(65536 * 1090650238, 8454398) && NearestRoot(65536 * 1090650238, 8454399)
  {
    var x := 1090650238;
    assert FloorRoot(x, 33024) by {
      assert Sq(33024) == 1090584576 && Sq(33025) == 1090650625;
    }
    FloorRootUnique(x, 33024, ISqrt(x));
    assert Sq(8454398) == 71476845542404 && Sq(8454399) == 71476862451201;
  }
}
