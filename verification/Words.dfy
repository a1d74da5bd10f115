/** Unsigned machine words as bounded naturals: shifts, bitwise operators and bit counts,
    with the lemmas that relate them to ordinary arithmetic. */
module Words {

  // Word sizes are written as literals, which keeps division by them linear for the verifier.
  type Word = x: nat | x < 0x1_0000_0000
  type DWord = x: nat | x < 0x1_0000_0000_0000_0000

  function Pow2(k: nat): (p: nat)
    ensures p > 0
  {
    if k == 0 then 1 else 2 * Pow2(k - 1)
  }

  function Abs(x: int): nat {
    if x < 0 then -x else x
  }

  function Min(a: int, b: int): int {
    if a <= b then a else b
  }

  function Max(a: int, b: int): int {
    if a >= b then a else b
  }

  // Bitwise operators, defined bit by bit.

  function And(x: nat, y: nat): nat {
    if x == 0 || y == 0 then 0 else (if x % 2 == 1 && y % 2 == 1 then 1 else 0) + 2 * And(x / 2, y / 2)
  }

  function Or(x: nat, y: nat): nat {
    if x == 0 then y else (if x % 2 == 1 || y % 2 == 1 then 1 else 0) + 2 * Or(x / 2, y / 2)
  }

  function Xor(x: nat, y: nat): nat
    decreases x + y
  {
    if x == 0 && y == 0 then 0 else (if x % 2 != y % 2 then 1 else 0) + 2 * Xor(x / 2, y / 2)
  }

  /** Left shift that drops the bits leaving a 32-bit word. */
  function Shl32(x: Word, k: nat): Word {
    x * Pow2(k) % 0x1_0000_0000
  }

  /** Right shift: drops the low k bits. */
  function Shr(x: nat, k: nat): nat {
    if k == 0 then x else Shr(x / 2, k - 1)
  }

  /** The k bits that a right shift drops. */
  function LowBits(x: nat, k: nat): (r: nat)
    ensures r < Pow2(k)
  {
    if k == 0 then 0 else x % 2 + 2 * LowBits(x / 2, k - 1)
  }

  // Products, one nonlinear fact each.

  lemma ProductSign(x: nat, y: nat)
    ensures x * y >= 0
  {
  }

  lemma Distribute(x: int, y: int, z: int)
    ensures (x + y) * z == x * z + y * z
  {
  }

  lemma Grows(a: int, b: int, c: nat)
    requires a >= b
    ensures a * c >= b * c
  {
    ProductSign(a - b, c);
    Distribute(a - b, b, c);
  }

  lemma LessFactor(a: int, b: int, c: nat)
    requires a * c < b * c
    ensures a < b
  {
    if a >= b {
      Grows(a, b, c);
    }
  }

  lemma NoShift(x: nat)
    ensures Shr(x, 0) == x && LowBits(x, 0) == 0
  {
  }

  /** A right shift is division by a power of two, and the dropped bits are the remainder. */
  lemma {:induction false} ShiftSplits(x: nat, k: nat)
    ensures x == Shr(x, k) * Pow2(k) + LowBits(x, k)
  {
    if k > 0 {
      ShiftSplits(x / 2, k - 1);
      TimesDouble(Shr(x, k), Pow2(k - 1));
    }
  }

  lemma ShiftUnique(x: nat, k: nat, u: nat, v: nat)
    requires x == u * Pow2(k) + v && v < Pow2(k)
    ensures u == Shr(x, k) && v == LowBits(x, k)
  {
    hide Pow2, Shr, LowBits;
    ShiftSplits(x, k);
    QuotientsAgree(Pow2(k), u, v, Shr(x, k), LowBits(x, k));
  }

  /** The number of leading zero bits of a non-zero 32-bit word. */
  function Clz32(x: Word): (c: nat)
    requires x > 0
    ensures c <= 31
    ensures Pow2(31 - c) <= x < Pow2(32 - c)
    decreases 0x1_0000_0000 - x
  {
    if x >= 0x8000_0000 then
      Pow2Values();
      0
    else
      Clz32(2 * x) + 1
  }

  /** The number of trailing zero bits of a non-zero word. */
  function Ctz(x: nat): (c: nat)
    requires x > 0
    ensures LowBits(x, c) == 0 && Shr(x, c) % 2 == 1
  {
    if x % 2 == 1 then 0 else Ctz(x / 2) + 1
  }

  lemma MulAtLeast(x: int, b: int)
    requires x >= 1 && b > 0
    ensures x * b >= b
  {
    Grows(x, 1, b);
    TimesOne(b);
  }

  /** Quotient and remainder are determined by the equation that defines them. */
  lemma DivModUnique(a: nat, b: nat, q: nat, r: nat)
    requires b > 0 && a == q * b + r && r < b
    ensures q == a / b && r == a % b
  {
    QuotientsAgree(b, q, r, a / b, a % b);
  }

  lemma QuotientsAgree(b: nat, q: nat, r: nat, q': nat, r': nat)
    requires r < b && r' < b && q * b + r == q' * b + r'
    ensures q == q' && r == r'
  {
    if q > q' {
      MulAtLeast(q - q', b);
      Distribute(q - q', q', b);
    } else if q < q' {
      MulAtLeast(q' - q, b);
      Distribute(q' - q, q, b);
    }
  }

  lemma Pow2Values()
    ensures Pow2(16) == 0x1_0000 && Pow2(31) == 0x8000_0000 && Pow2(32) == 0x1_0000_0000
    ensures Pow2(63) == 0x8000_0000_0000_0000 && Pow2(64) == 0x1_0000_0000_0000_0000
  {
    assert Pow2(8) == 0x100;
    Pow2Add(8, 8);
    assert Pow2(15) == 0x8000;
    Pow2Add(16, 15);
    Pow2Add(16, 16);
    Pow2Add(32, 31);
    Pow2Add(32, 32);
  }

  lemma Pow2Small()
    ensures Pow2(0) == 1 && Pow2(1) == 2
  {
  }

  lemma {:induction false} Pow2Add(i: nat, j: nat)
    ensures Pow2(i + j) == Pow2(i) * Pow2(j)
  {
    if i > 0 {
      Pow2Add(i - 1, j);
      DoubleTimes(Pow2(i - 1), Pow2(j));
    }
  }

  lemma {:induction false} Pow2Monotone(i: nat, j: nat)
    requires i <= j
    ensures Pow2(i) <= Pow2(j)
  {
    if i < j {
      Pow2Monotone(i, j - 1);
    }
  }

  lemma AndOdd(x: nat, m: nat)
    ensures And(x, 2 * m + 1) == x % 2 + 2 * And(x / 2, m)
  {
  }

  /** Masking with 2^k - 1 keeps the low k bits. */
  lemma {:induction false} AndMask(x: nat, k: nat)
    ensures And(x, Pow2(k) - 1) == LowBits(x, k)
  {
    if k > 0 {
      AndMask(x / 2, k - 1);
      AndOdd(x, Pow2(k - 1) - 1);
    }
  }

  /** Words that share no bit position are joined by `|` exactly as by `+`. */
  lemma {:induction false} OrDisjoint(hi: nat, lo: nat, k: nat)
    requires lo < Pow2(k)
    ensures Or(hi * Pow2(k), lo) == hi * Pow2(k) + lo
  {
    if k > 0 {
      var p := Pow2(k - 1);
      TimesDouble(hi, p);
      OrDisjoint(hi, lo / 2, k - 1);
    } else if hi > 0 {
      OrZero(hi);
    }
  }

  lemma OrBit(x: nat, bit: nat)
    requires bit <= 1
    ensures Or(2 * x, bit) == 2 * x + bit
  {
    OrZero(x);
    assert 2 * x / 2 == x && 2 * x % 2 == 0;
  }

  lemma {:induction false} OrZero(x: nat)
    ensures Or(x, 0) == x
  {
    if x > 0 {
      OrZero(x / 2);
    }
  }

  lemma AndSmall()
    ensures And(1, 0) == 0 && And(2, 1) == 0 && forall x: nat :: And(x, 0) == 0
  {
  }

  /** `d & (d - 1)` vanishes exactly for powers of two, whose exponent is the number of trailing zeros. */
  lemma {:induction false} AndPredecessor(d: nat)
    requires d > 0
    ensures And(d, d - 1) == 0 <==> d == Pow2(Ctz(d))
  {
    if d % 2 == 1 {
      var h := d / 2;
      assert (d - 1) / 2 == h && (d - 1) % 2 == 0;
      if h > 0 {
        AndSelf(h);
      }
    } else {
      AndPredecessor(d / 2);
      assert (d - 1) / 2 == d / 2 - 1 && (d - 1) % 2 == 1;
    }
  }

  lemma {:induction false} AndSelf(x: nat)
    ensures And(x, x) == x
  {
    if x > 0 {
      AndSelf(x / 2);
    }
  }

  /** Flipping all k bits of a k-bit word. */
  lemma {:induction false} XorOnes(x: nat, k: nat)
    requires x < Pow2(k)
    ensures Xor(x, Pow2(k) - 1) == Pow2(k) - 1 - x
  {
    if k > 0 {
      var p := Pow2(k - 1);
      XorOnes(x / 2, k - 1);
      assert (2 * p - 1) / 2 == p - 1 && (2 * p - 1) % 2 == 1;
    }
  }

  lemma {:induction false} XorZero(x: nat)
    ensures Xor(x, 0) == x && Xor(0, x) == x
  {
    if x > 0 {
      XorZero(x / 2);
    }
  }

  /** A mask of high bits looks at the shifted word only. */
  lemma {:induction false} AndShifted(x: nat, m: nat, k: nat)
    ensures And(x, m * Pow2(k)) == And(Shr(x, k), m) * Pow2(k)
    decreases k
  {
    hide And;
    if k == 0 {
      TimesOne(m);
      TimesOne(And(x, m));
    } else {
      var p := Pow2(k - 1);
      TimesDouble(m, p);
      AndEven(x, m * p);
      AndShifted(x / 2, m, k - 1);
      TimesDouble(And(Shr(x, k), m), p);
    }
  }

  lemma TimesOne(m: int)
    ensures m * 1 == m && 1 * m == m
  {
  }

  lemma DoubleTimes(m: int, p: int)
    ensures 2 * m * p == 2 * (m * p)
  {
  }

  lemma TimesDouble(m: int, p: int)
    ensures m * (2 * p) == 2 * (m * p)
  {
  }

  lemma AndEven(x: nat, m: nat)
    ensures And(x, 2 * m) == 2 * And(x / 2, m)
  {
  }

  lemma SmallWord(x: nat, k: nat)
    requires x < Pow2(k)
    ensures LowBits(x, k) == x
  {
    ShiftUnique(x, k, 0, x);
  }

  /** The test for a word of at least 2^20. */
  lemma AndTop12(x: Word)
    ensures And(x, 0xFFF0_0000) != 0 <==> x >= 0x10_0000
  {
    hide And;
    Pow2Values();
    assert Pow2(20) == 0x10_0000 by { Pow2Add(16, 4); assert Pow2(4) == 16; }
    assert Pow2(12) == 4096;
    var y := Shr(x, 20);
    ShiftSplits(x, 20);
    AndShifted(x, 0xFFF, 20);
    AndMask(y, 12);
    SmallWord(y, 12);
  }

  /** The low four bits are the remainder by 16. */
  lemma AndLow4(x: nat)
    ensures And(x, 0xF) == x % 16
  {
    hide And;
    assert Pow2(4) == 16;
    AndMask(x, 4);
    ShiftSplits(x, 4);
    RemainderBy16(x, Shr(x, 4), LowBits(x, 4));
  }

  lemma RemainderBy16(x: nat, q: nat, r: nat)
    requires x == q * 16 + r && r < 16
    ensures x % 16 == r
  {
  }

  lemma QuotientBounds(m: nat, n: nat, q: nat, r: nat)
    requires n > 0 && m == q * n + r && r < n
    ensures q <= m && r <= m
    ensures n >= 2 ==> 2 * q <= m
    ensures n == 1 ==> q == m
  {
    assert q * (n - 1) >= 0;
    if n >= 2 {
      assert q * (n - 2) >= 0;
    }
  }

  /** Quotient and remainder. */
  function DivMod(a: nat, b: nat): (qr: (nat, nat))
    requires b > 0
    ensures a == qr.0 * b + qr.1 && qr.1 < b
    ensures qr.0 <= a && qr.1 <= a
  {
    QuotientBounds(a, b, a / b, a % b);
    (a / b, a % b)
  }

  lemma DivModIs(a: nat, b: nat, q: nat, r: nat)
    requires b > 0 && a == q * b + r && r < b
    ensures DivMod(a, b) == (q, r)
  {
    DivModUnique(a, b, q, r);
  }
}
