/** Signed 64-bit division on top of the unsigned routine, by sign masks in two's complement. */
module SignedDivision {
  import opened Words
  import Division

  const MIN: DInt := -0x8000_0000_0000_0000

  type DInt = x: int | -0x8000_0000_0000_0000 <= x < 0x8000_0000_0000_0000

  function ToUnsigned(x: int): DWord {
    x % 0x1_0000_0000_0000_0000
  }

  function ToSigned(u: DWord): (x: DInt)
    ensures ToUnsigned(x) == u
  {
    if u < 0x8000_0000_0000_0000 then u else u - 0x1_0000_0000_0000_0000
  }

  /** The arithmetic shift `x >> 63`: all ones for a negative x, else zero. */
  function SignMask(x: DInt): DWord {
    ToUnsigned(x / 0x8000_0000_0000_0000)
  }

  lemma SignMaskValue(x: DInt)
    ensures SignMask(x) == if x < 0 then 0xFFFF_FFFF_FFFF_FFFF else 0
  {
  }

  /** `(u ^ s) - s` in 64 bits, a negation when the mask s is all ones. */
  function Apply(u: nat, s: nat): DWord {
    ToUnsigned(Xor(u, s) - s)
  }

  lemma ApplyMeaning(u: DWord)
    ensures Apply(u, 0) == u
    ensures Apply(u, 0xFFFF_FFFF_FFFF_FFFF) == ToUnsigned(0 - u)
  {
    Pow2Values();
    XorZero(u);
    XorOnes(u, 64);
  }

  lemma ApplyOwnSign(a: DInt)
    ensures Apply(ToUnsigned(a), SignMask(a)) == Abs(a)
  {
    hide Apply, SignMask;
    SignMaskValue(a);
    ApplyMeaning(ToUnsigned(a));
  }

  /** The signed quotient. The call of the unsigned routine is DivMod, which is what Division.UDivModDi4 is
      proved to return. */
  function DivDi3(a: DInt, b: DInt): DInt
    requires b != 0
  {
    var sa, sb := SignMask(a), SignMask(b);
    ApplyOwnSign(b);
    ToSigned(Apply(DivMod(Apply(ToUnsigned(a), sa), Apply(ToUnsigned(b), sb)).0, Xor(sa, sb)))
  }

  function ModDi3(a: DInt, b: DInt): DInt
    requires b != 0
  {
    var sa, sb := SignMask(a), SignMask(b);
    ApplyOwnSign(b);
    ToSigned(Apply(DivMod(Apply(ToUnsigned(a), sa), Apply(ToUnsigned(b), sb)).1, sa))
  }

  /** A signed result reduced to 64 bits. */
  function Wrap(x: int): DInt {
    ToSigned(ToUnsigned(x))
  }

  /** Quotient and remainder together; the remainder is recomputed from the quotient, with wrap-around. */
  function DivModDi4(a: DInt, b: DInt): (DInt, DInt)
    requires b != 0
  {
    var d := DivDi3(a, b);
    (d, Wrap(a - Wrap(d * b)))
  }

  /** Division truncating toward zero, as section 6.5.5 of C11 defines `/` and `%`. */
  ghost predicate Truncated(a: int, b: int, q: int, r: int) {
    && a == q * b + r
    && Abs(r) < Abs(b)
    && (r != 0 ==> (r < 0 <==> a < 0))
  }

  lemma TruncatedIsUnique(a: int, b: int, q: int, r: int, q': int, r': int)
    requires Truncated(a, b, q, r) && Truncated(a, b, q', r')
    ensures q == q' && r == r'
  {
    assert (q - q') * b == r' - r;
    if q != q' {
      AbsGrows(q - q', b);
    }
  }

  lemma AbsGrows(x: int, b: int)
    requires x != 0
    ensures Abs(x * b) >= Abs(b)
  {
    if x > 0 && b >= 0 { assert (x - 1) * b >= 0; }
    if x > 0 && b < 0 { assert (x - 1) * -b >= 0; }
    if x < 0 && b >= 0 { assert (-x - 1) * b >= 0; }
    if x < 0 && b < 0 { assert (-x - 1) * -b >= 0; }
  }

  lemma MasksCombine(a: DInt, b: DInt)
    ensures Xor(SignMask(a), SignMask(b)) == if (a < 0) == (b < 0) then 0 else 0xFFFF_FFFF_FFFF_FFFF
  {
    Pow2Values();
    SignMaskValue(a);
    SignMaskValue(b);
    XorZero(SignMask(a));
    XorZero(SignMask(b));
    XorOnes(SignMask(a), 64);
  }

  function WithSign(negative: bool, m: nat): int {
    if negative then 0 - m else m
  }

  lemma SignFlat(a: int, b: int, q: nat, r: nat)
    requires Abs(a) == q * Abs(b) + r
    ensures a == WithSign((a < 0) != (b < 0), q) * b + WithSign(a < 0, r)
  {
    assert q * (0 - b) == 0 - q * b && (0 - q) * b == 0 - q * b;
  }

  lemma SignedResult(m: nat, negative: bool)
    requires m <= 0x8000_0000_0000_0000
    ensures ToSigned(Apply(m, if negative then 0xFFFF_FFFF_FFFF_FFFF else 0))
         == if m == 0x8000_0000_0000_0000 then MIN else WithSign(negative, m)
  {
    ApplyMeaning(m);
    if negative {
      WrapNegative(m);
    }
  }

  lemma WrapNegative(m: nat)
    requires m <= 0x8000_0000_0000_0000
    ensures ToUnsigned(0 - m) == if m == 0 then 0 else 0x1_0000_0000_0000_0000 - m
  {
  }

  /** What the mask arithmetic computes, for every pair of operands. */
  lemma DivDi3Value(a: DInt, b: DInt)
    requires b != 0
    ensures DivDi3(a, b) == if a == MIN && b == -1 then MIN
                            else WithSign((a < 0) != (b < 0), DivMod(Abs(a), Abs(b)).0)
  {
    ApplyOwnSign(a);
    ApplyOwnSign(b);
    MasksCombine(a, b);
    var (q, r) := DivMod(Abs(a), Abs(b));
    QuotientBounds(Abs(a), Abs(b), q, r);
    SignedResult(q, (a < 0) != (b < 0));
  }

  lemma ModDi3Value(a: DInt, b: DInt)
    requires b != 0
    ensures ModDi3(a, b) == WithSign(a < 0, DivMod(Abs(a), Abs(b)).1)
  {
    ApplyOwnSign(a);
    ApplyOwnSign(b);
    SignMaskValue(a);
    SignedResult(DivMod(Abs(a), Abs(b)).1, a < 0);
  }

  lemma DivModDi4Value(a: DInt, b: DInt, product: int, r: DInt)
    requires b != 0 && product == DivDi3(a, b) * b && a == product + r
    ensures DivModDi4(a, b) == (DivDi3(a, b), r)
  {
    hide DivDi3, ToSigned, ToUnsigned;
    RemainderRecovered(a, product, r);
  }

  lemma TruncatedValues(a: DInt, b: DInt)
    requires b != 0 && !(a == MIN && b == -1)
    ensures Truncated(a, b, DivDi3(a, b), ModDi3(a, b))
    ensures DivModDi4(a, b) == (DivDi3(a, b), ModDi3(a, b))
  {
    DivDi3Value(a, b);
    ModDi3Value(a, b);
    var (q, r) := DivMod(Abs(a), Abs(b));
    SignFlat(a, b, q, r);
    DivModDi4Value(a, b, DivDi3(a, b) * b, ModDi3(a, b));
  }

  lemma RemainderRecovered(a: DInt, product: int, r: DInt)
    requires a == product + r
    ensures Wrap(a - Wrap(product)) == r
  {
    var k := (product + 0x8000_0000_0000_0000) / 0x1_0000_0000_0000_0000;
    assert Wrap(product) == product - k * 0x1_0000_0000_0000_0000;
  }

  lemma OverflowValue(a: DInt, b: DInt)
    requires a == MIN && b == -1
    ensures DivModDi4(a, b) == (MIN, 0) && ModDi3(a, b) == 0
  {
    DivDi3Value(a, b);
    ModDi3Value(a, b);
    assert Wrap(0x8000_0000_0000_0000) == MIN && Wrap(0) == 0;
  }

  /** Main result: the pair is the truncating division exactly when the quotient is representable.
      INT64_MIN / -1 is the one overflow, and there the wrapped quotient is INT64_MIN. */
  lemma DivModTruncates(a: DInt, b: DInt)
    requires b != 0
    ensures Truncated(a, b, DivModDi4(a, b).0, DivModDi4(a, b).1) <==> !(a == MIN && b == -1)
  {
    if a == MIN && b == -1 {
      OverflowValue(a, b);
    } else {
      TruncatedValues(a, b);
    }
  }

  /** The two remainder routines agree on all operands, the overflowing pair included. */
  lemma RemaindersAgree(a: DInt, b: DInt)
    requires b != 0
    ensures ModDi3(a, b) == DivModDi4(a, b).1
  {
    if a == MIN && b == -1 {
      OverflowValue(a, b);
    } else {
      TruncatedValues(a, b);
    }
  }
}
