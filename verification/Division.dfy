/** 64-bit division built from 32-bit words: the unsigned shift-and-subtract routine
    and the signed wrappers around it. */
module Division {
  import opened Words

  /** A 64-bit value seen as two 32-bit halves. */
  datatype UDWords = UDWords(high: Word, low: Word) {
    function All(): DWord {
      high * 0x1_0000_0000 + low
    }
  }

  function Halves(a: DWord): (n: UDWords)
    ensures n.All() == a
  {
    UDWords(a / 0x1_0000_0000, a % 0x1_0000_0000)
  }

  // --------------------------------------------------------------------------
  // Splitting a numerator across the quotient and remainder registers
  // --------------------------------------------------------------------------

  /** `q:r` hold the numerator shifted right by `sr`: the low `sr` bits sit at the top of q. */
  ghost predicate Loaded(a: DWord, sr: nat, q: UDWords, r: UDWords) {
    && 1 <= sr <= 63
    && r.All() == Shr(a, sr)
    && q.All() == LowBits(a, sr) * Pow2(64 - sr)
  }

  /** `x << (32 - k)` in a 32-bit word keeps the low k bits of x, moved to the top. */
  lemma ShiftUp(x: Word, k: nat)
    requires k <= 32
    ensures Shl32(x, 32 - k) == LowBits(x, k) * Pow2(32 - k)
  {
    hide Shr, LowBits, Pow2;
    Pow2Values();
    Pow2Add(k, 32 - k);
    ShiftSplits(x, k);
    ShiftUpFlat(x, Shr(x, k), Pow2(k), LowBits(x, k), Pow2(32 - k));
  }

  lemma ShiftUpFlat(x: nat, u: nat, p: nat, v: nat, t: nat)
    requires x == u * p + v && v < p && p * t == 0x1_0000_0000
    ensures x * t % 0x1_0000_0000 == v * t
  {
    assert x * t == u * 0x1_0000_0000 + v * t by { MulSplit(x, u, p, v, t); }
    MulLess(v, p, t);
  }

  lemma MulSplit(x: nat, u: nat, p: nat, v: nat, t: nat)
    requires x == u * p + v
    ensures x * t == u * (p * t) + v * t
  {
    assert u * p * t == u * (p * t);
  }

  lemma MulLess(v: nat, p: nat, t: nat)
    requires v < p
    ensures v * t + t <= p * t
  {
    Grows(p, v + 1, t);
    Distribute(v, 1, t);
    TimesOne(t);
  }

  /** The word `(h << (32 - k)) | (l >> k)`, the middle of a right shift across two words. */
  function Funnel(h: Word, l: Word, k: nat): nat
    requires k <= 32
  {
    Or(Shl32(h, 32 - k), Shr(l, k))
  }

  lemma FunnelValue(h: Word, l: Word, k: nat)
    requires k <= 32
    ensures Funnel(h, l, k) == LowBits(h, k) * Pow2(32 - k) + Shr(l, k)
    ensures Funnel(h, l, k) < 0x1_0000_0000
  {
    hide Or, Shl32, Shr, LowBits, Pow2;
    Pow2Values();
    Pow2Add(k, 32 - k);
    ShiftUp(h, k);
    ShiftSplits(l, k);
    QuotientBelow(l, Shr(l, k), Pow2(k), Pow2(32 - k));
    OrDisjoint(LowBits(h, k), Shr(l, k), 32 - k);
    MulLess(LowBits(h, k), Pow2(k), Pow2(32 - k));
  }

  lemma QuotientBelow(l: nat, u: nat, p: nat, t: nat)
    requires u * p <= l < p * t
    ensures u < t
  {
    if t <= u {
      MulMonotone(p, t, u);
    }
  }

  lemma MulMonotone(p: nat, t: nat, u: nat)
    requires t <= u
    ensures p * t <= u * p
  {
    Grows(u, t, p);
  }

  /** Loading with a shift of at most one word. */
  lemma LoadShort(n: UDWords, sr: nat, q: UDWords, r: UDWords)
    requires 1 <= sr <= 32
    requires q.low == 0 && q.high == Shl32(n.low, 32 - sr)
    requires r.high == Shr(n.high, sr) && r.low == Funnel(n.high, n.low, sr)
    ensures Loaded(n.All(), sr, q, r)
  {
    hide Shl32, Funnel, Shr, LowBits, Pow2;
    LoadShortRemainder(n.high, n.low, sr);
    LoadShortQuotient(n.low, sr);
  }

  lemma LoadShortRemainder(high: Word, low: Word, sr: nat)
    requires 1 <= sr <= 32
    ensures Shr(high * 0x1_0000_0000 + low, sr) == Shr(high, sr) * 0x1_0000_0000 + Funnel(high, low, sr)
    ensures LowBits(high * 0x1_0000_0000 + low, sr) == LowBits(low, sr)
  {
    hide Funnel, Shr, LowBits, Pow2;
    Pow2Values();
    Pow2Add(sr, 32 - sr);
    FunnelValue(high, low, sr);
    ShiftSplits(high, sr);
    ShiftSplits(low, sr);
    LoadShortFlat(high, low, Pow2(sr), Pow2(32 - sr), Shr(high, sr), LowBits(high, sr), Shr(low, sr), LowBits(low, sr));
    ShiftUnique(high * 0x1_0000_0000 + low, sr,
                Shr(high, sr) * 0x1_0000_0000 + (LowBits(high, sr) * Pow2(32 - sr) + Shr(low, sr)), LowBits(low, sr));
  }

  lemma LoadShortQuotient(low: Word, sr: nat)
    requires 1 <= sr <= 32
    ensures Shl32(low, 32 - sr) * 0x1_0000_0000 == LowBits(low, sr) * Pow2(64 - sr)
  {
    hide Shl32, LowBits, Pow2;
    Pow2Values();
    ShiftUp(low, sr);
    Pow2Add(32, 32 - sr);
    MulThree(LowBits(low, sr), Pow2(32 - sr), 0x1_0000_0000);
  }

  lemma MulThree(x: nat, y: nat, z: nat)
    ensures x * y * z == x * (z * y)
  {
  }

  lemma MulRegroup(x: nat, y: nat, z: nat)
    ensures x * y * z == y * (x * z)
  {
  }

  lemma LoadShortFlat(h: nat, l: nat, p: nat, t: nat, hq: nat, hr: nat, lq: nat, lr: nat)
    requires p * t == 0x1_0000_0000
    requires h == hq * p + hr && l == lq * p + lr
    ensures h * 0x1_0000_0000 + l == (hq * 0x1_0000_0000 + (hr * t + lq)) * p + lr
  {
    assert hr * t * p == hr * 0x1_0000_0000 by { assert hr * t * p == hr * (p * t); }
  }

  /** Loading with a shift of more than one word. */
  lemma LoadLong(n: UDWords, sr: nat, q: UDWords, r: UDWords)
    requires 32 < sr <= 63
    requires q.low == Shl32(n.low, 64 - sr) && q.high == Funnel(n.high, n.low, sr - 32)
    requires r.high == 0 && r.low == Shr(n.high, sr - 32)
    ensures Loaded(n.All(), sr, q, r)
  {
    hide Shl32, Funnel, Shr, LowBits, Pow2;
    LoadLongRemainder(n.high, n.low, sr - 32);
    LoadLongQuotient(n.high, n.low, sr - 32);
  }

  lemma LoadLongRemainder(high: Word, low: Word, k: nat)
    requires 1 <= k <= 31
    ensures Shr(high * 0x1_0000_0000 + low, k + 32) == Shr(high, k)
    ensures LowBits(high * 0x1_0000_0000 + low, k + 32) == LowBits(high, k) * 0x1_0000_0000 + low
  {
    hide Shr, LowBits, Pow2;
    Pow2Values();
    Pow2Add(k, 32);
    ShiftSplits(high, k);
    LoadLongFlat(high, low, Pow2(k), Shr(high, k), LowBits(high, k));
    ShiftUnique(high * 0x1_0000_0000 + low, k + 32, Shr(high, k), LowBits(high, k) * 0x1_0000_0000 + low);
  }

  lemma LoadLongQuotient(high: Word, low: Word, k: nat)
    requires 1 <= k <= 31
    ensures Funnel(high, low, k) * 0x1_0000_0000 + Shl32(low, 32 - k)
         == (LowBits(high, k) * 0x1_0000_0000 + low) * Pow2(32 - k)
  {
    hide Funnel, Shl32, Shr, LowBits, Pow2;
    Pow2Values();
    Pow2Add(k, 32 - k);
    FunnelValue(high, low, k);
    ShiftUp(low, k);
    ShiftSplits(low, k);
    LoadLongQuotientFlat(low, LowBits(high, k), Pow2(k), Pow2(32 - k), Shr(low, k), LowBits(low, k));
  }

  lemma LoadLongFlat(h: nat, l: nat, p: nat, hq: nat, hr: nat)
    requires l < 0x1_0000_0000 && h == hq * p + hr && hr < p
    ensures h * 0x1_0000_0000 + l == hq * (p * 0x1_0000_0000) + (hr * 0x1_0000_0000 + l)
    ensures hr * 0x1_0000_0000 + l < p * 0x1_0000_0000
  {
    assert hq * (p * 0x1_0000_0000) == hq * p * 0x1_0000_0000;
  }

  lemma LoadLongQuotientFlat(l: nat, hr: nat, p: nat, t: nat, lq: nat, lr: nat)
    requires p * t == 0x1_0000_0000 && l == lq * p + lr
    ensures (hr * 0x1_0000_0000 + l) * t == (hr * t + lq) * 0x1_0000_0000 + lr * t
  {
    MulSplit(l, lq, p, lr, t);
    assert hr * 0x1_0000_0000 * t == hr * t * 0x1_0000_0000;
  }

  // --------------------------------------------------------------------------
  // The shift-and-subtract loop
  // --------------------------------------------------------------------------

  /** The mask `(di_int)(d - r - 1) >> 63`: all ones or zero, by the top bit of the wrapped difference. */
  function SubtractMask(d: DWord, r: DWord): DWord {
    if (d - r - 1) % 0x1_0000_0000_0000_0000 >= 0x8000_0000_0000_0000 then 0xFFFF_FFFF_FFFF_FFFF else 0
  }

  /** The sign trick: the mask is all ones exactly when r >= d, unless the two are so far apart that the wrapped
      difference misleads. */
  lemma SubtractMaskMeaning(d: DWord, r: DWord)
    ensures SubtractMask(d, r) == (if r >= d then 0xFFFF_FFFF_FFFF_FFFF else 0) <==>
            d - r <= 0x8000_0000_0000_0000 && r - d < 0x8000_0000_0000_0000
  {
    if r >= d {
      assert (d - r - 1) % 0x1_0000_0000_0000_0000 == 0x1_0000_0000_0000_0000 + (d - r - 1);
    } else {
      assert (d - r - 1) % 0x1_0000_0000_0000_0000 == d - r - 1;
    }
  }

  lemma MaskWhole(d: DWord)
    ensures And(d, 0xFFFF_FFFF_FFFF_FFFF) == d && And(d, 0) == 0
    ensures And(0xFFFF_FFFF_FFFF_FFFF, 1) == 1 && And(0, 1) == 0
  {
    Pow2Values();
    AndMask(d, 64);
    ShiftUnique(d, 64, 0, d);
    assert And(0x7FFF_FFFF_FFFF_FFFF, 0) == 0;
  }

  /** `(h << 1) | bit`, one word of a left shift by one. */
  function ShiftIn(h: Word, bit: nat): nat {
    Or(Shl32(h, 1), bit)
  }

  lemma ShiftInValue(h: Word, bit: nat)
    requires bit <= 1
    ensures ShiftIn(h, bit) == 2 * h - Shr(h, 31) * 0x1_0000_0000 + bit < 0x1_0000_0000
  {
    assert Pow2(1) == 2;
    TopBit(h);
    assert 2 * h % 0x1_0000_0000 == h % 0x8000_0000 * 2;
    OrDisjoint(h % 0x8000_0000, bit, 1);
  }

  lemma TopBit(x: Word)
    ensures Shr(x, 31) == x / 0x8000_0000 <= 1
  {
    Pow2Values();
    ShiftUnique(x, 31, x / 0x8000_0000, x % 0x8000_0000);
  }

  /** One left shift of the double register `r:q`, with `carry` entering at the bottom. */
  lemma ShiftRegisters(r: UDWords, q: UDWords, carry: nat)
    requires carry <= 1 && r.All() < 0x8000_0000_0000_0000
    ensures var r1 := ShiftIn(r.high, Shr(r.low, 31));
            var r0 := ShiftIn(r.low, Shr(q.high, 31));
            var q1 := ShiftIn(q.high, Shr(q.low, 31));
            var q0 := ShiftIn(q.low, carry);
            && r1 < 0x1_0000_0000 && r0 < 0x1_0000_0000 && q1 < 0x1_0000_0000 && q0 < 0x1_0000_0000
            && r1 * 0x1_0000_0000 + r0 == 2 * r.All() + Shr(q.high, 31)
            && q1 * 0x1_0000_0000 + q0 == 2 * q.All() - Shr(q.high, 31) * 0x1_0000_0000_0000_0000 + carry
            && Shr(q.high, 31) == q.All() / 0x8000_0000_0000_0000
  {
    hide ShiftIn, Shr;
    TopBit(r.high);
    TopBit(r.low);
    TopBit(q.high);
    TopBit(q.low);
    ShiftInValue(r.high, Shr(r.low, 31));
    ShiftInValue(r.low, Shr(q.high, 31));
    ShiftInValue(q.high, Shr(q.low, 31));
    ShiftInValue(q.low, carry);
  }

  /** The numerator bits consumed so far are `found` divisors and a remainder below the divisor. */
  ghost predicate Balanced(a: nat, d: nat, k: nat, found: nat, r: nat) {
    Shr(a, k) == found * d + r && r < d
  }

  /** The next numerator bit, the lowest one consumed when k - 1 bits stay behind. */
  function NextBit(a: nat, k: nat): nat
    requires k >= 1
  {
    Shr(a, k - 1) % 2
  }

  lemma {:induction false} ConsumeBit(a: nat, k: nat)
    requires k >= 1
    ensures Shr(a, k - 1) == 2 * Shr(a, k) + NextBit(a, k)
    ensures LowBits(a, k) == NextBit(a, k) * Pow2(k - 1) + LowBits(a, k - 1)
  {
    if k > 1 {
      ConsumeBit(a / 2, k - 1);
      TimesDouble(NextBit(a, k), Pow2(k - 2));
    }
  }

  /** Shifting one bit into the remainder and subtracting d when it fits keeps the balance. */
  lemma RoundKeepsBalance(a: nat, d: nat, k: nat, found: nat, r: nat)
    requires k >= 1 && Balanced(a, d, k, found, r)
    ensures var r' := 2 * r + NextBit(a, k);
      && r' < 2 * d && r' <= a
      && (r' >= d ==> Balanced(a, d, k - 1, 2 * found + 1, r' - d))
      && (r' < d ==> Balanced(a, d, k - 1, 2 * found, r'))
      && (d > 0x8000_0000_0000_0000 && k == 1 && a < 0x1_0000_0000_0000_0000 ==> r' == a)
  {
    hide Shr;
    ConsumeBit(a, k);
    ShrWord(a, k - 1);
    DoubleQuotient(found, d);
    NoShift(a);
  }

  lemma DoubleQuotient(found: nat, d: nat)
    ensures (2 * found) * d == 2 * (found * d)
    ensures (2 * found + 1) * d == 2 * (found * d) + d
    ensures if found == 0 then found * d == 0 else found * d >= d
  {
    if found > 0 {
      assert (found - 1) * d >= 0;
    }
  }

  lemma {:induction false} ShrWord(x: nat, k: nat)
    ensures Shr(x, k) <= x
  {
    if k > 0 {
      ShrWord(x / 2, k - 1);
    }
  }

  /** The quotient register shows the waiting numerator bits above the found quotient bits. */
  ghost predicate Shown(a: nat, k: nat, q: nat, found: nat)
    requires k <= 64
  {
    q == LowBits(a, k) * Pow2(64 - k) + found && 2 * found + 1 < Pow2(64 - k)
  }

  lemma TopBitOfQuotient(a: nat, k: nat, q: nat, found: nat, carry: nat)
    requires 1 <= k <= 63 && Shown(a, k, q, found) && carry <= 1
    ensures q / 0x8000_0000_0000_0000 == NextBit(a, k)
    ensures 2 * q + carry >= NextBit(a, k) * 0x1_0000_0000_0000_0000
    ensures Shown(a, k - 1, 2 * q - NextBit(a, k) * 0x1_0000_0000_0000_0000 + carry, 2 * found + carry)
  {
    hide LowBits, NextBit;
    Pow2Values();
    Pow2Add(k - 1, 64 - k);
    ConsumeBit(a, k);
    TopBitFlat(Pow2(k - 1), Pow2(64 - k), LowBits(a, k), NextBit(a, k), LowBits(a, k - 1), found);
    assert Pow2(64 - (k - 1)) == 2 * Pow2(64 - k);
  }

  lemma TopBitFlat(p: nat, t: nat, pending: nat, bit: nat, rest: nat, found: nat)
    requires p * t == 0x8000_0000_0000_0000 && pending == bit * p + rest && rest < p && found < t
    ensures (pending * t + found) / 0x8000_0000_0000_0000 == bit
    ensures 2 * (pending * t + found) - bit * 0x1_0000_0000_0000_0000 == rest * (2 * t) + 2 * found
  {
    MulSplit(pending, bit, p, rest, t);
    MulLess(rest, p, t);
    ProductSign(rest, t);
    TimesDouble(rest, t);
    TopBitIs(pending * t + found, bit, rest * t + found);
  }

  lemma TopBitIs(x: int, bit: int, y: int)
    requires x == bit * 0x8000_0000_0000_0000 + y && 0 <= y < 0x8000_0000_0000_0000
    ensures x / 0x8000_0000_0000_0000 == bit
  {
  }

  /** The state of the registers with `k` rounds to go; the newest quotient bit is still in `carry`. */
  ghost predicate MidLoop(a: nat, d: nat, k: nat, q: UDWords, r: UDWords, carry: nat, found: nat)
    requires k <= 63
  {
    && carry <= 1
    && Balanced(a, d, k, 2 * found + carry, r.All())
    && Shown(a, k, q.All(), found)
  }

  /** Lines 194-196: the branch-free conditional subtraction. */
  method SubtractIfFits(d: DWord, r: UDWords) returns (carry: nat, r': UDWords)
    requires r.All() < 2 * d
    requires d > 0x8000_0000_0000_0000 ==> r.All() >= 0x8000_0000_0000_0000
    ensures if r.All() >= d then carry == 1 && r'.All() == r.All() - d else carry == 0 && r' == r
  {
    hide SubtractMask, And;
    var s := SubtractMask(d, r.All());
    SubtractMaskMeaning(d, r.All());
    MaskWhole(d);
    carry := And(s, 1);
    r' := Halves(r.All() - And(d, s));
  }

  /** `bit` is the top bit of the 64-bit value x. */
  predicate LeavingBit(x: nat, bit: nat) {
    bit <= 1 && bit * 0x8000_0000_0000_0000 <= x < (bit + 1) * 0x8000_0000_0000_0000
  }

  /** The same round on the register values, `bit` being the one that leaves the quotient register. */
  method RoundOnWords(d: DWord, q: UDWords, r: UDWords, carry: nat, ghost bit: nat)
    returns (q': UDWords, r': UDWords, carry': nat)
    requires carry <= 1 && r.All() < 0x8000_0000_0000_0000 && LeavingBit(q.All(), bit)
    requires 2 * r.All() + bit < 2 * d
    requires d > 0x8000_0000_0000_0000 ==> 2 * r.All() + bit >= 0x8000_0000_0000_0000
    ensures q'.All() == 2 * q.All() - bit * 0x1_0000_0000_0000_0000 + carry
    ensures if 2 * r.All() + bit >= d then carry' == 1 && r'.All() == 2 * r.All() + bit - d
            else carry' == 0 && r'.All() == 2 * r.All() + bit
  {
    hide ShiftIn, Shr;
    ShiftRegisters(r, q, carry);
    TopBitIs(q.All(), bit, q.All() - bit * 0x8000_0000_0000_0000);
    r' := UDWords(ShiftIn(r.high, Shr(r.low, 31)), ShiftIn(r.low, Shr(q.high, 31)));
    q' := UDWords(ShiftIn(q.high, Shr(q.low, 31)), ShiftIn(q.low, carry));
    carry', r' := SubtractIfFits(d, r');
  }

  /** One round of the loop (lines 183-196). */
  method Round(ghost a: DWord, d: DWord, k: nat, q: UDWords, r: UDWords, carry: nat, ghost found: nat)
    returns (q': UDWords, r': UDWords, carry': nat)
    requires 1 <= k <= 63 && MidLoop(a, d, k, q, r, carry, found)
    requires d > 0x8000_0000_0000_0000 ==> k == 1 && a >= 0x8000_0000_0000_0000
    ensures MidLoop(a, d, k - 1, q', r', carry', 2 * found + carry)
  {
    hide Balanced, Shown, LeavingBit, UDWords.All;
    ghost var bit := RoundReady(a, d, k, q.All(), r.All(), carry, found);
    q', r', carry' := RoundOnWords(d, q, r, carry, bit);
  }

  /** What is known before a round: the bit that leaves the quotient register and the registers of either outcome. */
  lemma RoundReady(a: DWord, d: DWord, k: nat, q: DWord, r: nat, carry: nat, found: nat) returns (bit: nat)
    requires 1 <= k <= 63 && carry <= 1 && Balanced(a, d, k, 2 * found + carry, r) && Shown(a, k, q, found)
    requires d > 0x8000_0000_0000_0000 ==> k == 1 && a >= 0x8000_0000_0000_0000
    ensures LeavingBit(q, bit) && r < 0x8000_0000_0000_0000
    ensures 2 * r + bit < 2 * d && (d > 0x8000_0000_0000_0000 ==> 2 * r + bit >= 0x8000_0000_0000_0000)
    ensures 2 * q - bit * 0x1_0000_0000_0000_0000 + carry >= 0
    ensures Shown(a, k - 1, 2 * q - bit * 0x1_0000_0000_0000_0000 + carry, 2 * found + carry)
    ensures 2 * r + bit >= d ==> Balanced(a, d, k - 1, 2 * (2 * found + carry) + 1, 2 * r + bit - d)
    ensures 2 * r + bit < d ==> Balanced(a, d, k - 1, 2 * (2 * found + carry), 2 * r + bit)
  {
    hide Balanced, Shown;
    bit := NextBit(a, k);
    RoundKeepsBalance(a, d, k, 2 * found + carry, r);
    TopBitOfQuotient(a, k, q, found, carry);
  }

  lemma BalanceStart(a: nat, d: nat, k: nat, r: nat)
    requires Shr(a, k) == r && r < d
    ensures Balanced(a, d, k, 0, r)
  {
  }

  lemma ShownStart(a: nat, k: nat, q: nat)
    requires 1 <= k <= 63 && q == LowBits(a, k) * Pow2(64 - k)
    ensures Shown(a, k, q, 0)
  {
    Pow2Monotone(1, 64 - k);
  }

  lemma BalanceEnd(a: DWord, d: DWord, found: nat, r: nat)
    requires Balanced(a, d, 0, found, r)
    ensures d > 0 && a / d == found && a % d == r && found < 0x1_0000_0000_0000_0000
  {
    DivModUnique(a, d, found, r);
    DoubleQuotient(found, d);
  }

  lemma ShownEnd(a: DWord, q: nat, found: nat, carry: nat)
    requires Shown(a, 0, q, found) && carry <= 1
    ensures Or(2 * q % 0x1_0000_0000_0000_0000, carry) == 2 * found + carry
  {
    Pow2Values();
    assert LowBits(a, 0) == 0;
    assert q == found && 2 * q % 0x1_0000_0000_0000_0000 == 2 * found;
    OrBit(found, carry);
  }

  /** The main loop (lines 180-198), from a loaded register pair to quotient and remainder. */
  method ShiftSubtract(ghost a: DWord, d: DWord, sr0: nat, q0: UDWords, r0: UDWords)
    returns (quotient: DWord, rem: DWord)
    requires Loaded(a, sr0, q0, r0)
    requires r0.All() < d
    requires d > 0x8000_0000_0000_0000 ==> sr0 == 1 && a >= 0x8000_0000_0000_0000
    ensures quotient == a / d && rem == a % d
  {
    hide Balanced, Shown, Shr, LowBits, Pow2, Or, UDWords.All;
    var q, r, sr, carry := q0, r0, sr0, 0;
    ghost var found := 0;
    BalanceStart(a, d, sr0, r.All());
    ShownStart(a, sr0, q.All());
    while sr > 0
      invariant 0 <= sr <= sr0
      invariant MidLoop(a, d, sr, q, r, carry, found)
    {
      ghost var found' := 2 * found + carry;
      q, r, carry := Round(a, d, sr, q, r, carry, found);
      found := found';
      sr := sr - 1;
    }
    BalanceEnd(a, d, 2 * found + carry, r.All());
    ShownEnd(a, q.All(), found, carry);
    quotient, rem := Or(2 * q.All() % 0x1_0000_0000_0000_0000, carry), r.All();
  }

  // --------------------------------------------------------------------------
  // Start-up cases
  // --------------------------------------------------------------------------

  /** The unsigned difference of the two leading-zero counts, as a 32-bit word. */
  function ClzGap(d: Word, n: Word): Word
    requires d > 0 && n > 0
  {
    (Clz32(d) - Clz32(n)) % 0x1_0000_0000
  }

  lemma HighBits(n: UDWords)
    requires n.high > 0
    ensures Pow2(31 - Clz32(n.high)) * 0x1_0000_0000 <= n.All() < Pow2(32 - Clz32(n.high)) * 0x1_0000_0000
  {
  }

  lemma ShiftBelow(n: nat, d: nat, sr: nat)
    requires n < Pow2(sr) * d
    ensures Shr(n, sr) < d
  {
    hide Shr, Pow2, LowBits;
    ShiftSplits(n, sr);
    QuotientBelow(n, Shr(n, sr), Pow2(sr), d);
  }

  lemma ScaledBound(n: nat, d: nat, i: nat, sr: nat, unit: nat)
    requires Pow2(i) * unit <= d && n < Pow2(i + sr) * unit
    ensures n < Pow2(sr) * d
  {
    hide Pow2;
    Pow2Add(i, sr);
    MulMonotone(Pow2(sr), Pow2(i) * unit, d);
    MulRegroup(Pow2(i), Pow2(sr), unit);
  }

  /** Both high words non-zero: the gap of leading zeros says how far the divisor must be shifted. */
  lemma GapBothHigh(n: UDWords, d: UDWords)
    requires n.high > 0 && d.high > 0
    ensures var sr := ClzGap(d.high, n.high);
      && (sr > 31 ==> n.All() < d.All())
      && (sr <= 31 ==> Shr(n.All(), sr + 1) < d.All())
  {
    hide Clz32, Pow2, Shr;
    if Clz32(d.high) < Clz32(n.high) {
      GapNegative(n, d);
    } else {
      GapPositive(n, d);
    }
  }

  lemma GapLargest(n: UDWords, d: UDWords)
    requires n.high > 0 && d.high > 0 && ClzGap(d.high, n.high) == 31
    ensures d.high == 1
  {
    assert Clz32(d.high) == 31;
    assert Pow2(0) == 1 && Pow2(1) == 2;
  }

  lemma GapHugeDivisor(n: UDWords, d: UDWords)
    requires n.high > 0 && d.All() > 0x8000_0000_0000_0000 && ClzGap(d.high, n.high) <= 31
    ensures ClzGap(d.high, n.high) == 0 && n.All() >= 0x8000_0000_0000_0000
  {
    assert d.high >= 0x8000_0000;
    assert Clz32(d.high) == 0;
    assert Clz32(n.high) == 0;
    assert n.high >= 0x8000_0000;
  }

  lemma GapNegative(n: UDWords, d: UDWords)
    requires n.high > 0 && d.high > 0 && Clz32(d.high) < Clz32(n.high)
    ensures n.All() < d.All()
  {
    hide Clz32, Pow2;
    HighBits(n);
    HighBits(d);
    Pow2Monotone(32 - Clz32(n.high), 31 - Clz32(d.high));
  }

  lemma GapPositive(n: UDWords, d: UDWords)
    requires n.high > 0 && d.high > 0 && Clz32(d.high) >= Clz32(n.high)
    ensures Shr(n.All(), Clz32(d.high) - Clz32(n.high) + 1) < d.All()
  {
    hide Clz32, Pow2, Shr;
    HighBits(n);
    HighBits(d);
    var sr := Clz32(d.high) - Clz32(n.high) + 1;
    ScaledBound(n.All(), d.All(), 31 - Clz32(d.high), sr, 0x1_0000_0000);
    ShiftBelow(n.All(), d.All(), sr);
  }

  /** A one-word divisor that is no power of two. */
  lemma GapLowDivisor(n: UDWords, d: UDWords)
    requires n.high > 0 && d.high == 0 && d.low > 2
    ensures var sr := 33 + Clz32(d.low) - Clz32(n.high);
      2 <= sr <= 63 && Shr(n.All(), sr) < d.All()
  {
    hide Clz32, Pow2, Shr;
    ClzBound(d.low);
    LowDivisorBound(n, Clz32(n.high), d.low, Clz32(d.low));
    ShiftBelow(n.All(), d.low, 33 + Clz32(d.low) - Clz32(n.high));
  }

  lemma ClzBound(d: Word)
    requires d > 2
    ensures Clz32(d) <= 30
  {
    assert Pow2(0) == 1 && Pow2(1) == 2;
  }

  lemma LowDivisorBound(n: UDWords, cn: nat, d: Word, cd: nat)
    requires cn <= 31 && n.high < Pow2(32 - cn)
    requires cd <= 31 && Pow2(31 - cd) <= d
    ensures n.All() < Pow2(33 + cd - cn) * d
  {
    hide Pow2;
    Pow2Values();
    Pow2Add(32 - cn, 32);
    Pow2Add(31 - cd, 33 + cd - cn);
    BoundFlat(n.high, n.low, Pow2(32 - cn), Pow2(31 - cd), Pow2(33 + cd - cn), d);
  }

  lemma BoundFlat(h: nat, l: nat, p: nat, u: nat, s: nat, d: nat)
    requires h < p && l < 0x1_0000_0000 && p * 0x1_0000_0000 == u * s && u <= d
    ensures h * 0x1_0000_0000 + l < s * d
  {
    MulMonotone(s, u, d);
  }

  lemma DivideByHighPower(n: UDWords, d: UDWords)
    requires d.low == 0 && d.high > 0 && And(d.high, d.high - 1) == 0
    ensures Shr(n.high, Ctz(d.high)) == n.All() / d.All()
    ensures And(n.high, d.high - 1) < d.high
    ensures And(n.high, d.high - 1) * 0x1_0000_0000 + n.low == n.All() % d.All()
  {
    hide And, Ctz, Shr, LowBits;
    var c := Ctz(d.high);
    AndPredecessor(d.high);
    AndMask(n.high, c);
    ShiftSplits(n.high, c);
    DivideFlat(n.high, n.low, d.high, Shr(n.high, c), LowBits(n.high, c));
  }

  lemma DivideFlat(h: nat, l: nat, p: nat, u: nat, v: nat)
    requires h == u * p + v && v < p && l < 0x1_0000_0000
    ensures (h * 0x1_0000_0000 + l) / (p * 0x1_0000_0000) == u
    ensures (h * 0x1_0000_0000 + l) % (p * 0x1_0000_0000) == v * 0x1_0000_0000 + l
  {
    assert u * (p * 0x1_0000_0000) == u * p * 0x1_0000_0000;
    DivModUnique(h * 0x1_0000_0000 + l, p * 0x1_0000_0000, u, v * 0x1_0000_0000 + l);
  }

  lemma DivideHighWords(n: UDWords, d: UDWords)
    requires d.high > 0 && n.low == d.low == 0
    ensures n.high / d.high <= n.high
    ensures n.All() / d.All() == n.high / d.high
    ensures n.All() % d.All() == n.high % d.high * 0x1_0000_0000
  {
    var u, v := n.high / d.high, n.high % d.high;
    QuotientSmall(n.high, d.high, u, v);
    DivideFlat(n.high, 0, d.high, u, v);
  }

  lemma QuotientSmall(h: nat, p: nat, u: nat, v: nat)
    requires p > 0 && h == u * p + v
    ensures u <= h
  {
    assert u * (p - 1) >= 0;
  }

  lemma LowPowerExponent(d: Word)
    requires d > 0 && And(d, d - 1) == 0
    ensures d == Pow2(Ctz(d)) && Ctz(d) <= 31 && (d != 1 ==> Ctz(d) >= 1)
  {
    hide And, Ctz, Pow2;
    AndPredecessor(d);
    Pow2Values();
    Pow2Small();
    if Ctz(d) >= 32 {
      Pow2Monotone(32, Ctz(d));
    }
  }

  lemma DivideByPower(a: nat, d: nat, c: nat)
    requires d == Pow2(c)
    ensures a / d == Shr(a, c) && a % d == LowBits(a, c)
  {
    hide Shr, LowBits, Pow2;
    ShiftSplits(a, c);
    DivModUnique(a, d, Shr(a, c), LowBits(a, c));
  }

  lemma MaskByPower(x: Word, d: Word)
    requires d > 0 && And(d, d - 1) == 0
    ensures And(x, d - 1) == LowBits(x, Ctz(d))
  {
    hide And, Ctz, LowBits, Pow2;
    LowPowerExponent(d);
    AndMask(x, Ctz(d));
  }

  lemma FunnelFits(h: Word, l: Word, k: nat)
    requires k <= 32
    ensures Funnel(h, l, k) < 0x1_0000_0000
  {
    hide Funnel;
    FunnelValue(h, l, k);
  }

  lemma DivideByLowPower(n: UDWords, d: UDWords)
    requires d.high == 0 && d.low > 1 && And(d.low, d.low - 1) == 0
    ensures var sr := Ctz(d.low);
      && 1 <= sr <= 31
      && Funnel(n.high, n.low, sr) < 0x1_0000_0000
      && Shr(n.high, sr) * 0x1_0000_0000 + Funnel(n.high, n.low, sr) == n.All() / d.All()
      && And(n.low, d.low - 1) == n.All() % d.All()
  {
    hide And, Ctz, Shr, LowBits, Pow2, Funnel;
    var c := Ctz(d.low);
    LowPowerExponent(d.low);
    MaskByPower(n.low, d.low);
    FunnelFits(n.high, n.low, c);
    LoadShortRemainder(n.high, n.low, c);
    DivideByPower(n.high * 0x1_0000_0000 + n.low, d.low, c);
  }

  lemma WholeWord(h: Word, l: Word)
    requires Shr(l, 32) == 0 && LowBits(h, 32) == h
    ensures Shl32(l, 0) == l && Funnel(h, l, 32) == h
  {
    hide Shr, LowBits, Shl32, Pow2;
    NotShifted(l);
    NotShifted(h);
    OrZero(h);
  }

  lemma NotShifted(x: Word)
    ensures Shl32(x, 0) == x
  {
    Pow2Small();
    TimesOne(x);
  }

  /** Loads the register pair for a shift of at most one word (lines 97-103, 129-139 and 161-171). */
  method LoadUpToWord(n: UDWords, sr: nat) returns (q: UDWords, r: UDWords)
    requires 1 <= sr <= 32
    ensures Loaded(n.All(), sr, q, r)
  {
    hide Loaded, Shl32, Funnel, Shr, LowBits, Pow2;
    FunnelValue(n.high, n.low, sr);
    ShrWord(n.high, sr);
    if sr == 32 {
      q, r := UDWords(n.low, 0), UDWords(0, n.high);
      Pow2Values();
      Pow2Small();
      ShiftUnique(n.high, 32, 0, n.high);
      ShiftUnique(n.low, 32, 0, n.low);
      WholeWord(n.high, n.low);
    } else {
      q := UDWords(Shl32(n.low, 32 - sr), 0);
      r := UDWords(Shr(n.high, sr), Funnel(n.high, n.low, sr));
    }
    LoadShort(n, sr, q, r);
  }

  /** Loads the register pair for a shift of more than one word (lines 142-146). */
  method LoadBeyondWord(n: UDWords, sr: nat) returns (q: UDWords, r: UDWords)
    requires 32 < sr <= 63
    ensures Loaded(n.All(), sr, q, r)
  {
    hide Loaded, Shl32, Funnel, Shr;
    FunnelValue(n.high, n.low, sr - 32);
    ShrWord(n.high, sr - 32);
    q := UDWords(Funnel(n.high, n.low, sr - 32), Shl32(n.low, 64 - sr));
    r := UDWords(0, Shr(n.high, sr - 32));
    LoadLong(n, sr, q, r);
  }

  /** Both low words zero (lines 61-72). */
  method DivideRoundWords(n: UDWords, d: UDWords) returns (quotient: DWord, rem: DWord)
    requires d.high != 0 && n.low == d.low == 0
    ensures quotient == n.All() / d.All() && rem == n.All() % d.All()
  {
    DivideHighWords(n, d);
    quotient := n.high / d.high;
    var r := UDWords(n.high % d.high, 0);
    rem := r.All();
  }

  /** Numerator of two words, divisor with a zero low word (lines 51-103). */
  method DivideByHigh(n: UDWords, d: UDWords) returns (quotient: DWord, rem: DWord)
    requires n.high != 0 && d.low == 0 && d.high != 0
    ensures quotient == n.All() / d.All() && rem == n.All() % d.All()
  {
    hide And, Shr, Ctz;
    if n.low == 0 {
      quotient, rem := DivideRoundWords(n, d);
    } else if And(d.high, d.high - 1) == 0 {
      DivideByHighPower(n, d);
      ShrWord(n.high, Ctz(d.high));
      var r := UDWords(And(n.high, d.high - 1), n.low);
      return Shr(n.high, Ctz(d.high)), r.All();
    } else {
      quotient, rem := DivideTwoWords(n, d);
    }
  }

  /** Both high words non-zero and no shortcut (lines 90-103 and 153-172). */
  method DivideTwoWords(n: UDWords, d: UDWords) returns (quotient: DWord, rem: DWord)
    requires n.high != 0 && d.high != 0
    requires d.low == 0 ==> And(d.high, d.high - 1) != 0
    ensures quotient == n.All() / d.All() && rem == n.All() % d.All()
  {
    hide And, ClzGap, Shr, LowBits, Pow2;
    AndSmall();
    GapBothHigh(n, d);
    var sr := ClzGap(d.high, n.high);
    if sr > (if d.low == 0 then 30 else 31) {
      if sr == 31 {
        GapLargest(n, d);
      }
      DivModUnique(n.All(), d.All(), 0, n.All());
      return 0, n.All();
    }
    if d.All() > 0x8000_0000_0000_0000 {
      GapHugeDivisor(n, d);
    }
    var q, r := LoadUpToWord(n, sr + 1);
    quotient, rem := ShiftSubtract(n.All(), d.All(), sr + 1, q, r);
  }

  /** Numerator of two words, one-word divisor (lines 106-147). */
  method DivideByLow(n: UDWords, d: UDWords) returns (quotient: DWord, rem: DWord)
    requires n.high != 0 && d.low != 0 && d.high == 0
    ensures quotient == n.All() / d.All() && rem == n.All() % d.All()
  {
    hide And, Ctz, Clz32, Shr, LowBits, Pow2, Funnel;
    AndSmall();
    if And(d.low, d.low - 1) == 0 {
      if d.low == 1 {
        DivModUnique(n.All(), 1, n.All(), 0);
        return n.All(), And(n.low, d.low - 1);
      }
      DivideByLowPower(n, d);
      rem := And(n.low, d.low - 1);
      var sr := Ctz(d.low);
      ShrWord(n.high, sr);
      var q := UDWords(Shr(n.high, sr), Funnel(n.high, n.low, sr));
      return q.All(), rem;
    }
    GapLowDivisor(n, d);
    var sr := 33 + Clz32(d.low) - Clz32(n.high);
    var q, r;
    if sr <= 32 {
      q, r := LoadUpToWord(n, sr);
    } else {
      q, r := LoadBeyondWord(n, sr);
    }
    quotient, rem := ShiftSubtract(n.All(), d.All(), sr, q, r);
  }

  /** Both operands of one word (lines 34-42). */
  method DivideWords(x: Word, y: Word) returns (quotient: Word, rem: Word)
    requires y != 0
    ensures quotient == x / y && rem == x % y
  {
    quotient, rem := DivMod(x, y).0, DivMod(x, y).1;
  }

  /** Unsigned 64-bit division. A zero divisor traps in the original, so callers must not pass one. */
  method UDivModDi4(a: DWord, b: DWord) returns (quotient: DWord, rem: DWord)
    requires b != 0
    ensures quotient == a / b && rem == a % b
  {
    hide Halves;
    var n, d := Halves(a), Halves(b);
    if n.high == 0 {
      if d.high == 0 {
        quotient, rem := DivideWords(n.low, d.low);
        return;
      }
      DivModUnique(a, b, 0, a);
      return 0, n.low;
    }
    if d.low == 0 {
      quotient, rem := DivideByHigh(n, d);
    } else if d.high == 0 {
      quotient, rem := DivideByLow(n, d);
    } else {
      quotient, rem := DivideTwoWords(n, d);
    }
  }
}
