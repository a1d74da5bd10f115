/** The kernel heap as a sequence of address regions: what allocating and freeing mean, and what every run keeps. */
module Regions {
  import Words

  /** Block records, one for every region. */
  const POOL_SIZE := 4096

  datatype Region = Region(begin: int, end: int, free: bool) {
    function Size(): int { end - begin }
  }

  /** The regions follow each other without gap or overlap from lo to hi. */
  ghost predicate Tiled(rs: seq<Region>, lo: int, hi: int) {
    && |rs| > 0
    && rs[0].begin == lo && rs[|rs| - 1].end == hi
    && (forall k :: 0 <= k < |rs| ==> rs[k].begin < rs[k].end)
    && (forall k :: 0 <= k < |rs| - 1 ==> rs[k].end == rs[k + 1].begin)
  }

  /** No two neighbouring regions are both free. */
  ghost predicate Coalesced(rs: seq<Region>) {
    forall k :: 0 <= k < |rs| - 1 ==> !(rs[k].free && rs[k + 1].free)
  }

  lemma {:induction false} Ascending(rs: seq<Region>, lo: int, hi: int, i: nat, j: nat)
    requires Tiled(rs, lo, hi) && i < j < |rs|
    ensures rs[i].end <= rs[j].begin
  {
    if i + 1 < j {
      Ascending(rs, lo, hi, i, j - 1);
    }
  }

  lemma BeginsDistinct(rs: seq<Region>, lo: int, hi: int, i: nat, j: nat)
    requires Tiled(rs, lo, hi) && i < |rs| && j < |rs| && rs[i].begin == rs[j].begin
    ensures i == j
  {
    if i < j {
      Ascending(rs, lo, hi, i, j);
    } else if j < i {
      Ascending(rs, lo, hi, j, i);
    }
  }

  /** Every address of the heap lies in exactly one region. */
  lemma {:induction false} Covered(rs: seq<Region>, lo: int, hi: int, a: int, n: nat) returns (k: nat)
    requires Tiled(rs, lo, hi) && n < |rs| && lo <= a < rs[n].end
    ensures k <= n && rs[k].begin <= a < rs[k].end
    ensures forall j :: 0 <= j < |rs| && rs[j].begin <= a < rs[j].end ==> j == k
  {
    if rs[n].begin <= a {
      k := n;
    } else {
      k := Covered(rs, lo, hi, a, n - 1);
    }
    forall j | 0 <= j < |rs| && rs[j].begin <= a < rs[j].end
      ensures j == k
    {
      if j < k {
        Ascending(rs, lo, hi, j, k);
      } else if k < j {
        Ascending(rs, lo, hi, k, j);
      }
    }
  }

  // --------------------------------------------------------------------------
  // Allocating
  // --------------------------------------------------------------------------

  /** The least 1024 * 2^k that is at least `size`. */
  function Rounded(size: int, unit: int): (r: int)
    requires unit > 0
    ensures r >= size && r >= unit
    ensures size > unit ==> r < 2 * size
    decreases size - unit
  {
    if unit < size then Rounded(size, 2 * unit) else unit
  }

  /** The size class is the least 1024 * 2^k that holds the request. */
  lemma {:induction false} RoundedIsLeast(size: int, k: nat) returns (n: nat)
    ensures n >= k && Rounded(size, 1024 * Words.Pow2(k)) == 1024 * Words.Pow2(n)
    ensures forall m :: k <= m < n ==> 1024 * Words.Pow2(m) < size
    decreases size - 1024 * Words.Pow2(k)
  {
    if 1024 * Words.Pow2(k) < size {
      n := RoundedIsLeast(size, k + 1);
    } else {
      n := k;
    }
  }

  /** The same doubling in a 32-bit size_t. */
  function Doubled(k: nat): int {
    if k == 0 then 1024 else 2 * Doubled(k - 1) % 0x1_0000_0000
  }

  lemma {:induction false} DoubledValue(k: nat)
    ensures Doubled(k) == if k <= 21 then 1024 * Words.Pow2(k) else 0
    ensures 0 <= Doubled(k) <= 0x8000_0000
  {
    hide Words.Pow2, Doubled;
    Pow21();
    DoubledOnce(k);
    if k > 0 {
      DoubledValue(k - 1);
      if k <= 21 {
        Words.Pow2Monotone(k, 21);
        PowOnce(k);
        DoublingStep(1024 * Words.Pow2(k - 1));
      }
    }
  }

  lemma DoubledOnce(k: nat)
    ensures Doubled(k) == if k == 0 then 1024 else 2 * Doubled(k - 1) % 0x1_0000_0000
  {
  }

  lemma PowOnce(k: nat)
    requires k > 0
    ensures Words.Pow2(k) == 2 * Words.Pow2(k - 1)
  {
  }

  lemma DoublingStep(x: int)
    requires 0 <= x && 2 * x <= 0x8000_0000
    ensures 2 * x % 0x1_0000_0000 == 2 * x
  {
  }

  lemma Pow21()
    ensures 1024 * Words.Pow2(21) == 0x8000_0000 && Words.Pow2(0) == 1
  {
    Words.Pow2Values();
    Words.Pow2Add(10, 21);
    assert Words.Pow2(10) == 1024;
  }

  /** The rounding loop of line 232 ends exactly for sizes up to 2^31; beyond that the doubling wraps to zero
      and stays there. */
  lemma RoundingEnds(size: int)
    ensures (exists k: nat :: Doubled(k) >= size) <==> size <= 0x8000_0000
  {
    forall k: nat
      ensures Doubled(k) <= 0x8000_0000
    {
      DoubledValue(k);
    }
    DoubledValue(21);
    Pow21();
    assert Doubled(21) == 0x8000_0000;
  }

  /** The lowest free region from k on of at least sz bytes, or |rs| when there is none. */
  function FirstFit(rs: seq<Region>, sz: int, k: nat): (p: nat)
    requires k <= |rs|
    ensures k <= p <= |rs|
    ensures p < |rs| ==> rs[p].free && rs[p].Size() >= sz
    ensures forall q :: k <= q < p ==> !(rs[q].free && rs[q].Size() >= sz)
    decreases |rs| - k
  {
    if k == |rs| || (rs[k].free && rs[k].Size() >= sz) then k else FirstFit(rs, sz, k + 1)
  }

  /** The allocated region that begins at an address, or |rs| when there is none. */
  function AllocatedAt(rs: seq<Region>, address: int, k: nat): (p: nat)
    requires k <= |rs|
    ensures k <= p <= |rs|
    ensures p < |rs| ==> !rs[p].free && rs[p].begin == address
    ensures forall q :: k <= q < p ==> rs[q].free || rs[q].begin != address
    decreases |rs| - k
  {
    if k == |rs| || (!rs[k].free && rs[k].begin == address) then k else AllocatedAt(rs, address, k + 1)
  }

  /** Region p split in two free ones, the first of sz bytes. */
  function Cut(rs: seq<Region>, p: int, sz: int): seq<Region>
    requires 0 <= p < |rs|
  {
    rs[..p] + [Region(rs[p].begin, rs[p].begin + sz, true), Region(rs[p].begin + sz, rs[p].end, true)] + rs[p + 1..]
  }

  /** The test of line 240, in a 32-bit size_t: a region of twice the wanted size or more is cut first. For 2^31 the
      doubled size is zero, and every region is cut. */
  predicate Cuts(r: Region, sz: int) {
    r.Size() >= 2 * sz % 0x1_0000_0000
  }

  /** Cutting leaves nothing behind. */
  predicate Hollow(r: Region, sz: int) {
    Cuts(r, sz) && r.Size() == sz
  }

  /** Allocating from region p. */
  function Take(rs: seq<Region>, p: int, sz: int): seq<Region>
    requires 0 <= p < |rs|
  {
    var cut := if Cuts(rs[p], sz) then Cut(rs, p, sz) else rs;
    cut[p := cut[p].(free := false)]
  }

  /** The bytes handed out. */
  function Used(rs: seq<Region>): int {
    if rs == [] then 0 else (if rs[0].free then 0 else rs[0].Size()) + Used(rs[1..])
  }

  lemma {:induction false} UsedConcat(a: seq<Region>, b: seq<Region>)
    ensures Used(a + b) == Used(a) + Used(b)
  {
    if a == [] {
      assert a + b == b;
    } else {
      assert (a + b)[1..] == a[1..] + b;
      UsedConcat(a[1..], b);
    }
  }

  lemma UsedAround(a: seq<Region>, m: seq<Region>, b: seq<Region>)
    ensures Used(a + m + b) == Used(a) + Used(m) + Used(b)
  {
    UsedConcat(a + m, b);
    UsedConcat(a, m);
  }

  /** Splicing a tiled stretch into a tiling. */
  lemma SpliceTiled(rs: seq<Region>, lo: int, hi: int, i: nat, j: nat, m: seq<Region>)
    requires Tiled(rs, lo, hi) && i < j <= |rs|
    requires Tiled(m, rs[i].begin, rs[j - 1].end)
    ensures Tiled(rs[..i] + m + rs[j..], lo, hi)
  {
    var t := rs[..i] + m + rs[j..];
    forall k | 0 <= k < |t| - 1
      ensures t[k].end == t[k + 1].begin
    {
      if k + 1 < i {
        assert t[k] == rs[k] && t[k + 1] == rs[k + 1];
      } else if k + 1 == i {
        assert t[k] == rs[i - 1] && t[k + 1] == m[0];
      } else if k + 1 < i + |m| {
        assert t[k] == m[k - i] && t[k + 1] == m[k + 1 - i];
      } else if k + 1 == i + |m| {
        assert t[k] == m[|m| - 1] && t[k + 1] == rs[j];
      } else {
        assert t[k] == rs[k - i - |m| + j] && t[k + 1] == rs[k + 1 - i - |m| + j];
      }
    }
    assert t[0] == if i > 0 then rs[0] else m[0];
    assert t[|t| - 1] == if j < |rs| then rs[|rs| - 1] else m[|m| - 1];
  }

  lemma SpliceCoalesced(rs: seq<Region>, i: nat, j: nat, m: seq<Region>)
    requires Coalesced(rs) && i < j <= |rs| && m != [] && Coalesced(m)
    requires i > 0 ==> !(rs[i - 1].free && m[0].free)
    requires j < |rs| ==> !(m[|m| - 1].free && rs[j].free)
    ensures Coalesced(rs[..i] + m + rs[j..])
  {
    var t := rs[..i] + m + rs[j..];
    forall k | 0 <= k < |t| - 1
      ensures !(t[k].free && t[k + 1].free)
    {
      if k + 1 < i {
        assert t[k] == rs[k] && t[k + 1] == rs[k + 1];
      } else if k + 1 == i {
        assert t[k] == rs[i - 1] && t[k + 1] == m[0];
      } else if k + 1 < i + |m| {
        assert t[k] == m[k - i] && t[k + 1] == m[k - i + 1];
      } else if k + 1 == i + |m| {
        assert t[k] == m[|m| - 1] && t[k + 1] == rs[j];
      } else {
        var n := k - i - |m| + j;
        assert t[k] == rs[n] && t[k + 1] == rs[n + 1];
      }
    }
  }

  lemma SpliceUsed(rs: seq<Region>, i: nat, j: nat, m: seq<Region>)
    requires i < j <= |rs|
    ensures Used(rs[..i] + m + rs[j..]) == Used(rs) - Used(rs[i..j]) + Used(m)
  {
    assert rs == rs[..i] + rs[i..j] + rs[j..];
    UsedAround(rs[..i], rs[i..j], rs[j..]);
    UsedAround(rs[..i], m, rs[j..]);
  }

  lemma CutTiled(rs: seq<Region>, lo: int, hi: int, p: nat, sz: int)
    requires Tiled(rs, lo, hi) && p < |rs| && 0 < sz < rs[p].Size()
    ensures Tiled(Cut(rs, p, sz), lo, hi)
  {
    SpliceTiled(rs, lo, hi, p, p + 1, [Region(rs[p].begin, rs[p].begin + sz, true), Region(rs[p].begin + sz, rs[p].end, true)]);
  }

  /** What region p becomes. */
  function Taken(r: Region, sz: int): seq<Region> {
    if Cuts(r, sz) then [Region(r.begin, r.begin + sz, false), Region(r.begin + sz, r.end, true)]
    else [r.(free := false)]
  }

  lemma TakeSplices(rs: seq<Region>, p: nat, sz: int)
    requires p < |rs|
    ensures Take(rs, p, sz) == rs[..p] + Taken(rs[p], sz) + rs[p + 1..]
  {
  }

  lemma TakenUsed(r: Region, sz: int)
    ensures Used(Taken(r, sz)) == Taken(r, sz)[0].Size()
    ensures r.free ==> Used([r]) == 0
  {
    if Cuts(r, sz) {
      var a, b := Region(r.begin, r.begin + sz, false), Region(r.begin + sz, r.end, true);
      assert [a, b] == [a] + [b];
      UsedConcat([a], [b]);
    }
  }

  predicate Fits(r: Region, sz: int) {
    0 < sz <= r.Size() && sz <= 0x8000_0000 && !Hollow(r, sz)
  }

  /** Allocation keeps the heap tiled and coalesced, and accounts for what it hands out. */
  lemma TakeKeeps(rs: seq<Region>, lo: int, hi: int, p: nat, sz: int)
    requires Tiled(rs, lo, hi) && Coalesced(rs) && p < |rs| && rs[p].free && Fits(rs[p], sz)
    ensures var rs' := Take(rs, p, sz);
      && Tiled(rs', lo, hi) && Coalesced(rs')
      && p < |rs'| && !rs'[p].free && rs'[p].begin == rs[p].begin && sz <= rs'[p].Size() < 2 * sz
      && Used(rs') == Used(rs) + rs'[p].Size()
    ensures var (s, rs') := (rs[p].Size(), Take(rs, p, sz));
      && rs'[p].Size() == (if s >= 2 * sz || sz == 0x8000_0000 then sz else s)
      && |rs'| == |rs| + (if s >= 2 * sz || sz == 0x8000_0000 then 1 else 0)
  {
    hide Take, Used;
    var m := Taken(rs[p], sz);
    TakeSplices(rs, p, sz);
    SpliceTiled(rs, lo, hi, p, p + 1, m);
    SpliceCoalesced(rs, p, p + 1, m);
    SpliceUsed(rs, p, p + 1, m);
    assert rs[p..p + 1] == [rs[p]];
    TakenUsed(rs[p], sz);
  }

  /** Allocating touches no allocated region but the new one. */
  lemma TakeAddsOne(rs: seq<Region>, p: nat, sz: int)
    requires p < |rs| && rs[p].free
    ensures p < |Take(rs, p, sz)|
    ensures forall r: Region :: !r.free ==> (r in Take(rs, p, sz) <==> r in rs || r == Take(rs, p, sz)[p])
  {
    hide Take;
    TakeSplices(rs, p, sz);
    assert rs == rs[..p] + [rs[p]] + rs[p + 1..];
  }

  // --------------------------------------------------------------------------
  // Freeing
  // --------------------------------------------------------------------------

  /** Where the free stretch around region p starts and where it stops. */
  function Low(rs: seq<Region>, p: nat): nat
    requires p < |rs|
  {
    if p > 0 && rs[p - 1].free then p - 1 else p
  }

  function High(rs: seq<Region>, p: nat): nat
    requires p < |rs|
  {
    if p + 1 < |rs| && rs[p + 1].free then p + 2 else p + 1
  }

  /** Freeing region p: it is merged with a free neighbour on either side. */
  function Give(rs: seq<Region>, p: nat): seq<Region>
    requires p < |rs|
  {
    rs[..Low(rs, p)] + [Region(rs[Low(rs, p)].begin, rs[High(rs, p) - 1].end, true)] + rs[High(rs, p)..]
  }

  /** Freeing keeps the heap tiled and coalesced, and gives back exactly the region's bytes. */
  lemma GiveKeeps(rs: seq<Region>, lo: int, hi: int, p: nat)
    requires Tiled(rs, lo, hi) && Coalesced(rs) && p < |rs| && !rs[p].free
    ensures var rs' := Give(rs, p);
      && Tiled(rs', lo, hi) && Coalesced(rs')
      && Used(rs') == Used(rs) - rs[p].Size()
  {
    hide Used, Tiled, Coalesced;
    var i, j := Low(rs, p), High(rs, p);
    var m := [Region(rs[i].begin, rs[j - 1].end, true)];
    StretchTiled(rs, lo, hi, i, j);
    SpliceTiled(rs, lo, hi, i, j, m);
    FreeStretch(rs, p);
    SpliceCoalesced(rs, i, j, m);
    SpliceUsed(rs, i, j, m);
    StretchUsed(rs, p);
    FreeUsed(m[0]);
  }

  /** Freeing touches no allocated region but its own. */
  lemma GiveTakesOne(rs: seq<Region>, lo: int, hi: int, p: nat)
    requires Tiled(rs, lo, hi) && p < |rs| && !rs[p].free
    ensures forall r: Region :: !r.free ==> (r in Give(rs, p) <==> r in rs && r != rs[p])
  {
    hide Tiled;
    var i, j := Low(rs, p), High(rs, p);
    forall k | 0 <= k < |rs| && k != p
      ensures rs[k] != rs[p]
    {
      if rs[k] == rs[p] {
        BeginsDistinct(rs, lo, hi, k, p);
      }
    }
    var left, right := if i < p then [rs[i]] else [], if p + 1 < j then [rs[p + 1]] else [];
    assert rs == rs[..i] + left + [rs[p]] + right + rs[j..];
  }

  lemma StretchTiled(rs: seq<Region>, lo: int, hi: int, i: nat, j: nat)
    requires Tiled(rs, lo, hi) && i < j <= |rs|
    ensures var m := [Region(rs[i].begin, rs[j - 1].end, true)];
      Tiled(m, rs[i].begin, rs[j - 1].end) && Coalesced(m)
  {
    if i < j - 1 {
      Ascending(rs, lo, hi, i, j - 1);
    }
  }

  lemma FreeUsed(r: Region)
    requires r.free
    ensures Used([r]) == 0
  {
  }

  /** The stretch cannot reach further: its outer neighbours are allocated. */
  lemma FreeStretch(rs: seq<Region>, p: nat)
    requires Coalesced(rs) && p < |rs| && !rs[p].free
    ensures Low(rs, p) > 0 ==> !rs[Low(rs, p) - 1].free
    ensures High(rs, p) < |rs| ==> !rs[High(rs, p)].free
  {
    if p > 1 {
      assert !(rs[p - 2].free && rs[p - 2 + 1].free);
    }
    if p + 2 < |rs| {
      assert !(rs[p + 1].free && rs[p + 1 + 1].free);
    }
  }

  /** All the stretch held was region p. */
  lemma StretchUsed(rs: seq<Region>, p: nat)
    requires p < |rs| && !rs[p].free
    ensures Used(rs[Low(rs, p)..High(rs, p)]) == rs[p].Size()
  {
    var i, j := Low(rs, p), High(rs, p);
    var left, right := if i < p then [rs[i]] else [], if p + 1 < j then [rs[p + 1]] else [];
    assert rs[i..j] == left + [rs[p]] + right;
    UsedAround(left, [rs[p]], right);
  }

  /** Freeing right after allocating restores the heap exactly. */
  lemma GiveUndoesTake(rs: seq<Region>, lo: int, hi: int, p: nat, sz: int)
    requires Tiled(rs, lo, hi) && Coalesced(rs) && p < |rs| && rs[p].free && Fits(rs[p], sz)
    ensures p < |Take(rs, p, sz)| && Give(Take(rs, p, sz), p) == rs
  {
    hide Take;
    var m := Taken(rs[p], sz);
    var t := rs[..p] + m + rs[p + 1..];
    TakeSplices(rs, p, sz);
    assert p > 0 ==> t[p - 1] == rs[p - 1] && !rs[p - 1].free;
    assert Low(t, p) == p;
    if |m| == 1 {
      assert p + 1 < |rs| ==> t[p + 1] == rs[p + 1];
    } else {
      assert t[p + 1] == m[1];
    }
    assert High(t, p) == p + |m|;
    assert t[p] == m[0] && t[p + |m| - 1] == m[|m| - 1];
    assert t[..p] == rs[..p] && t[p + |m|..] == rs[p + 1..];
    assert rs == rs[..p] + [rs[p]] + rs[p + 1..];
  }

  /** Once nothing is allocated, coalescing leaves the single initial block. */
  lemma AllFreeIsInitial(rs: seq<Region>, lo: int, hi: int)
    requires Tiled(rs, lo, hi) && Coalesced(rs)
    ensures (forall k :: 0 <= k < |rs| ==> rs[k].free) <==> rs == [Region(lo, hi, true)]
    ensures Used(rs) == 0 <==> rs == [Region(lo, hi, true)]
  {
    UsedZero(rs);
  }

  lemma {:induction false} UsedZero(rs: seq<Region>)
    requires forall k :: 0 <= k < |rs| ==> rs[k].begin < rs[k].end
    ensures Used(rs) >= 0
    ensures Used(rs) == 0 <==> forall k :: 0 <= k < |rs| ==> rs[k].free
  {
    if rs != [] {
      UsedZero(rs[1..]);
      assert forall k :: 0 < k < |rs| ==> rs[k] == rs[1..][k - 1];
      assert forall k :: 0 <= k < |rs| - 1 ==> rs[1..][k] == rs[k + 1];
    }
  }

  // --------------------------------------------------------------------------
  // Runs
  // --------------------------------------------------------------------------

  datatype Op = Alloc(size: int) | Release(address: int)

  /** The kernel stops: no block is large enough, no record is left to cut one (line 26), or no block has been
      allocated at the address (line 42), which are failed assertions, or the size class is never reached. */
  predicate Halts(rs: seq<Region>, op: Op) {
    match op
    case Alloc(size) =>
      var sz := Rounded(size, 1024);
      var p := FirstFit(rs, sz, 0);
      size > 0 && (size > 0x8000_0000 || p == |rs| || (Cuts(rs[p], sz) && |rs| >= POOL_SIZE))
    case Release(address) => AllocatedAt(rs, address, 0) == |rs|
  }

  /** The request takes a block of exactly 2^31 bytes and cuts it nevertheless. */
  predicate Hollows(rs: seq<Region>, op: Op) {
    match op
    case Alloc(size) =>
      var sz := Rounded(size, 1024);
      var p := FirstFit(rs, sz, 0);
      0 < size <= 0x8000_0000 && p < |rs| && Hollow(rs[p], sz)
    case Release(_) => false
  }

  /** One request. */
  function Step(rs: seq<Region>, op: Op): seq<Region>
    requires !Halts(rs, op)
  {
    match op
    case Alloc(size) =>
      if size > 0 then Take(rs, FirstFit(rs, Rounded(size, 1024), 0), Rounded(size, 1024)) else rs
    case Release(address) => Give(rs, AllocatedAt(rs, address, 0))
  }

  lemma AllocMeans(rs: seq<Region>, size: int)
    requires 0 <= size
    ensures size > 0x8000_0000 ==> Halts(rs, Alloc(size))
    ensures size <= 0x8000_0000 ==>
      var sz := Rounded(size, 1024);
      var p := FirstFit(rs, sz, 0);
      && sz <= 0x8000_0000
      && (Halts(rs, Alloc(size)) <==> size > 0 && (p == |rs| || (Cuts(rs[p], sz) && |rs| >= POOL_SIZE)))
      && (Hollows(rs, Alloc(size)) <==> size > 0 && p < |rs| && Hollow(rs[p], sz))
      && (!Halts(rs, Alloc(size)) ==> Step(rs, Alloc(size)) == if size > 0 then Take(rs, p, sz) else rs)
  {
    hide Take, FirstFit, Cuts;
    if size <= 0x8000_0000 {
      RoundedSmall(size);
    }
  }

  lemma RoundedSmall(size: int)
    requires size <= 0x8000_0000
    ensures Rounded(size, 1024) <= 0x8000_0000
  {
    hide Rounded, Words.Pow2;
    Pow21();
    RoundedAtMost(size, 21);
  }

  lemma RoundedAtMost(size: int, j: nat)
    requires size <= 1024 * Words.Pow2(j)
    ensures Rounded(size, 1024) <= 1024 * Words.Pow2(j)
  {
    hide Rounded, Words.Pow2;
    Pow21();
    var n := RoundedIsLeast(size, 0);
    Words.Pow2Monotone(n, j);
  }

  /** The requests are carried out until the kernel stops. */
  function Run(rs: seq<Region>, ops: seq<Op>): seq<Region>
    decreases |ops|
  {
    if ops == [] || Halts(rs, ops[0]) then rs else Run(Step(rs, ops[0]), ops[1..])
  }

  /** The heap is too small for a block of 2^31 bytes, or no request asks for more than 2^30. */
  ghost predicate Moderate(lo: int, hi: int, ops: seq<Op>) {
    hi - lo < 0x8000_0000 || forall k :: 0 <= k < |ops| ==> ops[k].Alloc? ==> ops[k].size <= 0x4000_0000
  }

  /** No request of the run leaves an empty block. */
  ghost predicate Solid(rs: seq<Region>, ops: seq<Op>)
    decreases |ops|
  {
    ops == [] || Halts(rs, ops[0]) || (!Hollows(rs, ops[0]) && Solid(Step(rs, ops[0]), ops[1..]))
  }

  /** Safety over whole runs. */
  lemma {:induction false} RunKeeps(rs: seq<Region>, lo: int, hi: int, ops: seq<Op>)
    requires Tiled(rs, lo, hi) && Coalesced(rs) && |rs| <= POOL_SIZE && Solid(rs, ops)
    ensures Tiled(Run(rs, ops), lo, hi) && Coalesced(Run(rs, ops)) && |Run(rs, ops)| <= POOL_SIZE
    ensures Used(Run(rs, ops)) == 0 <==> Run(rs, ops) == [Region(lo, hi, true)]
    decreases |ops|
  {
    hide Halts, Hollows, Step, Tiled, Coalesced, Used;
    if ops == [] || Halts(rs, ops[0]) {
      AllFreeIsInitial(rs, lo, hi);
    } else {
      StepKeeps(rs, lo, hi, ops[0]);
      RunKeeps(Step(rs, ops[0]), lo, hi, ops[1..]);
    }
  }

  /** So every run of a heap below 2^31 bytes, and every run of requests up to 2^30 bytes, keeps the heap tiled. */
  lemma {:induction false} ModerateIsSolid(rs: seq<Region>, lo: int, hi: int, ops: seq<Op>)
    requires Tiled(rs, lo, hi) && Coalesced(rs) && |rs| <= POOL_SIZE && Moderate(lo, hi, ops)
    ensures Solid(rs, ops)
    decreases |ops|
  {
    hide Halts, Hollows, Step, Tiled, Coalesced;
    if ops != [] && !Halts(rs, ops[0]) {
      NotHollow(rs, lo, hi, ops[0]);
      StepKeeps(rs, lo, hi, ops[0]);
      ModerateIsSolid(Step(rs, ops[0]), lo, hi, ops[1..]);
    }
  }

  lemma NotHollow(rs: seq<Region>, lo: int, hi: int, op: Op)
    requires Tiled(rs, lo, hi) && Moderate(lo, hi, [op])
    ensures !Hollows(rs, op)
  {
    hide Tiled, FirstFit;
    if op.Alloc? && 0 < op.size <= 0x8000_0000 {
      var sz := Rounded(op.size, 1024);
      var p := FirstFit(rs, sz, 0);
      RoundedSmall(op.size);
      if p < |rs| {
        WithinHeap(rs, lo, hi, p);
        HollowIs(rs[p], sz);
        if hi - lo >= 0x8000_0000 {
          assert [op][0] == op;
          RoundedBelow(op.size);
        }
      }
    }
  }

  lemma HollowIs(r: Region, sz: int)
    requires 0 < sz <= 0x8000_0000
    ensures Hollow(r, sz) <==> sz == 0x8000_0000 && r.Size() == sz
  {
  }

  lemma RoundedBelow(size: int)
    requires size <= 0x4000_0000
    ensures Rounded(size, 1024) < 0x8000_0000
  {
    hide Rounded, Words.Pow2;
    Pow21();
    PowOnce(21);
    RoundedAtMost(size, 20);
  }

  lemma WithinHeap(rs: seq<Region>, lo: int, hi: int, p: int)
    requires Tiled(rs, lo, hi) && 0 <= p < |rs|
    ensures lo <= rs[p].begin < rs[p].end <= hi
  {
    if p > 0 {
      Ascending(rs, lo, hi, 0, p);
    }
    if p < |rs| - 1 {
      Ascending(rs, lo, hi, p, |rs| - 1);
    }
  }

  lemma StepKeeps(rs: seq<Region>, lo: int, hi: int, op: Op)
    requires Tiled(rs, lo, hi) && Coalesced(rs) && |rs| <= POOL_SIZE && !Halts(rs, op) && !Hollows(rs, op)
    ensures Tiled(Step(rs, op), lo, hi) && Coalesced(Step(rs, op)) && |Step(rs, op)| <= POOL_SIZE
  {
    hide Tiled, Coalesced, Used, FirstFit, AllocatedAt, Cuts;
    match op
    case Alloc(size) =>
      var sz := Rounded(size, 1024);
      var p := FirstFit(rs, sz, 0);
      if size > 0 {
        RoundedSmall(size);
        TakeKeeps(rs, lo, hi, p, sz);
        TakeSplices(rs, p, sz);
      }
    case Release(address) =>
      GiveKeeps(rs, lo, hi, AllocatedAt(rs, address, 0));
  }

  /** A request keeps the heap tiled exactly if it does not cut a block of exactly its own size, for which it must ask
      for more than 2^30 bytes while the lowest large enough block has 2^31: an empty block would be left. */
  lemma TiledExactly(rs: seq<Region>, lo: int, hi: int, op: Op)
    requires Tiled(rs, lo, hi) && Coalesced(rs) && |rs| <= POOL_SIZE && !Halts(rs, op)
    ensures Tiled(Step(rs, op), lo, hi) <==> !Hollows(rs, op)
  {
    if Hollows(rs, op) {
      HollowTake(rs, lo, hi, FirstFit(rs, Rounded(op.size, 1024), 0), Rounded(op.size, 1024));
    } else {
      StepKeeps(rs, lo, hi, op);
    }
  }

  lemma HollowTake(rs: seq<Region>, lo: int, hi: int, p: nat, sz: int)
    requires p < |rs| && Hollow(rs[p], sz)
    ensures !Tiled(Take(rs, p, sz), lo, hi)
  {
    TakeSplices(rs, p, sz);
    assert Take(rs, p, sz)[p + 1] == Taken(rs[p], sz)[1];
  }

  /** A heap of 2^31 bytes and a request for more than half of it. */
  lemma CutsToNothing(lo: int, size: int)
    requires 0x4000_0000 < size <= 0x8000_0000
    ensures var rs := [Region(lo, lo + 0x8000_0000, true)];
      Hollows(rs, Alloc(size)) && !Halts(rs, Alloc(size))
  {
    hide Words.Pow2, FirstFit;
    RoundedSmall(size);
    Pow21();
    PowOnce(21);
    var n := RoundedIsLeast(size, 0);
    if n <= 20 {
      Words.Pow2Monotone(n, 20);
    } else {
      Words.Pow2Monotone(21, n);
    }
    OneFits(lo, Rounded(size, 1024));
  }

  lemma OneFits(lo: int, sz: int)
    requires 0 < sz <= 0x8000_0000
    ensures FirstFit([Region(lo, lo + 0x8000_0000, true)], sz, 0) == 0
  {
  }
}
