/** The kernel's memory manager: a pool of block records, the free ones threaded into a doubly linked list
    ordered by address. It is proved against the region model. */
module KernelHeap {
  import opened Regions
  import opened Sequences

  /** The two list sentinels sit behind the pool. */
  const HEAD := 4096
  const TAIL := 4097
  const NIL := -1

  datatype State = UNUSED | UNALLOCATED | ALLOCATED

  /** A block record; records point at each other by index, NIL being the null pointer. */
  datatype Block = Block(state: State, size: int, begin: int, end: int, prev: int, next: int)

  // --------------------------------------------------------------------------
  // The doubly linked ring
  // --------------------------------------------------------------------------

  /** The ring is the head sentinel, the free blocks and the tail sentinel, linked both ways. */
  ghost predicate Linked(mem: seq<Block>, ring: seq<int>) {
    && |mem| == POOL_SIZE + 2 && |ring| >= 2
    && ring[0] == HEAD && ring[|ring| - 1] == TAIL
    && (forall k :: 0 < k < |ring| - 1 ==> 0 <= ring[k] < POOL_SIZE)
    && (forall k :: 0 <= k < |ring| ==> 0 <= ring[k] < |mem|)
    && (forall j, k :: 0 <= j < k < |ring| ==> ring[j] != ring[k])
    && (forall k :: 0 <= k < |ring| - 1 ==> Joined(mem, ring, k))
  }

  /** The k-th ring element and its successor point at each other. */
  ghost predicate Joined(mem: seq<Block>, ring: seq<int>, k: int)
  {
    && 0 <= k < |ring| - 1 && 0 <= ring[k] < |mem| && 0 <= ring[k + 1] < |mem|
    && mem[ring[k]].next == ring[k + 1] && mem[ring[k + 1]].prev == ring[k]
  }

  /** Pool records in ascending address order. */
  ghost predicate Ordered(mem: seq<Block>, s: seq<int>) {
    && |mem| == POOL_SIZE + 2
    && (forall k :: 0 <= k < |s| ==> 0 <= s[k] < POOL_SIZE)
    && (forall j, k :: 0 <= j < k < |s| ==> mem[s[j]].begin < mem[s[k]].begin)
  }

  /** The free blocks, in ascending address order and none missing. */
  ghost predicate Listed(mem: seq<Block>, free: seq<int>) {
    && Ordered(mem, free)
    && (forall k :: 0 <= k < |free| ==> mem[free[k]].state.UNALLOCATED?)
    && (forall i :: 0 <= i < POOL_SIZE && mem[i].state.UNALLOCATED? ==> i in free)
  }

  function Ring(free: seq<int>): seq<int> {
    [HEAD] + free + [TAIL]
  }

  /** Tile k of the pool records region k, and no other record is in use. */
  ghost predicate Records(mem: seq<Block>, tiles: seq<int>, rs: seq<Region>)
    requires |mem| == POOL_SIZE + 2
  {
    && |tiles| == |rs|
    && (forall k :: 0 <= k < |tiles| ==> 0 <= tiles[k] < POOL_SIZE)
    && (forall k :: 0 <= k < |tiles| ==> Shows(mem[tiles[k]], rs[k]))
    && (forall i :: 0 <= i < POOL_SIZE && !mem[i].state.UNUSED? ==> i in tiles)
  }

  ghost predicate Shows(b: Block, r: Region) {
    && b.state == (if r.free then UNALLOCATED else ALLOCATED)
    && b.begin == r.begin && b.end == r.end && b.size == r.Size()
  }

  /** A record between two neighbours of the ring. */
  lemma InsertLinked(mem: seq<Block>, mem': seq<Block>, ring: seq<int>, k: nat, v: int, ring': seq<int>)
    requires Linked(mem, ring) && |mem'| == |mem| && k < |ring| - 1
    requires 0 <= v < POOL_SIZE && v !in ring
    requires mem'[v].prev == ring[k] && mem'[v].next == ring[k + 1]
    requires mem'[ring[k]].next == v && mem'[ring[k + 1]].prev == v
    requires forall j :: 0 <= j < |ring| && j != k ==> mem'[ring[j]].next == mem[ring[j]].next
    requires forall j :: 0 <= j < |ring| && j != k + 1 ==> mem'[ring[j]].prev == mem[ring[j]].prev
    requires ring' == ring[..k + 1] + [v] + ring[k + 1..]
    ensures Linked(mem', ring')
  {
    forall j | 0 <= j < |ring'| - 1
      ensures Joined(mem', ring', j)
    {
      if j < k {
        assert ring'[j] == ring[j] && ring'[j + 1] == ring[j + 1] && Joined(mem, ring, j);
      } else if j > k + 1 {
        assert ring'[j] == ring[j - 1] && ring'[j + 1] == ring[j] && Joined(mem, ring, j - 1);
      }
    }
  }

  /** Taking a record out of the ring. */
  lemma RemoveLinked(mem: seq<Block>, mem': seq<Block>, ring: seq<int>, k: nat, ring': seq<int>)
    requires Linked(mem, ring) && |mem'| == |mem| && 0 < k < |ring| - 1
    requires mem'[ring[k - 1]].next == ring[k + 1] && mem'[ring[k + 1]].prev == ring[k - 1]
    requires forall j :: 0 <= j < |ring| && j != k - 1 && j != k ==> mem'[ring[j]].next == mem[ring[j]].next
    requires forall j :: 0 <= j < |ring| && j != k + 1 && j != k ==> mem'[ring[j]].prev == mem[ring[j]].prev
    requires ring' == ring[..k] + ring[k + 1..]
    ensures Linked(mem', ring')
  {
    forall j | 0 <= j < |ring'| - 1
      ensures Joined(mem', ring', j)
    {
      if j + 1 < k {
        assert ring'[j] == ring[j] && ring'[j + 1] == ring[j + 1] && Joined(mem, ring, j);
      } else if j >= k {
        assert ring'[j] == ring[j + 1] && ring'[j + 1] == ring[j + 2] && Joined(mem, ring, j + 1);
      }
    }
  }

  lemma OrderedInsert(mem: seq<Block>, s: seq<int>, k: nat, v: int, s': seq<int>)
    requires Ordered(mem, s) && k <= |s| && 0 <= v < POOL_SIZE
    requires k > 0 ==> mem[s[k - 1]].begin < mem[v].begin
    requires k < |s| ==> mem[v].begin < mem[s[k]].begin
    requires s' == s[..k] + [v] + s[k..]
    ensures Ordered(mem, s')
  {
    assert forall j :: 0 <= j < k ==> s'[j] == s[j];
    assert forall j :: k < j < |s'| ==> s'[j] == s[j - 1];
    forall i, j | 0 <= i < j < |s'|
      ensures mem[s'[i]].begin < mem[s'[j]].begin
    {
      if i < k {
        assert i < k - 1 ==> mem[s[i]].begin < mem[s[k - 1]].begin;
      }
      if j > k {
        assert k < j - 1 ==> mem[s[k]].begin < mem[s[j - 1]].begin;
      }
    }
  }

  lemma OrderedRemove(mem: seq<Block>, s: seq<int>, k: nat, s': seq<int>)
    requires Ordered(mem, s) && k < |s| && s' == s[..k] + s[k + 1..]
    ensures Ordered(mem, s')
  {
    assert forall j :: 0 <= j < |s'| ==> s'[j] == if j < k then s[j] else s[j + 1];
  }

  /** Order only looks at where blocks begin. */
  lemma OrderedFrame(mem: seq<Block>, mem': seq<Block>, s: seq<int>)
    requires Ordered(mem, s) && |mem'| == |mem|
    requires forall k :: 0 <= k < |s| ==> mem'[s[k]].begin == mem[s[k]].begin
    ensures Ordered(mem', s)
  {
  }

  lemma KeptMember(s: seq<int>, i: nat, j: nat, m: seq<int>, v: int)
    requires i <= j <= |s| && v in s && v !in s[i..j]
    ensures v in s[..i] + m + s[j..]
  {
    assert s == s[..i] + s[i..j] + s[j..];
  }

  // --------------------------------------------------------------------------
  // Pool, ring and regions together
  // --------------------------------------------------------------------------

  ghost predicate Repr(mem: seq<Block>, tiles: seq<int>, free: seq<int>, rs: seq<Region>, lo: int, hi: int) {
    Linked(mem, Ring(free)) && Listed(mem, free) && Records(mem, tiles, rs) && Tiled(rs, lo, hi)
  }

  lemma ReprParts(mem: seq<Block>, tiles: seq<int>, free: seq<int>, rs: seq<Region>, lo: int, hi: int)
    requires Repr(mem, tiles, free, rs, lo, hi)
    ensures |mem| == POOL_SIZE + 2 && POOL_SIZE > 0
    ensures Linked(mem, Ring(free)) && Listed(mem, free) && Records(mem, tiles, rs) && Tiled(rs, lo, hi)
    ensures |tiles| == |rs| && |Ring(free)| == |free| + 2
    ensures forall k :: 0 <= k < |free| ==> 0 <= free[k] < POOL_SIZE && mem[free[k]].state.UNALLOCATED?
    ensures forall k :: 0 <= k < |tiles| ==> 0 <= tiles[k] < POOL_SIZE && Shows(mem[tiles[k]], rs[k])
    ensures forall k :: 0 <= k < |tiles| && !rs[k].free ==>
      mem[tiles[k]].state.ALLOCATED? && tiles[k] !in free && tiles[k] !in Ring(free)
  {
    forall k | 0 <= k < |tiles| && !rs[k].free
      ensures mem[tiles[k]].state.ALLOCATED? && tiles[k] !in free && tiles[k] !in Ring(free)
    {
      assert Shows(mem[tiles[k]], rs[k]);
      OffRing(mem, free, tiles[k]);
    }
  }

  lemma ReprWhole(mem: seq<Block>, tiles: seq<int>, free: seq<int>, rs: seq<Region>, lo: int, hi: int)
    requires |mem| == POOL_SIZE + 2
    requires Linked(mem, Ring(free)) && Listed(mem, free) && Records(mem, tiles, rs) && Tiled(rs, lo, hi)
    ensures Repr(mem, tiles, free, rs, lo, hi)
  {
  }

  lemma TilesDistinct(mem: seq<Block>, tiles: seq<int>, rs: seq<Region>, lo: int, hi: int)
    requires |mem| == POOL_SIZE + 2 && Records(mem, tiles, rs) && Tiled(rs, lo, hi)
    ensures forall i, j :: 0 <= i < j < |tiles| ==> tiles[i] != tiles[j]
  {
    forall i, j | 0 <= i < j < |tiles|
      ensures tiles[i] != tiles[j]
    {
      Ascending(rs, lo, hi, i, j);
      assert Shows(mem[tiles[i]], rs[i]) && Shows(mem[tiles[j]], rs[j]);
    }
  }

  /** The tile of a block in use. */
  lemma TileOf(mem: seq<Block>, tiles: seq<int>, rs: seq<Region>, b: int) returns (p: nat)
    requires |mem| == POOL_SIZE + 2 && Records(mem, tiles, rs) && 0 <= b < POOL_SIZE && !mem[b].state.UNUSED?
    ensures p < |tiles| && tiles[p] == b && Shows(mem[b], rs[p])
  {
    assert b in tiles;
    p :| p < |tiles| && tiles[p] == b;
  }

  /** A block in use that begins behind another one begins at or after its end. */
  lemma BlocksApart(mem: seq<Block>, tiles: seq<int>, rs: seq<Region>, lo: int, hi: int, a: int, b: int)
    requires |mem| == POOL_SIZE + 2 && Records(mem, tiles, rs) && Tiled(rs, lo, hi)
    requires 0 <= a < POOL_SIZE && 0 <= b < POOL_SIZE && !mem[a].state.UNUSED? && !mem[b].state.UNUSED?
    requires mem[a].begin < mem[b].begin
    ensures mem[a].end <= mem[b].begin
  {
    var p := TileOf(mem, tiles, rs, a);
    var q := TileOf(mem, tiles, rs, b);
    if p < q {
      Ascending(rs, lo, hi, p, q);
    } else if q < p {
      Ascending(rs, lo, hi, q, p);
    }
  }

  lemma OffRing(mem: seq<Block>, free: seq<int>, v: int)
    requires Listed(mem, free) && 0 <= v < POOL_SIZE && !mem[v].state.UNALLOCATED?
    ensures v !in free && v !in Ring(free)
  {
  }

  /** Equal up to the list links. */
  ghost predicate SameRecord(b: Block, b': Block) {
    b'.state == b.state && b'.size == b.size && b'.begin == b.begin && b'.end == b.end
  }

  // --------------------------------------------------------------------------
  // Cutting
  // --------------------------------------------------------------------------

  /** The pool after `free_cut`: block b keeps the first sz bytes, the unused record v takes the rest. */
  function CutPool(mem: seq<Block>, b: int, v: int, n: int, sz: int): seq<Block>
    requires 0 <= b < |mem| && 0 <= v < |mem| && 0 <= n < |mem|
  {
    var rest := Block(UNALLOCATED, mem[b].size - sz, mem[b].begin + sz, mem[b].end, b, n);
    mem[v := rest][n := mem[n].(prev := v)][b := mem[b].(next := v, end := mem[b].begin + sz, size := sz)]
  }

  ghost predicate IsCut(mem: seq<Block>, mem': seq<Block>, b: int, v: int, sz: int)
    requires |mem| == |mem'| && 0 <= b < |mem| && 0 <= v < |mem|
  {
    && (forall i :: 0 <= i < |mem| && i != b && i != v ==> SameRecord(mem[i], mem'[i]))
    && SameRecord(Block(UNALLOCATED, mem[b].size - sz, mem[b].begin + sz, mem[b].end, NIL, NIL), mem'[v])
    && SameRecord(mem[b].(end := mem[b].begin + sz, size := sz), mem'[b])
  }

  lemma CutPoolAt(mem: seq<Block>, b: int, v: int, n: int, sz: int)
    requires 0 <= b < |mem| && 0 <= v < |mem| && 0 <= n < |mem| && n != v && n != b && b != v
    ensures |CutPool(mem, b, v, n, sz)| == |mem| && IsCut(mem, CutPool(mem, b, v, n, sz), b, v, sz)
  {
  }

  lemma CutRecords(mem: seq<Block>, mem': seq<Block>, tiles: seq<int>, rs: seq<Region>, p: nat, b: int, v: int,
                   sz: int, tiles': seq<int>)
    requires |mem| == |mem'| == POOL_SIZE + 2 && Records(mem, tiles, rs)
    requires forall i, j :: 0 <= i < j < |tiles| ==> tiles[i] != tiles[j]
    requires p < |tiles| && tiles[p] == b && rs[p].free && 0 < sz < rs[p].Size()
    requires 0 <= v < POOL_SIZE && mem[v].state.UNUSED? && v != b && IsCut(mem, mem', b, v, sz)
    requires tiles' == tiles[..p + 1] + [v] + tiles[p + 1..]
    ensures Records(mem', tiles', Cut(rs, p, sz))
  {
    var rs' := Cut(rs, p, sz);
    forall j | 0 <= j < |tiles'|
      ensures 0 <= tiles'[j] < POOL_SIZE && Shows(mem'[tiles'[j]], rs'[j])
    {
      if j < p {
        assert tiles'[j] == tiles[j] && rs'[j] == rs[j] && Shows(mem[tiles[j]], rs[j]) && tiles[j] != tiles[p];
      } else if j > p + 1 {
        assert tiles'[j] == tiles[j - 1] && rs'[j] == rs[j - 1] && Shows(mem[tiles[j - 1]], rs[j - 1]);
      } else {
        assert Shows(mem[tiles[p]], rs[p]);
      }
    }
    forall i | 0 <= i < POOL_SIZE && !mem'[i].state.UNUSED?
      ensures i in tiles'
    {
      if i != v {
        assert i in tiles;
        KeptMember(tiles, p + 1, p + 1, [v], i);
      } else {
        assert tiles'[p + 1] == v;
      }
    }
  }

  lemma CutListed(mem: seq<Block>, mem': seq<Block>, free: seq<int>, k: nat, b: int, v: int, sz: int, free': seq<int>)
    requires |mem'| == |mem| && Listed(mem, free) && k < |free| && free[k] == b && 0 <= b < POOL_SIZE
    requires 0 <= v < POOL_SIZE && mem[v].state.UNUSED? && 0 < sz && IsCut(mem, mem', b, v, sz)
    requires k + 1 < |free| ==> mem[b].begin + sz < mem[free[k + 1]].begin
    requires free' == free[..k + 1] + [v] + free[k + 1..]
    ensures Listed(mem', free')
  {
    hide Ordered;
    CutFrame(mem, mem', free, b, v, sz);
    OrderedFrame(mem, mem', free);
    OrderedInsert(mem', free, k + 1, v, free');
    InsertedAt(free, k + 1, v, free');
    forall i | 0 <= i < POOL_SIZE && mem'[i].state.UNALLOCATED? && i != v
      ensures i in free'
    {
      assert i in free;
    }
  }

  lemma CutFrame(mem: seq<Block>, mem': seq<Block>, free: seq<int>, b: int, v: int, sz: int)
    requires |mem'| == |mem| && Listed(mem, free)
    requires 0 <= b < POOL_SIZE && 0 <= v < POOL_SIZE && mem[v].state.UNUSED? && mem[b].state.UNALLOCATED?
    requires IsCut(mem, mem', b, v, sz)
    ensures forall k :: 0 <= k < |free| ==>
      0 <= free[k] < POOL_SIZE && free[k] != v && mem'[free[k]].state.UNALLOCATED? && mem'[free[k]].begin == mem[free[k]].begin
    ensures mem'[v].state.UNALLOCATED? && mem'[v].begin == mem[b].begin + sz
    ensures forall i :: 0 <= i < POOL_SIZE && mem'[i].state.UNALLOCATED? && i != v ==> mem[i].state.UNALLOCATED?
  {
  }

  lemma InsertedAt(s: seq<int>, k: nat, v: int, s': seq<int>)
    requires k <= |s| && s' == s[..k] + [v] + s[k..]
    ensures forall j :: 0 <= j < |s'| ==> s'[j] == if j < k then s[j] else if j == k then v else s[j - 1]
    ensures v in s' && forall i :: i in s ==> i in s'
  {
    assert s == s[..k] + s[k..];
    assert s'[k] == v;
  }

  /** Cutting a free block keeps pool, list and regions in step. */
  lemma CutRepr(mem: seq<Block>, tiles: seq<int>, free: seq<int>, rs: seq<Region>, lo: int, hi: int,
                p: nat, k: nat, b: int, v: int, sz: int)
    requires Repr(mem, tiles, free, rs, lo, hi)
    requires p < |tiles| && tiles[p] == b && k < |free| && free[k] == b
    requires 0 < sz < rs[p].Size() && 0 <= v < POOL_SIZE && mem[v].state.UNUSED?
    ensures Repr(CutPool(mem, b, v, Ring(free)[k + 2], sz), tiles[..p + 1] + [v] + tiles[p + 1..],
                 free[..k + 1] + [v] + free[k + 1..], Cut(rs, p, sz), lo, hi)
  {
    hide *;
    ReprParts(mem, tiles, free, rs, lo, hi);
    var n, free', tiles' := Ring(free)[k + 2], free[..k + 1] + [v] + free[k + 1..], tiles[..p + 1] + [v] + tiles[p + 1..];
    var mem' := CutPool(mem, b, v, n, sz);
    CutGap(mem, tiles, free, rs, lo, hi, p, k, b, sz);
    OffRing(mem, free, v);
    CutLinked(mem, free, k, b, v, sz);
    TilesDistinct(mem, tiles, rs, lo, hi);
    CutListed(mem, mem', free, k, b, v, sz, free');
    CutRecords(mem, mem', tiles, rs, p, b, v, sz, tiles');
    CutTiled(rs, lo, hi, p, sz);
    ReprWhole(mem', tiles', free', Cut(rs, p, sz), lo, hi);
  }

  lemma CutGap(mem: seq<Block>, tiles: seq<int>, free: seq<int>, rs: seq<Region>, lo: int, hi: int, p: nat, k: nat, b: int, sz: int)
    requires Repr(mem, tiles, free, rs, lo, hi)
    requires p < |tiles| && p < |rs| && tiles[p] == b && k < |free| && free[k] == b && 0 < sz < rs[p].Size()
    ensures rs[p].free && 0 <= b < POOL_SIZE
    ensures k + 1 < |free| ==> 0 <= free[k + 1] < POOL_SIZE && mem[b].begin + sz < mem[free[k + 1]].begin
  {
    assert Shows(mem[b], rs[p]);
    if k + 1 < |free| {
      BlocksApart(mem, tiles, rs, lo, hi, b, free[k + 1]);
    }
  }

  lemma CutLinked(mem: seq<Block>, free: seq<int>, k: nat, b: int, v: int, sz: int)
    requires Linked(mem, Ring(free)) && k < |free| && free[k] == b && 0 <= v < POOL_SIZE && v !in Ring(free)
    ensures |Ring(free)| == |free| + 2 && 0 <= b < POOL_SIZE && b != v && 0 <= Ring(free)[k + 2] < |mem|
    ensures var mem' := CutPool(mem, b, v, Ring(free)[k + 2], sz);
      && |mem'| == |mem| && Linked(mem', Ring(free[..k + 1] + [v] + free[k + 1..])) && IsCut(mem, mem', b, v, sz)
  {
    hide IsCut;
    var n, free' := Ring(free)[k + 2], free[..k + 1] + [v] + free[k + 1..];
    assert Ring(free)[k + 1] == b;
    assert Ring(free') == Ring(free)[..k + 2] + [v] + Ring(free)[k + 2..];
    InsertLinked(mem, CutPool(mem, b, v, n, sz), Ring(free), k + 1, v, Ring(free'));
    CutPoolAt(mem, b, v, n, sz);
  }

  // --------------------------------------------------------------------------
  // Taking a block off the list, and putting one on
  // --------------------------------------------------------------------------

  /** Only block b changes, and it only changes its state. */
  ghost predicate OnlyState(mem: seq<Block>, mem': seq<Block>, b: int, state: State)
    requires |mem| == |mem'| && 0 <= b < |mem|
  {
    && (forall i :: 0 <= i < |mem| && i != b ==> SameRecord(mem[i], mem'[i]))
    && SameRecord(mem[b].(state := state), mem'[b])
  }

  lemma StateRecords(mem: seq<Block>, mem': seq<Block>, tiles: seq<int>, rs: seq<Region>, p: nat, b: int, free: bool)
    requires |mem| == |mem'| == POOL_SIZE + 2 && Records(mem, tiles, rs)
    requires forall i, j :: 0 <= i < j < |tiles| ==> tiles[i] != tiles[j]
    requires p < |tiles| && tiles[p] == b && OnlyState(mem, mem', b, if free then UNALLOCATED else ALLOCATED)
    ensures Records(mem', tiles, rs[p := rs[p].(free := free)])
  {
    var rs' := rs[p := rs[p].(free := free)];
    forall j | 0 <= j < |tiles|
      ensures Shows(mem'[tiles[j]], rs'[j])
    {
      assert Shows(mem[tiles[j]], rs[j]);
    }
    assert b in tiles;
  }

  /** The pool after `free_delete` of block b between its neighbours f and l. */
  function DeletePool(mem: seq<Block>, b: int, f: int, l: int): seq<Block>
    requires 0 <= b < |mem| && 0 <= f < |mem| && 0 <= l < |mem|
  {
    mem[f := mem[f].(next := l)][l := mem[l].(prev := f)][b := mem[b].(prev := NIL, next := NIL, state := ALLOCATED)]
  }

  lemma DeletePoolAt(mem: seq<Block>, b: int, f: int, l: int)
    requires 0 <= b < |mem| && 0 <= f < |mem| && 0 <= l < |mem| && b != f && b != l && f != l
    ensures |DeletePool(mem, b, f, l)| == |mem| && OnlyState(mem, DeletePool(mem, b, f, l), b, ALLOCATED)
  {
  }

  lemma DeleteListed(mem: seq<Block>, mem': seq<Block>, free: seq<int>, k: nat, b: int, free': seq<int>)
    requires |mem'| == |mem| && Listed(mem, free) && k < |free| && free[k] == b && 0 <= b < POOL_SIZE
    requires OnlyState(mem, mem', b, ALLOCATED) && free' == free[..k] + free[k + 1..]
    ensures Listed(mem', free')
  {
    OrderedFrame(mem, mem', free);
    OrderedRemove(mem', free, k, free');
    RemovedAt(mem', free, k, free');
  }

  lemma RemovedAt(mem: seq<Block>, s: seq<int>, k: nat, s': seq<int>)
    requires Ordered(mem, s) && k < |s| && s' == s[..k] + s[k + 1..]
    ensures forall j :: 0 <= j < |s'| ==> s'[j] == (if j < k then s[j] else s[j + 1]) && s'[j] != s[k]
    ensures forall i :: i in s && i != s[k] ==> i in s'
  {
    assert s == s[..k] + [s[k]] + s[k + 1..];
  }

  lemma DeleteLinked(mem: seq<Block>, free: seq<int>, k: nat, b: int)
    requires Linked(mem, Ring(free)) && k < |free| && free[k] == b
    ensures 0 <= b < POOL_SIZE && 0 <= Ring(free)[k] < |mem| && 0 <= Ring(free)[k + 2] < |mem|
    ensures var mem' := DeletePool(mem, b, Ring(free)[k], Ring(free)[k + 2]);
      && |mem'| == |mem| && Linked(mem', Ring(free[..k] + free[k + 1..])) && OnlyState(mem, mem', b, ALLOCATED)
  {
    hide OnlyState;
    var free' := free[..k] + free[k + 1..];
    assert Ring(free)[k + 1] == b;
    assert Ring(free') == Ring(free)[..k + 1] + Ring(free)[k + 2..];
    RemoveLinked(mem, DeletePool(mem, b, Ring(free)[k], Ring(free)[k + 2]), Ring(free), k + 1, Ring(free'));
    DeletePoolAt(mem, b, Ring(free)[k], Ring(free)[k + 2]);
  }

  lemma StateTiled(rs: seq<Region>, lo: int, hi: int, p: nat, free: bool)
    requires Tiled(rs, lo, hi) && p < |rs|
    ensures Tiled(rs[p := rs[p].(free := free)], lo, hi)
  {
  }

  /** Deleting a free block from the list marks its region allocated. */
  lemma DeleteRepr(mem: seq<Block>, tiles: seq<int>, free: seq<int>, rs: seq<Region>, lo: int, hi: int, p: nat, k: nat, b: int)
    requires Repr(mem, tiles, free, rs, lo, hi)
    requires p < |tiles| && tiles[p] == b && k < |free| && free[k] == b
    ensures Repr(DeletePool(mem, b, Ring(free)[k], Ring(free)[k + 2]), tiles,
                 free[..k] + free[k + 1..], rs[p := rs[p].(free := false)], lo, hi)
  {
    hide *;
    ReprParts(mem, tiles, free, rs, lo, hi);
    var f, l, free' := Ring(free)[k], Ring(free)[k + 2], free[..k] + free[k + 1..];
    var mem' := DeletePool(mem, b, f, l);
    DeleteLinked(mem, free, k, b);
    TilesDistinct(mem, tiles, rs, lo, hi);
    DeleteListed(mem, mem', free, k, b, free');
    StateRecords(mem, mem', tiles, rs, p, b, false);
    StateTiled(rs, lo, hi, p, false);
    ReprWhole(mem', tiles, free', rs[p := rs[p].(free := false)], lo, hi);
  }

  /** The pool after linking the allocated block b between f and l (lines 196-198). */
  function InsertPool(mem: seq<Block>, b: int, f: int, l: int): seq<Block>
    requires 0 <= b < |mem| && 0 <= f < |mem| && 0 <= l < |mem|
  {
    mem[f := mem[f].(next := b)][l := mem[l].(prev := b)][b := mem[b].(prev := f, next := l, state := UNALLOCATED)]
  }

  lemma InsertPoolAt(mem: seq<Block>, b: int, f: int, l: int)
    requires 0 <= b < |mem| && 0 <= f < |mem| && 0 <= l < |mem| && b != f && b != l && f != l
    ensures |InsertPool(mem, b, f, l)| == |mem| && OnlyState(mem, InsertPool(mem, b, f, l), b, UNALLOCATED)
  {
  }

  lemma InsertListed(mem: seq<Block>, mem': seq<Block>, free: seq<int>, k: nat, b: int, free': seq<int>)
    requires |mem'| == |mem| && Listed(mem, free) && k <= |free| && 0 <= b < POOL_SIZE && mem[b].state.ALLOCATED?
    requires OnlyState(mem, mem', b, UNALLOCATED) && free' == free[..k] + [b] + free[k..]
    requires k > 0 ==> mem[free[k - 1]].begin < mem[b].begin
    requires k < |free| ==> mem[b].begin < mem[free[k]].begin
    ensures Listed(mem', free')
  {
    OrderedFrame(mem, mem', free);
    OrderedInsert(mem', free, k, b, free');
    InsertedAt(free, k, b, free');
  }

  lemma InsertRing(mem: seq<Block>, free: seq<int>, k: nat, b: int)
    requires Linked(mem, Ring(free)) && k <= |free| && 0 <= b < POOL_SIZE && b !in Ring(free)
    ensures 0 <= Ring(free)[k] < |mem| && 0 <= Ring(free)[k + 1] < |mem|
    ensures var mem' := InsertPool(mem, b, Ring(free)[k], Ring(free)[k + 1]);
      && |mem'| == |mem| && Linked(mem', Ring(free[..k] + [b] + free[k..])) && OnlyState(mem, mem', b, UNALLOCATED)
  {
    hide OnlyState;
    var free' := free[..k] + [b] + free[k..];
    assert Ring(free') == Ring(free)[..k + 1] + [b] + Ring(free)[k + 1..];
    InsertLinked(mem, InsertPool(mem, b, Ring(free)[k], Ring(free)[k + 1]), Ring(free), k, b, Ring(free'));
    InsertPoolAt(mem, b, Ring(free)[k], Ring(free)[k + 1]);
  }

  /** Linking an allocated block in marks its region free. */
  lemma InsertRepr(mem: seq<Block>, tiles: seq<int>, free: seq<int>, rs: seq<Region>, lo: int, hi: int, p: nat, k: nat, b: int)
    requires Repr(mem, tiles, free, rs, lo, hi)
    requires p < |tiles| && tiles[p] == b && !rs[p].free && k <= |free|
    requires k > 0 ==> mem[free[k - 1]].begin < mem[b].begin
    requires k < |free| ==> mem[b].begin < mem[free[k]].begin
    ensures Repr(InsertPool(mem, b, Ring(free)[k], Ring(free)[k + 1]), tiles,
                 free[..k] + [b] + free[k..], rs[p := rs[p].(free := true)], lo, hi)
  {
    hide *;
    ReprParts(mem, tiles, free, rs, lo, hi);
    var f, l, free' := Ring(free)[k], Ring(free)[k + 1], free[..k] + [b] + free[k..];
    var mem' := InsertPool(mem, b, f, l);
    InsertRing(mem, free, k, b);
    TilesDistinct(mem, tiles, rs, lo, hi);
    InsertListed(mem, mem', free, k, b, free');
    StateRecords(mem, mem', tiles, rs, p, b, true);
    StateTiled(rs, lo, hi, p, true);
    ReprWhole(mem', tiles, free', rs[p := rs[p].(free := true)], lo, hi);
  }

  // --------------------------------------------------------------------------
  // Merging
  // --------------------------------------------------------------------------

  /** Two neighbouring regions joined. */
  function Joining(rs: seq<Region>, p: nat): seq<Region>
    requires p + 1 < |rs|
  {
    rs[..p] + [Region(rs[p].begin, rs[p + 1].end, true)] + rs[p + 2..]
  }

  /** The pool after `free_merge` of f with the adjacent block l, which n follows on the list. */
  function MergePool(mem: seq<Block>, f: int, l: int, n: int): seq<Block>
    requires 0 <= f < |mem| && 0 <= l < |mem| && 0 <= n < |mem|
  {
    mem[n := mem[n].(prev := f)][l := mem[l].(prev := NIL, next := NIL, state := UNUSED)]
       [f := mem[f].(next := n, end := mem[l].end, size := mem[l].end - mem[f].begin)]
  }

  ghost predicate IsMerge(mem: seq<Block>, mem': seq<Block>, f: int, l: int)
    requires |mem| == |mem'| && 0 <= f < |mem| && 0 <= l < |mem|
  {
    && (forall i :: 0 <= i < |mem| && i != f && i != l ==> SameRecord(mem[i], mem'[i]))
    && mem'[l].state.UNUSED?
    && SameRecord(mem[f].(end := mem[l].end, size := mem[l].end - mem[f].begin), mem'[f])
  }

  lemma MergePoolAt(mem: seq<Block>, f: int, l: int, n: int)
    requires 0 <= f < |mem| && 0 <= l < |mem| && 0 <= n < |mem| && f != l && f != n && l != n
    ensures |MergePool(mem, f, l, n)| == |mem| && IsMerge(mem, MergePool(mem, f, l, n), f, l)
  {
  }

  lemma MergeRecords(mem: seq<Block>, mem': seq<Block>, tiles: seq<int>, rs: seq<Region>, p: nat, f: int, l: int, tiles': seq<int>)
    requires |mem| == |mem'| == POOL_SIZE + 2 && Records(mem, tiles, rs)
    requires forall i, j :: 0 <= i < j < |tiles| ==> tiles[i] != tiles[j]
    requires p + 1 < |tiles| && tiles[p] == f && tiles[p + 1] == l && rs[p].free && IsMerge(mem, mem', f, l)
    requires tiles' == tiles[..p + 1] + tiles[p + 2..]
    ensures Records(mem', tiles', Joining(rs, p))
  {
    var rs' := Joining(rs, p);
    forall j | 0 <= j < |tiles'|
      ensures 0 <= tiles'[j] < POOL_SIZE && Shows(mem'[tiles'[j]], rs'[j])
    {
      if j < p {
        assert tiles'[j] == tiles[j] && rs'[j] == rs[j] && Shows(mem[tiles[j]], rs[j]);
      } else if j > p {
        assert tiles'[j] == tiles[j + 1] && rs'[j] == rs[j + 1] && Shows(mem[tiles[j + 1]], rs[j + 1]);
      } else {
        assert Shows(mem[tiles[p]], rs[p]) && Shows(mem[tiles[p + 1]], rs[p + 1]);
      }
    }
    forall i | 0 <= i < POOL_SIZE && !mem'[i].state.UNUSED?
      ensures i in tiles'
    {
      assert i in tiles;
      assert tiles == tiles[..p + 1] + [l] + tiles[p + 2..];
    }
  }

  lemma MergeListed(mem: seq<Block>, mem': seq<Block>, free: seq<int>, k: nat, f: int, l: int, free': seq<int>)
    requires |mem'| == |mem| && Listed(mem, free) && k + 1 < |free| && free[k] == f && free[k + 1] == l
    requires 0 <= f < POOL_SIZE && 0 <= l < POOL_SIZE && f != l
    requires IsMerge(mem, mem', f, l) && free' == free[..k + 1] + free[k + 2..]
    ensures Listed(mem', free')
  {
    OrderedRemove(mem, free, k + 1, free');
    RemovedAt(mem, free, k + 1, free');
    OrderedFrame(mem, mem', free');
  }

  lemma LinkedParts(mem: seq<Block>, ring: seq<int>)
    requires Linked(mem, ring)
    ensures |mem| == POOL_SIZE + 2 && |ring| >= 2
    ensures forall k :: 0 < k < |ring| - 1 ==> 0 <= ring[k] < POOL_SIZE
    ensures forall k :: 0 <= k < |ring| ==> 0 <= ring[k] < |mem|
    ensures forall j, k :: 0 <= j < k < |ring| ==> ring[j] != ring[k]
  {
  }

  lemma MergeLinked(mem: seq<Block>, free: seq<int>, k: nat, f: int, l: int)
    requires Linked(mem, Ring(free)) && k + 1 < |free| && free[k] == f && free[k + 1] == l
    ensures 0 <= f < POOL_SIZE && 0 <= l < POOL_SIZE && f != l && 0 <= Ring(free)[k + 3] < |mem|
    ensures var mem' := MergePool(mem, f, l, Ring(free)[k + 3]);
      && |mem'| == |mem| && Linked(mem', Ring(free[..k + 1] + free[k + 2..])) && IsMerge(mem, mem', f, l)
  {
    hide IsMerge, Linked;
    LinkedParts(mem, Ring(free));
    var n, free' := Ring(free)[k + 3], free[..k + 1] + free[k + 2..];
    assert Ring(free)[k + 1] == f && Ring(free)[k + 2] == l;
    assert Ring(free') == Ring(free)[..k + 2] + Ring(free)[k + 3..];
    RemoveLinked(mem, MergePool(mem, f, l, n), Ring(free), k + 2, Ring(free'));
    MergePoolAt(mem, f, l, n);
  }

  lemma JoiningTiled(rs: seq<Region>, lo: int, hi: int, p: nat)
    requires Tiled(rs, lo, hi) && p + 1 < |rs|
    ensures Tiled(Joining(rs, p), lo, hi)
  {
    SpliceTiled(rs, lo, hi, p, p + 2, [Region(rs[p].begin, rs[p + 1].end, true)]);
  }

  /** Merging two touching free blocks joins their regions. */
  lemma MergeRepr(mem: seq<Block>, tiles: seq<int>, free: seq<int>, rs: seq<Region>, lo: int, hi: int, p: nat, k: nat, f: int, l: int)
    requires Repr(mem, tiles, free, rs, lo, hi)
    requires p + 1 < |tiles| && tiles[p] == f && tiles[p + 1] == l && k + 1 < |free| && free[k] == f && free[k + 1] == l
    ensures Repr(MergePool(mem, f, l, Ring(free)[k + 3]), tiles[..p + 1] + tiles[p + 2..],
                 free[..k + 1] + free[k + 2..], Joining(rs, p), lo, hi)
  {
    hide *;
    ReprParts(mem, tiles, free, rs, lo, hi);
    var n, free', tiles' := Ring(free)[k + 3], free[..k + 1] + free[k + 2..], tiles[..p + 1] + tiles[p + 2..];
    var mem' := MergePool(mem, f, l, n);
    MergeLinked(mem, free, k, f, l);
    TilesDistinct(mem, tiles, rs, lo, hi);
    MergeListed(mem, mem', free, k, f, l, free');
    MergeRecords(mem, mem', tiles, rs, p, f, l, tiles');
    JoiningTiled(rs, lo, hi, p);
    ReprWhole(mem', tiles', free', Joining(rs, p), lo, hi);
  }

  // --------------------------------------------------------------------------
  // Where a freed block belongs
  // --------------------------------------------------------------------------

  /** Block b belongs in front of the k-th free block. */
  ghost predicate Between(mem: seq<Block>, free: seq<int>, k: nat, b: int) {
    && 0 <= b < |mem| && k <= |free|
    && (k > 0 ==> 0 <= free[k - 1] < |mem| && mem[free[k - 1]].begin < mem[b].begin)
    && (k < |free| ==> 0 <= free[k] < |mem| && mem[b].begin < mem[free[k]].begin)
  }

  /** The block on the right can be merged exactly when the next free block touches. */
  lemma RightTouch(mem: seq<Block>, tiles: seq<int>, free: seq<int>, rs: seq<Region>, lo: int, hi: int, p: nat, k: nat)
    requires Repr(mem, tiles, free, rs, lo, hi) && p < |tiles| && p < |rs| && !rs[p].free && Between(mem, free, k, tiles[p])
    ensures k < |free| && mem[tiles[p]].end == mem[free[k]].begin ==>
      p + 1 < |rs| && p + 1 < |tiles| && rs[p + 1].free && tiles[p + 1] == free[k]
    ensures p + 1 < |rs| && rs[p + 1].free ==> k < |free| && mem[tiles[p]].end == mem[free[k]].begin
  {
    assert Shows(mem[tiles[p]], rs[p]);
    if k < |free| && mem[tiles[p]].end == mem[free[k]].begin {
      var q := TileOf(mem, tiles, rs, free[k]);
      if p + 1 < |rs| {
        BeginsDistinct(rs, lo, hi, p + 1, q);
      } else {
        assert q < p;
        Ascending(rs, lo, hi, q, p);
      }
    }
    if p + 1 < |rs| && rs[p + 1].free {
      var n := tiles[p + 1];
      assert Shows(mem[n], rs[p + 1]) && n in free;
      var j :| 0 <= j < |free| && free[j] == n;
      assert k <= j;
      BlocksApart(mem, tiles, rs, lo, hi, tiles[p], free[k]);
    }
  }

  lemma LeftTouch(mem: seq<Block>, tiles: seq<int>, free: seq<int>, rs: seq<Region>, lo: int, hi: int, p: nat, k: nat)
    requires Repr(mem, tiles, free, rs, lo, hi) && p < |tiles| && p < |rs| && !rs[p].free && Between(mem, free, k, tiles[p])
    ensures k > 0 && mem[free[k - 1]].end == mem[tiles[p]].begin ==> p > 0 && rs[p - 1].free && tiles[p - 1] == free[k - 1]
    ensures p > 0 && rs[p - 1].free ==> k > 0 && mem[free[k - 1]].end == mem[tiles[p]].begin
  {
    assert Shows(mem[tiles[p]], rs[p]);
    if k > 0 && mem[free[k - 1]].end == mem[tiles[p]].begin {
      var q := TileOf(mem, tiles, rs, free[k - 1]);
      assert q < p by {
        if p < q {
          Ascending(rs, lo, hi, p, q);
        }
      }
      if q + 1 < p {
        Ascending(rs, lo, hi, q + 1, p);
      }
    }
    if p > 0 && rs[p - 1].free {
      var n := tiles[p - 1];
      assert Shows(mem[n], rs[p - 1]) && n in free;
      var j :| 0 <= j < |free| && free[j] == n;
      assert j < k;
      BlocksApart(mem, tiles, rs, lo, hi, free[k - 1], tiles[p]);
      if j < k - 1 {
        BlocksApart(mem, tiles, rs, lo, hi, free[j], free[k - 1]);
      }
    }
  }

  lemma BetweenMeans(mem: seq<Block>, free: seq<int>, k: nat, b: int)
    requires Between(mem, free, k, b)
    ensures 0 <= b < |mem| && k <= |free|
    ensures k > 0 ==> 0 <= free[k - 1] < |mem| && mem[free[k - 1]].begin < mem[b].begin
    ensures k < |free| ==> 0 <= free[k] < |mem| && mem[b].begin < mem[free[k]].begin
  {
  }

  /** The allocated block and its two neighbours-to-be are three different records. */
  lemma InsertDistinct(mem: seq<Block>, tiles: seq<int>, free: seq<int>, rs: seq<Region>, lo: int, hi: int, p: nat, k: nat)
    requires Repr(mem, tiles, free, rs, lo, hi) && p < |tiles| && p < |rs| && !rs[p].free && k <= |free|
    ensures |Ring(free)| == |free| + 2 && 0 <= tiles[p] < POOL_SIZE
    ensures Ring(free)[k] != tiles[p] && Ring(free)[k + 1] != tiles[p] && Ring(free)[k] != Ring(free)[k + 1]
    ensures k > 0 ==> Ring(free)[k] < POOL_SIZE
    ensures k < |free| ==> Ring(free)[k + 1] < POOL_SIZE
  {
    assert Shows(mem[tiles[p]], rs[p]);
    OffRing(mem, free, tiles[p]);
  }

  /** Marking a region free and joining it with its free neighbours is what Give does in one step. */
  lemma GiveSteps(rs: seq<Region>, p: nat)
    requires p < |rs| && !rs[p].free
    ensures var rs1 := rs[p := rs[p].(free := true)];
      var rs2 := if p + 1 < |rs| && rs[p + 1].free then Joining(rs1, p) else rs1;
      Give(rs, p) == if p > 0 && rs[p - 1].free then Joining(rs2, p - 1) else rs2
  {
    var rs1 := rs[p := rs[p].(free := true)];
    var rs2 := if p + 1 < |rs| && rs[p + 1].free then Joining(rs1, p) else rs1;
    var j := High(rs, p);
    assert rs2 == rs[..p] + [Region(rs[p].begin, rs[j - 1].end, true)] + rs[j..];
    if p > 0 && rs[p - 1].free {
      assert rs2[p - 1] == rs[p - 1] && rs2[p] == Region(rs[p].begin, rs[j - 1].end, true);
      assert rs2[..p - 1] == rs[..p - 1] && rs2[p + 1..] == rs[j..];
    }
  }

  // --------------------------------------------------------------------------
  // Searching the pool finds what the regions say
  // --------------------------------------------------------------------------

  lemma {:induction false} FirstFitIs(rs: seq<Region>, sz: int, p: nat, k: nat)
    requires k <= p <= |rs| && forall q :: k <= q < p ==> !(rs[q].free && rs[q].Size() >= sz)
    requires p < |rs| ==> rs[p].free && rs[p].Size() >= sz
    ensures FirstFit(rs, sz, k) == p
    decreases p - k
  {
    if k < p {
      FirstFitIs(rs, sz, p, k + 1);
    }
  }

  lemma FirstFitMeans(rs: seq<Region>, sz: int)
    ensures var p := FirstFit(rs, sz, 0); p <= |rs| && (p < |rs| ==> rs[p].free && rs[p].Size() >= sz)
  {
  }

  /** Everything about the block that first fit takes. */
  lemma FitTaken(rs: seq<Region>, lo: int, hi: int, sz: int)
    requires Tiled(rs, lo, hi) && Coalesced(rs) && 0 < sz <= 0x8000_0000 && FirstFit(rs, sz, 0) < |rs|
    requires !Hollow(rs[FirstFit(rs, sz, 0)], sz)
    ensures var p := FirstFit(rs, sz, 0);
      var rs' := Take(rs, p, sz);
      && sz <= rs[p].Size() <= hi - lo && (Cuts(rs[p], sz) ==> sz < rs[p].Size()) && rs[p].begin >= lo && Coalesced(rs')
      && p < |rs'| && rs'[p].begin == rs[p].begin && sz <= rs'[p].Size() < 2 * sz && Used(rs') == Used(rs) + rs'[p].Size()
      && rs'[p].Size() == (if Cuts(rs[p], sz) then sz else rs[p].Size())
      && |rs'| == |rs| + (if Cuts(rs[p], sz) then 1 else 0)
      && (Cuts(rs[p], sz) <==> rs[p].Size() >= 2 * sz || sz == 0x8000_0000)
      && (Cuts(rs[p], sz) ==> p < |Cut(rs, p, sz)| && rs' == Cut(rs, p, sz)[p := Cut(rs, p, sz)[p].(free := false)])
      && (!Cuts(rs[p], sz) ==> rs' == rs[p := rs[p].(free := false)])
  {
    hide Used, Tiled, Coalesced;
    FirstFitMeans(rs, sz);
    TakeKeeps(rs, lo, hi, FirstFit(rs, sz, 0), sz);
    WithinHeap(rs, lo, hi, FirstFit(rs, sz, 0));
  }

  lemma ScanMisses(mem: seq<Block>, tiles: seq<int>, free: seq<int>, rs: seq<Region>, lo: int, hi: int, sz: int)
    requires Repr(mem, tiles, free, rs, lo, hi)
    requires forall j :: 0 <= j < |free| ==> 0 <= free[j] < |mem| && mem[free[j]].size < sz
    ensures FirstFit(rs, sz, 0) == |rs|
  {
    forall q | 0 <= q < |rs| && rs[q].free
      ensures rs[q].Size() < sz
    {
      assert Shows(mem[tiles[q]], rs[q]) && tiles[q] in free;
    }
    FirstFitIs(rs, sz, |rs|, 0);
  }

  lemma ScanHits(mem: seq<Block>, tiles: seq<int>, free: seq<int>, rs: seq<Region>, lo: int, hi: int, sz: int, p: nat, k: nat)
    requires Repr(mem, tiles, free, rs, lo, hi) && p < |tiles| && p < |rs| && k < |free| && free[k] == tiles[p]
    requires 0 <= free[k] < |mem| && mem[free[k]].size >= sz
    requires forall j :: 0 <= j < k ==> 0 <= free[j] < |mem| && mem[free[j]].size < sz
    ensures FirstFit(rs, sz, 0) == p
  {
    assert Shows(mem[tiles[p]], rs[p]);
    forall q | 0 <= q < p && rs[q].free
      ensures rs[q].Size() < sz
    {
      assert Shows(mem[tiles[q]], rs[q]) && tiles[q] in free;
      var j :| 0 <= j < |free| && free[j] == tiles[q];
      Ascending(rs, lo, hi, q, p);
      assert j < k;
    }
    FirstFitIs(rs, sz, p, 0);
  }

  lemma {:induction false} AllocatedAtIs(rs: seq<Region>, address: int, p: nat, k: nat)
    requires k <= p <= |rs| && forall q :: k <= q < p ==> rs[q].free || rs[q].begin != address
    requires p < |rs| ==> !rs[p].free && rs[p].begin == address
    ensures AllocatedAt(rs, address, k) == p
    decreases p - k
  {
    if k < p {
      AllocatedAtIs(rs, address, p, k + 1);
    }
  }

  lemma NoneAllocatedAt(mem: seq<Block>, tiles: seq<int>, free: seq<int>, rs: seq<Region>, lo: int, hi: int, address: int)
    requires Repr(mem, tiles, free, rs, lo, hi)
    requires forall i :: 0 <= i < POOL_SIZE ==> i < |mem| && !(mem[i].state.ALLOCATED? && mem[i].begin == address)
    ensures AllocatedAt(rs, address, 0) == |rs|
  {
    forall q | 0 <= q < |rs| && !rs[q].free
      ensures rs[q].begin != address
    {
      assert Shows(mem[tiles[q]], rs[q]);
    }
    AllocatedAtIs(rs, address, |rs|, 0);
  }

  lemma OneAllocatedAt(mem: seq<Block>, tiles: seq<int>, free: seq<int>, rs: seq<Region>, lo: int, hi: int, address: int, b: int)
    returns (p: nat)
    requires Repr(mem, tiles, free, rs, lo, hi)
    requires 0 <= b < POOL_SIZE && b < |mem| && mem[b].state.ALLOCATED? && mem[b].begin == address
    ensures p < |tiles| && p < |rs| && tiles[p] == b && !rs[p].free && mem[b].size == rs[p].Size()
    ensures AllocatedAt(rs, address, 0) == p
  {
    p := TileOf(mem, tiles, rs, b);
    forall q | 0 <= q < p
      ensures rs[q].begin != address
    {
      Ascending(rs, lo, hi, q, p);
    }
    AllocatedAtIs(rs, address, p, 0);
  }

  predicate SameSpan(b: Block, b': Block) {
    b.begin == b'.begin && b.end == b'.end
  }

  // The order in which the code writes the fields does not matter for the result.

  lemma CutWritten(mem: seq<Block>, mem': seq<Block>, b: int, v: int, n: int, sz: int)
    requires |mem'| == |mem| && 0 <= b < |mem| && 0 <= v < |mem| && 0 <= n < |mem| && b != v && b != n && v != n
    requires forall i :: 0 <= i < |mem| && i != b && i != v && i != n ==> mem'[i] == mem[i]
    requires mem'[n] == mem[n].(prev := v)
    requires mem'[v] == Block(UNALLOCATED, mem[b].size - sz, mem[b].begin + sz, mem[b].end, b, n)
    requires mem'[b] == mem[b].(next := v, end := mem[b].begin + sz, size := sz)
    ensures mem' == CutPool(mem, b, v, n, sz)
  {
  }

  lemma DeleteWritten(mem: seq<Block>, mem': seq<Block>, b: int, f: int, l: int)
    requires |mem'| == |mem| && 0 <= b < |mem| && 0 <= f < |mem| && 0 <= l < |mem| && b != f && b != l && f != l
    requires forall i :: 0 <= i < |mem| && i != b && i != f && i != l ==> mem'[i] == mem[i]
    requires mem'[f] == mem[f].(next := l) && mem'[l] == mem[l].(prev := f)
    requires mem'[b] == mem[b].(prev := NIL, next := NIL, state := ALLOCATED)
    ensures mem' == DeletePool(mem, b, f, l)
  {
  }

  lemma InsertWritten(mem: seq<Block>, mem': seq<Block>, b: int, f: int, l: int)
    requires |mem'| == |mem| && 0 <= b < |mem| && 0 <= f < |mem| && 0 <= l < |mem| && b != f && b != l && f != l
    requires forall i :: 0 <= i < |mem| && i != b && i != f && i != l ==> mem'[i] == mem[i]
    requires mem'[f] == mem[f].(next := b) && mem'[l] == mem[l].(prev := b)
    requires mem'[b] == mem[b].(prev := f, next := l, state := UNALLOCATED)
    ensures mem' == InsertPool(mem, b, f, l)
  {
  }

  lemma MergeWritten(mem: seq<Block>, mem': seq<Block>, f: int, l: int, n: int)
    requires |mem'| == |mem| && 0 <= f < |mem| && 0 <= l < |mem| && 0 <= n < |mem| && f != l && f != n && l != n
    requires forall i :: 0 <= i < |mem| && i != f && i != l && i != n ==> mem'[i] == mem[i]
    requires mem'[n] == mem[n].(prev := f) && mem'[l] == mem[l].(prev := NIL, next := NIL, state := UNUSED)
    requires mem'[f] == mem[f].(next := n, end := mem[l].end, size := mem[l].end - mem[f].begin)
    ensures mem' == MergePool(mem, f, l, n)
  {
  }

  // --------------------------------------------------------------------------
  // The memory manager
  // --------------------------------------------------------------------------

  lemma InitialRepr(mem: seq<Block>, begin: int, end: int)
    requires |mem| == POOL_SIZE + 2 && begin < end
    requires mem[HEAD].prev == NIL && mem[HEAD].next == 0 && mem[TAIL].prev == 0 && mem[TAIL].next == NIL
    requires mem[0] == Block(UNALLOCATED, end - begin, begin, end, HEAD, TAIL)
    requires forall i :: 0 < i < POOL_SIZE ==> mem[i].state.UNUSED?
    ensures Repr(mem, [0], [0], [Region(begin, end, true)], begin, end)
  {
    assert Joined(mem, Ring([0]), 0) && Joined(mem, Ring([0]), 1);
  }

  /** An allocation request ends with the null pointer, with an address, or in a failed assertion that stops the
      kernel: no large enough block, or no spare pool record. Or it does not end, or it cuts a block into all and
      nothing, after which the list shows no regions. */
  datatype Allocation = Null | Address(begin: int) | NoBlock | NoRecord | Endless | EmptyBlock

  /** Every record of the pool is in use. */
  ghost predicate NoSpare(mem: seq<Block>) {
    |mem| == POOL_SIZE + 2 && forall i :: 0 <= i < POOL_SIZE ==> !mem[i].state.UNUSED?
  }

  class Pmm {
    const pool: array<Block>
    var listSize: int
    var pmStart: int
    var pmEnd: int
    /** The byte count that procfs traces. */
    var memUsed: int

    /** Pool records in address order, one per region. */
    ghost var tiles: seq<int>
    /** The free list, without its sentinels. */
    ghost var free: seq<int>
    ghost var regions: seq<Region>

    /** What holds between any two list operations. */
    ghost predicate Threaded()
      reads this, pool
    {
      Repr(pool[..], tiles, free, regions, pmStart, pmEnd) && listSize == |free|
    }

    ghost predicate Valid()
      reads this, pool
    {
      Threaded() && Coalesced(regions) && memUsed == Used(regions) && 0 < pmStart < pmEnd < 0x1_0000_0000
    }

    /** pmm_init over the given heap area. */
    constructor (begin: int, end: int)
      requires 0 < begin < end < 0x1_0000_0000
      ensures Valid() && fresh(pool)
      ensures pmStart == begin && pmEnd == end && regions == [Region(begin, end, true)]
    {
      hide Repr;
      pmStart, pmEnd, memUsed, listSize := begin, end, 0, 1;
      var unused := Block(UNUSED, 0, 0, 0, NIL, NIL);
      pool := new Block[POOL_SIZE + 2](i => unused);
      new;
      pool[HEAD] := pool[HEAD].(prev := NIL, next := 0);
      pool[TAIL] := pool[TAIL].(prev := 0, next := NIL);
      pool[0] := Block(UNALLOCATED, end - begin, begin, end, HEAD, TAIL);
      tiles, free, regions := [0], [0], [Region(begin, end, true)];
      InitialRepr(pool[..], begin, end);
      FreeUsed(regions[0]);
    }

    /** The first pool record not in use, or -1. */
    method GetUnusedBlock() returns (ret: int)
      requires pool.Length == POOL_SIZE + 2
      ensures -1 <= ret < POOL_SIZE
      ensures ret >= 0 ==> pool[ret].state.UNUSED?
      ensures ret < 0 <==> NoSpare(pool[..])
    {
      ret := -1;
      var i := 0;
      while i < POOL_SIZE
        invariant 0 <= i <= POOL_SIZE && ret == -1
        invariant forall j :: 0 <= j < i ==> !pool[j].state.UNUSED?
      {
        if pool[i].state == UNUSED {
          ret := i;
          break;
        }
        i := i + 1;
      }
    }

    /** The pool record of the allocated block that begins at an address, or -1. */
    method FindAllocatedBlock(begin: int) returns (ret: int)
      requires pool.Length == POOL_SIZE + 2
      ensures -1 <= ret < POOL_SIZE
      ensures ret >= 0 ==> pool[ret].state.ALLOCATED? && pool[ret].begin == begin
      ensures ret < 0 ==> forall i :: 0 <= i < POOL_SIZE ==> !(pool[i].state.ALLOCATED? && pool[i].begin == begin)
    {
      ret := -1;
      var i := 0;
      while i < POOL_SIZE
        invariant 0 <= i <= POOL_SIZE && ret == -1
        invariant forall j :: 0 <= j < i ==> !(pool[j].state.ALLOCATED? && pool[j].begin == begin)
      {
        if pool[i].state == ALLOCATED && pool[i].begin == begin {
          ret := i;
          break;
        }
        i := i + 1;
      }
    }

    lemma Shape()
      requires Threaded()
      ensures pool.Length == POOL_SIZE + 2 && |tiles| == |regions| && |Ring(free)| == |free| + 2
    {
    }

    /** The neighbours of the k-th free block, as its links tell. */
    lemma Neighbours(k: nat)
      requires Threaded() && k < |free|
      ensures pool.Length == POOL_SIZE + 2 && |Ring(free)| == |free| + 2
      ensures 0 <= free[k] < POOL_SIZE && pool[free[k]].state.UNALLOCATED?
      ensures pool[free[k]].prev == Ring(free)[k] && pool[free[k]].next == Ring(free)[k + 2]
      ensures 0 <= Ring(free)[k] < pool.Length && 0 <= Ring(free)[k + 2] < pool.Length
      ensures Ring(free)[k] != free[k] && Ring(free)[k + 2] != free[k] && Ring(free)[k] != Ring(free)[k + 2]
      ensures Ring(free)[k + 2] == if k + 1 < |free| then free[k + 1] else TAIL
      ensures k + 1 < |free| ==> pool[free[k + 1]].state.UNALLOCATED? && 0 <= free[k + 1] < POOL_SIZE
    {
      var ring := Ring(free);
      assert Joined(pool[..], ring, k) && Joined(pool[..], ring, k + 1);
      assert ring[k + 1] == free[k];
    }

    /** Cuts the free block into two, the first of `size` bytes (lines 105-122). */
    method FreeCut(block: int, size: int, ghost p: nat, ghost k: nat) returns (ok: bool)
      requires Threaded() && p < |tiles| && tiles[p] == block && k < |free| && free[k] == block
      requires p < |regions| && 0 < size < regions[p].Size()
      modifies this`listSize, this`tiles, this`free, this`regions, pool
      ensures Threaded()
      ensures ok ==> regions == Cut(old(regions), p, size) && p < |tiles| && tiles[p] == block && k < |free| && free[k] == block
      ensures ok <==> !old(NoSpare(pool[..]))
      ensures !ok ==> regions == old(regions) && free == old(free) && tiles == old(tiles) && pool[..] == old(pool[..])
    {
      hide Repr, Cut, CutPool;
      Shape();
      Neighbours(k);
      ghost var mem := pool[..];
      var v := GetUnusedBlock();
      if v < 0 {
        return false;
      }
      CutRepr(mem, tiles, free, regions, pmStart, pmEnd, p, k, block, v, size);
      var n := pool[block].next;
      pool[v] := pool[v].(prev := block, next := n);
      pool[n] := pool[n].(prev := v);
      pool[block] := pool[block].(next := v);
      pool[v] := pool[v].(begin := pool[block].begin + size, end := pool[block].end, size := pool[block].size - size);
      pool[block] := pool[block].(end := pool[block].begin + size, size := size);
      pool[v] := pool[v].(state := UNALLOCATED);
      CutWritten(mem, pool[..], block, v, n, size);
      listSize := listSize + 1;
      tiles, free := tiles[..p + 1] + [v] + tiles[p + 1..], free[..k + 1] + [v] + free[k + 1..];
      regions := Cut(regions, p, size);
      ok := true;
    }

    /** Takes a free block off the list and marks it allocated (lines 209-223). */
    method FreeDelete(block: int, ghost p: nat, ghost k: nat)
      requires Threaded() && p < |tiles| && tiles[p] == block && k < |free| && free[k] == block && p < |regions|
      modifies this`listSize, this`free, this`regions, pool
      ensures Threaded() && regions == old(regions)[p := old(regions)[p].(free := false)]
      ensures 0 <= block < pool.Length && pool[block].begin == regions[p].begin && pool[block].size == regions[p].Size()
    {
      hide Repr, DeletePool;
      Shape();
      Neighbours(k);
      ghost var mem := pool[..];
      DeleteRepr(mem, tiles, free, regions, pmStart, pmEnd, p, k, block);
      var former, latter := pool[block].prev, pool[block].next;
      pool[former] := pool[former].(next := latter);
      pool[latter] := pool[latter].(prev := former);
      pool[block] := pool[block].(prev := NIL, next := NIL);
      pool[block] := pool[block].(state := ALLOCATED);
      DeleteWritten(mem, pool[..], block, former, latter);
      listSize := listSize - 1;
      free := free[..k] + free[k + 1..];
      regions := regions[p := regions[p].(free := false)];
      TileShows(p);
    }

    /** Merges a free block with the free block that follows it in memory (lines 143-164). */
    method FreeMerge(former: int, latter: int, ghost p: nat, ghost k: nat)
      requires Threaded() && p + 1 < |tiles| && p + 1 < |regions| && tiles[p] == former && tiles[p + 1] == latter
      requires k + 1 < |free| && free[k] == former && free[k + 1] == latter
      modifies this`listSize, this`tiles, this`free, this`regions, pool
      ensures Threaded() && regions == Joining(old(regions), p)
      ensures tiles == old(tiles)[..p + 1] + old(tiles)[p + 2..] && free == old(free)[..k + 1] + old(free)[k + 2..]
      ensures pool.Length == POOL_SIZE + 2 && 0 <= former < pool.Length && pool[former].begin == old(pool[former].begin)
      ensures forall i :: 0 <= i < POOL_SIZE && i != former && i != latter ==> SameSpan(pool[i], old(pool[i]))
    {
      hide Repr, MergePool, Joining;
      Shape();
      Neighbours(k);
      Neighbours(k + 1);
      TileShows(p);
      TileShows(p + 1);
      Touching(p);
      ghost var mem := pool[..];
      MergeRepr(mem, tiles, free, regions, pmStart, pmEnd, p, k, former, latter);
      var n := pool[latter].next;
      pool[former] := pool[former].(next := n);
      pool[n] := pool[n].(prev := former);
      pool[latter] := pool[latter].(prev := NIL);
      pool[latter] := pool[latter].(next := NIL);
      assert pool[latter].end - pool[former].begin == pool[former].size + pool[latter].size;
      pool[former] := pool[former].(end := pool[latter].end);
      pool[former] := pool[former].(size := pool[former].end - pool[former].begin);
      pool[latter] := pool[latter].(state := UNUSED);
      MergeWritten(mem, pool[..], former, latter, n);
      listSize := listSize - 1;
      tiles, free := tiles[..p + 1] + tiles[p + 2..], free[..k + 1] + free[k + 2..];
      regions := Joining(regions, p);
    }

    lemma Touching(p: nat)
      requires Threaded() && p + 1 < |regions|
      ensures regions[p].end == regions[p + 1].begin
    {
    }

    /** The consistency check of lines 88-98: it walks the whole list, and none of its assertions can fail. */
    method FreeCheck() returns (cnt: int)
      requires Threaded()
      ensures cnt == listSize
    {
      hide Repr;
      Shape();
      HeadLinks();
      cnt := 0;
      var block := pool[HEAD].next;
      while block != TAIL
        invariant 0 <= cnt <= |free| && block == Ring(free)[cnt + 1]
        decreases |free| - cnt
      {
        RingEnds(cnt);
        Neighbours(cnt);
        if cnt + 1 < |free| {
          Neighbours(cnt + 1);
        } else {
          HeadLinks();
        }
        if cnt > 0 {
          Neighbours(cnt - 1);
        }
        cnt := cnt + 1;
        assert pool[pool[block].next].prev == block;
        assert pool[pool[block].prev].next == block;
        block := pool[block].next;
      }
      RingEnds(cnt);
    }

    lemma HeadLinks()
      requires Threaded()
      ensures pool.Length == POOL_SIZE + 2 && |Ring(free)| == |free| + 2
      ensures pool[HEAD].next == Ring(free)[1] && pool[TAIL].prev == Ring(free)[|free|] && Ring(free)[0] == HEAD
    {
      assert Joined(pool[..], Ring(free), 0) && Joined(pool[..], Ring(free), |free|);
    }

    lemma RingEnds(k: nat)
      requires Threaded() && k <= |free|
      ensures k <= |free| && |Ring(free)| == |free| + 2 && (Ring(free)[k + 1] == TAIL <==> k == |free|)
    {
      assert Ring(free)[|free| + 1] == TAIL;
    }

    /** Whether p comes before q in address order, the sentinels first and last (lines 171-177). */
    method FreeCmp(p: int, q: int) returns (before: bool)
      requires pool.Length == POOL_SIZE + 2 && 0 <= p < pool.Length && 0 <= q < pool.Length
      requires p == HEAD || q == TAIL || (p != TAIL && q != HEAD && pool[p].begin != pool[q].begin)
      ensures before <==> p == HEAD || q == TAIL || pool[p].begin < pool[q].begin
    {
      if p == HEAD || q == TAIL {
        return true;
      }
      return pool[p].begin < pool[q].begin;
    }

    /** Whether q starts right where p ends (lines 130-135). */
    method FreeAdjacent(p: int, q: int) returns (adjacent: bool)
      requires pool.Length == POOL_SIZE + 2 && 0 <= p < pool.Length && 0 <= q < pool.Length
      requires p == HEAD || q == TAIL || (p != TAIL && q != HEAD)
      ensures adjacent <==> p != HEAD && q != TAIL && pool[p].end == pool[q].begin
    {
      if p == HEAD || q == TAIL {
        return false;
      }
      return pool[p].end == pool[q].begin;
    }

    /** Finds where the allocated block belongs on the list (lines 186-192). */
    method FindPlace(block: int, ghost p: nat) returns (former: int, latter: int, ghost k: nat)
      requires Threaded() && p < |tiles| && tiles[p] == block && p < |regions| && !regions[p].free
      ensures k <= |free| && |Ring(free)| == |free| + 2
      ensures former == Ring(free)[k] && latter == Ring(free)[k + 1] && 0 <= former < pool.Length && 0 <= latter < pool.Length
      ensures 0 <= block < pool.Length && Between(pool[..], free, k, block)
    {
      hide Repr;
      Shape();
      TileShows(p);
      HeadLinks();
      former, k := HEAD, 0;
      latter := pool[former].next;
      while true
        invariant 0 <= k <= |free| && former == Ring(free)[k] && latter == Ring(free)[k + 1]
        invariant 0 <= former < pool.Length && pool[former].next == latter
        invariant k > 0 ==> 0 <= free[k - 1] < pool.Length && pool[free[k - 1]].begin < pool[block].begin
        decreases |free| - k
      {
        RingAt(k);
        if k < |free| {
          Neighbours(k);
          FreeDiffers(p, k);
        }
        if k > 0 {
          FreeDiffers(p, k - 1);
        }
        var before := FreeCmp(former, block);
        if before {
          before := FreeCmp(block, latter);
        }
        if before {
          break;
        }
        former := pool[former].next;
        latter := pool[latter].next;
        k := k + 1;
      }
      RingAt(k);
    }

    lemma RingAt(k: nat)
      requires Threaded() && k <= |free|
      ensures |Ring(free)| == |free| + 2
      ensures Ring(free)[k] == if k > 0 then free[k - 1] else HEAD
      ensures Ring(free)[k + 1] == if k < |free| then free[k] else TAIL
      ensures 0 <= Ring(free)[k] < pool.Length && 0 <= Ring(free)[k + 1] < pool.Length
      ensures k > 0 ==> 0 <= free[k - 1] < POOL_SIZE
      ensures k < |free| ==> 0 <= free[k] < POOL_SIZE
    {
    }

    /** A free block and an allocated one begin at different addresses. */
    lemma FreeDiffers(p: nat, k: nat)
      requires Threaded() && p < |tiles| && p < |regions| && !regions[p].free && k < |free|
      ensures pool.Length == POOL_SIZE + 2 && 0 <= tiles[p] < POOL_SIZE && 0 <= free[k] < POOL_SIZE
      ensures pool[free[k]].begin != pool[tiles[p]].begin
    {
      var q := TileOf(pool[..], tiles, regions, free[k]);
      assert Shows(pool[..][tiles[p]], regions[p]);
      if pool[free[k]].begin == pool[tiles[p]].begin {
        BeginsDistinct(regions, pmStart, pmEnd, p, q);
      }
    }

    lemma TileShows(p: nat)
      requires Threaded() && p < |tiles|
      ensures pool.Length == POOL_SIZE + 2 && p < |regions| && 0 <= tiles[p] < POOL_SIZE && Shows(pool[tiles[p]], regions[p])
    {
    }

    /** Links an allocated block in between two neighbours and marks it free (lines 196-199). */
    method LinkFree(block: int, former: int, latter: int, ghost p: nat, ghost k: nat)
      requires Threaded() && p < |tiles| && tiles[p] == block && p < |regions| && !regions[p].free && k <= |free|
      requires |Ring(free)| == |free| + 2 && former == Ring(free)[k] && latter == Ring(free)[k + 1]
      requires Between(pool[..], free, k, block)
      modifies this`listSize, this`free, this`regions, pool
      ensures Threaded() && regions == old(regions)[p := old(regions)[p].(free := true)]
      ensures free == old(free)[..k] + [block] + old(free)[k..]
      ensures pool.Length == POOL_SIZE + 2 && forall i :: 0 <= i < pool.Length ==> SameSpan(pool[i], old(pool[i]))
    {
      hide Repr, InsertPool, Between;
      ghost var mem := pool[..];
      Shape();
      RingAt(k);
      BetweenMeans(mem, free, k, block);
      InsertDistinct(mem, tiles, free, regions, pmStart, pmEnd, p, k);
      InsertRepr(mem, tiles, free, regions, pmStart, pmEnd, p, k, block);
      pool[block] := pool[block].(prev := former, next := latter);
      pool[former] := pool[former].(next := block);
      pool[latter] := pool[latter].(prev := block);
      pool[block] := pool[block].(state := UNALLOCATED);
      InsertWritten(mem, pool[..], block, former, latter);
      listSize := listSize + 1;
      free, regions := free[..k] + [block] + free[k..], regions[p := regions[p].(free := true)];
    }

    /** Puts an allocated block back on the list and merges it with free neighbours (lines 184-204). */
    method FreeInsert(block: int, ghost p: nat)
      requires Threaded() && p < |tiles| && tiles[p] == block && p < |regions| && !regions[p].free
      modifies this`listSize, this`tiles, this`free, this`regions, pool
      ensures Threaded() && regions == Give(old(regions), p)
    {
      hide Repr, InsertPool, Joining, Between, Give;
      Shape();
      TileShows(p);
      ghost var rs0 := regions;
      var former, latter;
      ghost var k;
      former, latter, k := FindPlace(block, p);
      RingAt(k);
      RightTouch(pool[..], tiles, free, regions, pmStart, pmEnd, p, k);
      LeftTouch(pool[..], tiles, free, regions, pmStart, pmEnd, p, k);
      InsertDistinct(pool[..], tiles, free, regions, pmStart, pmEnd, p, k);
      BetweenMeans(pool[..], free, k, block);
      LinkFree(block, former, latter, p, k);
      Shape();
      var right := FreeAdjacent(block, latter);
      if right {
        FreeMerge(block, latter, p, k);
        Shape();
      }
      var left := FreeAdjacent(former, block);
      if left {
        FreeMerge(former, block, p - 1, k - 1);
      }
      GiveSteps(rs0, p);
    }

    /** The walk of free_find: the first listed block of at least sz bytes is the lowest fitting region. */
    method FindBlock(sz: int) returns (block: int, ghost p: nat, ghost k: nat)
      requires Threaded()
      ensures pool.Length == POOL_SIZE + 2 && |tiles| == |regions|
      ensures p == FirstFit(regions, sz, 0)
      ensures block == TAIL <==> p == |regions|
      ensures block != TAIL ==> p < |regions| && tiles[p] == block && k < |free| && free[k] == block
      ensures block != TAIL ==>
        0 <= block < POOL_SIZE && pool[block].size == regions[p].Size() && pool[block].begin == regions[p].begin
    {
      hide Repr, FirstFit;
      Shape();
      HeadLinks();
      RingAt(0);
      block, k := pool[HEAD].next, 0;
      while block != TAIL && pool[block].size < sz
        invariant 0 <= k <= |free| && block == Ring(free)[k + 1] && 0 <= block < pool.Length
        invariant forall j :: 0 <= j < k ==> 0 <= free[j] < pool.Length && pool[free[j]].size < sz
        decreases |free| - k
      {
        RingEnds(k);
        RingAt(k);
        Neighbours(k);
        block, k := pool[block].next, k + 1;
        RingAt(k);
      }
      RingEnds(k);
      RingAt(k);
      if block == TAIL {
        p := |regions|;
        ScanMisses(pool[..], tiles, free, regions, pmStart, pmEnd, sz);
      } else {
        Neighbours(k);
        p := TileOfFree(block);
        ScanHits(pool[..], tiles, free, regions, pmStart, pmEnd, sz, p, k);
      }
    }

    lemma TileOfFree(b: int) returns (p: nat)
      requires Threaded() && pool.Length == POOL_SIZE + 2 && 0 <= b < POOL_SIZE && pool[b].state.UNALLOCATED?
      ensures p < |tiles| && p < |regions| && tiles[p] == b && Shows(pool[b], regions[p])
    {
      p := TileOf(pool[..], tiles, regions, b);
    }

    /** The rounding loop of line 232. */
    static method SizeClass(size: int) returns (newsz: int)
      requires 0 < size <= 0x8000_0000
      ensures newsz == Rounded(size, 1024) && (newsz < 2 * size || newsz == 1024)
    {
      newsz := 1024;
      while newsz < size
        invariant 1024 <= newsz && Rounded(size, newsz) == Rounded(size, 1024)
        invariant newsz < 2 * size || newsz == 1024
        decreases size - newsz
      {
        newsz := 2 * newsz % 0x1_0000_0000;
      }
    }

    /** Takes the lowest free block that holds the rounded request, cut to size when it is at least twice as large
        (lines 230-244). The model stops before a cut that would leave an empty block. */
    method FreeFind(size: int) returns (r: Allocation, block: int, ghost p: nat)
      requires Valid() && 0 < size < 0x1_0000_0000
      modifies this`listSize, this`tiles, this`free, this`regions, pool
      ensures Threaded() && Coalesced(regions) && p == FirstFit(old(regions), Rounded(size, 1024), 0)
      ensures r.Endless? <==> size > 0x8000_0000
      ensures r.NoBlock? <==> size <= 0x8000_0000 && p == |old(regions)|
      ensures r.NoRecord? <==>
        var sz := Rounded(size, 1024);
        && size <= 0x8000_0000 && p < |old(regions)| && |old(regions)| >= POOL_SIZE
        && (old(regions)[p].Size() >= 2 * sz || sz == 0x8000_0000)
      ensures r.EmptyBlock? <==>
        && size <= 0x8000_0000 && p < |old(regions)| && |old(regions)| < POOL_SIZE
        && old(regions)[p].Size() == Rounded(size, 1024) == 0x8000_0000
      ensures !r.Null? && (!r.Address? ==> regions == old(regions))
      ensures r.Address? ==>
        && p < |old(regions)| && regions == Take(old(regions), p, Rounded(size, 1024)) && p < |regions|
        && Used(regions) == Used(old(regions)) + regions[p].Size()
        && 0 <= block < pool.Length && pool[block].begin == r.begin && pool[block].size == regions[p].Size()
        && r.begin == old(regions)[p].begin >= pmStart
        && var (sz, s) := (Rounded(size, 1024), old(regions)[p].Size());
           && sz <= regions[p].Size() < 2 * sz
           && regions[p].Size() == (if s >= 2 * sz || sz == 0x8000_0000 then sz else s)
           && |regions| == |old(regions)| + (if s >= 2 * sz || sz == 0x8000_0000 then 1 else 0)
    {
      hide Repr, Cut, Take, Tiled, Coalesced, FirstFit, Used, NoSpare, Halts, Step, Hollows, Rounded;
      PoolFull();
      p := FirstFit(regions, Rounded(size, 1024), 0);
      if size > 0x8000_0000 {
        r, block := Endless, TAIL;
        return;
      }
      AllocMeans(regions, size);
      var newsz := SizeClass(size);
      ghost var k;
      block, p, k := FindBlock(newsz);
      if block == TAIL {
        r := NoBlock;
        return;
      }
      RegionsTiled();
      if pool[block].size == newsz && newsz >= 2 * newsz % 0x1_0000_0000 {
        var v := GetUnusedBlock();
        r := if v < 0 then NoRecord else EmptyBlock;
        return;
      }
      FitTaken(regions, pmStart, pmEnd, newsz);
      if pool[block].size >= 2 * newsz % 0x1_0000_0000 {
        var ok := FreeCut(block, newsz, p, k);
        if !ok {
          r := NoRecord;
          return;
        }
      }
      Shape();
      FreeDelete(block, p, k);
      r := Address(pool[block].begin);
    }

    /** kalloc: what the request comes to, as a step of the regions. */
    method Kalloc(size: int) returns (r: Allocation)
      requires Valid() && 0 <= size < 0x1_0000_0000
      modifies this`listSize, this`tiles, this`free, this`regions, this`memUsed, pool
      ensures Valid()
      ensures size == 0 <==> r == Null
      ensures r.Endless? <==> size > 0x8000_0000
      ensures r.NoBlock? || r.NoRecord? || r.Endless? <==> Halts(old(regions), Alloc(size))
      ensures r.EmptyBlock? <==> !Halts(old(regions), Alloc(size)) && Hollows(old(regions), Alloc(size))
      ensures 0 < size <= 0x8000_0000 ==>
        var (sz, p, n) := (Rounded(size, 1024), FirstFit(old(regions), Rounded(size, 1024), 0), |old(regions)|);
        && (r.NoBlock? <==> p == n)
        && (r.NoRecord? <==> p < n && n >= POOL_SIZE && (old(regions)[p].Size() >= 2 * sz || sz == 0x8000_0000))
        && (r.EmptyBlock? <==> p < n && n < POOL_SIZE && old(regions)[p].Size() == sz == 0x8000_0000)
      ensures regions == if r.Address? then Step(old(regions), Alloc(size)) else old(regions)
      ensures !r.Address? ==> memUsed == old(memUsed)
      ensures r.Address? ==>
        var sz, p := Rounded(size, 1024), FirstFit(old(regions), Rounded(size, 1024), 0);
        && p < |old(regions)| && p < |regions| && r.begin == old(regions)[p].begin >= pmStart
        && var s := old(regions)[p].Size();
           && sz <= regions[p].Size() < 2 * sz && memUsed == old(memUsed) + regions[p].Size()
           && regions[p].Size() == (if s >= 2 * sz || sz == 0x8000_0000 then sz else s)
           && |regions| == |old(regions)| + (if s >= 2 * sz || sz == 0x8000_0000 then 1 else 0)
    {
      hide Repr, Take, Tiled, Coalesced, FirstFit, Used, Halts, Step, Hollows;
      AllocMeans(regions, size);
      if size == 0 {
        return Null;
      }
      var block;
      ghost var p;
      r, block, p := FreeFind(size);
      if r.Address? {
        memUsed := memUsed + pool[block].size;
      }
    }

    /** The pool runs out exactly when there are as many regions as records. */
    lemma PoolFull()
      requires Threaded()
      ensures |regions| <= POOL_SIZE && (NoSpare(pool[..]) <==> |regions| == POOL_SIZE)
    {
      Shape();
      hide Linked, Listed, Tiled;
      TilesDistinct(pool[..], tiles, regions, pmStart, pmEnd);
      DistinctBelow(tiles, POOL_SIZE);
      forall i | 0 <= i < POOL_SIZE
        ensures i in tiles <==> !pool[i].state.UNUSED?
      {
        if i in tiles {
          var k :| 0 <= k < |tiles| && tiles[k] == i;
          assert Shows(pool[..][tiles[k]], regions[k]);
        }
      }
    }

    lemma RegionsTiled()
      requires Threaded()
      ensures Tiled(regions, pmStart, pmEnd)
    {
    }

    /** Frees the block allocated at an address; a pointer to no such block fails the assertion of line 42. */
    method Kfree(address: int) returns (ok: bool)
      requires Valid()
      modifies this`listSize, this`tiles, this`free, this`regions, this`memUsed, pool
      ensures Valid()
      ensures ok <==> AllocatedAt(old(regions), address, 0) < |old(regions)|
      ensures ok <==> !Halts(old(regions), Release(address))
      ensures ok ==> regions == Step(old(regions), Release(address))
      ensures !ok ==> regions == old(regions) && memUsed == old(memUsed)
      ensures ok ==>
        var p := AllocatedAt(old(regions), address, 0);
        regions == Give(old(regions), p) && memUsed == old(memUsed) - old(regions)[p].Size()
    {
      hide Repr, Tiled, Coalesced, Used, Give, AllocatedAt;
      Shape();
      var idx := FindAllocatedBlock(address);
      if idx < 0 {
        NoneAllocatedAt(pool[..], tiles, free, regions, pmStart, pmEnd, address);
        return false;
      }
      ghost var p := OneAllocatedAt(pool[..], tiles, free, regions, pmStart, pmEnd, address, idx);
      RegionsTiled();
      GiveKeeps(regions, pmStart, pmEnd, p);
      memUsed := memUsed - pool[idx].size;
      FreeInsert(idx, p);
      ok := true;
    }
  }
}
