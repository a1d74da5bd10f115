/** How the entries of the key/value store lie in its items and in chains of 4096-character blocks. */
module KvBlocks {
  import opened Sequences
  import opened KvModel
  import opened KvLog

  datatype Node = Node(data: string, used: bool, next: int)
  datatype Item = Item(head: int, size: int, key: string)

  // --------------------------------------------------------------------------
  // Characters
  // --------------------------------------------------------------------------

  function Zeros(n: nat): (z: string)
    ensures |z| == n && forall i :: 0 <= i < n ==> z[i] == '\0'
  {
    seq(n, _ => '\0')
  }

  /** The characters before the first NUL. */
  function CStr(s: string): (r: string)
    ensures r <= s
  {
    if s == [] || s[0] == '\0' then [] else [s[0]] + CStr(s[1..])
  }

  /** strncpy of 4096 characters: up to the first NUL, then zeros. */
  function StrNCpy(src: string): (r: string)
    requires |src| == 4096
    ensures |r| == 4096
  {
    CStr(src) + Zeros(4096 - |CStr(src)|)
  }

  lemma {:induction false} CStrOf(w: string, t: string)
    requires NulFree(w) && (t == [] || t[0] == '\0')
    ensures CStr(w + t) == w
  {
    if w == [] {
      assert w + t == t;
    } else {
      assert (w + t)[1..] == w[1..] + t;
      CStrOf(w[1..], t);
    }
  }

  /** How much of a value of n characters lies in its first j blocks. */
  function Upto(n: nat, j: nat): nat {
    if n < 4096 * j then n else 4096 * j
  }

  /** The part of a value that goes into its block j. */
  function Chunk(v: string, j: nat): (c: string)
    requires j < Blocks(|v|)
    ensures 0 < |c| <= 4096
  {
    v[4096 * j..Upto(|v|, j + 1)]
  }

  function Pad(s: string): (r: string)
    requires |s| <= 4096
    ensures |r| == 4096
  {
    s + Zeros(4096 - |s|)
  }

  /** A block read back with strncpy is the block. */
  lemma ReadBlock(s: string)
    requires NulFree(s) && |s| <= 4096
    ensures StrNCpy(Pad(s)) == Pad(s)
  {
    CStrOf(s, Zeros(4096 - |s|));
  }

  lemma SliceOf(s: string, n: int, a: int, b: int)
    requires 0 <= a <= b <= n <= |s|
    ensures s[..n][a..b] == s[a..b]
  {
  }

  /** Row j of the write buffer is written as chunk j, whatever the buffer holds after the terminator. */
  lemma WriteBlock(v: string, buf: string, j: nat)
    requires NulFree(v) && j < Blocks(|v|) && |v| < |buf| && 4096 * (j + 1) <= |buf|
    requires buf[..|v|] == v && buf[|v|] == '\0'
    ensures StrNCpy(buf[4096 * j..4096 * (j + 1)]) == Pad(Chunk(v, j))
  {
    var row, c := buf[4096 * j..4096 * (j + 1)], Chunk(v, j);
    SliceOf(buf, |v|, 4096 * j, Upto(|v|, j + 1));
    assert row == c + row[|c|..];
    CStrOf(c, row[|c|..]);
  }

  // --------------------------------------------------------------------------
  // Chains
  // --------------------------------------------------------------------------

  /** Element j of the chain is a used block that leads to element j + 1, or ends the chain. */
  ghost predicate Joined(datas: seq<Node>, c: seq<int>, j: int) {
    && 0 <= j < |c| && 0 <= c[j] < |datas| && datas[c[j]].used
    && datas[c[j]].next == if j + 1 < |c| then c[j + 1] else -1
  }

  ghost predicate Filled(datas: seq<Node>, c: seq<int>, v: string, j: int) {
    && 0 <= j < |c| && 0 <= c[j] < |datas| && j < Blocks(|v|)
    && datas[c[j]].data == Pad(Chunk(v, j))
  }

  /** Character i of the value is in block i / 4096 of its chain, at place i % 4096; the rest of the last block is zero. */
  lemma StoredAt(datas: seq<Node>, c: seq<int>, v: string, i: nat)
    requires |c| == Blocks(|v|) && i < 4096 * |c| && Filled(datas, c, v, i / 4096)
    ensures datas[c[i / 4096]].data[i % 4096] == if i < |v| then v[i] else '\0'
  {
    var j := i / 4096;
    assert i == 4096 * j + i % 4096;
    assert |Chunk(v, j)| == Upto(|v|, j + 1) - 4096 * j;
  }

  /** Keys and values the interface takes: C strings, keys of at most 255 characters. */
  predicate Proper(p: Pair) {
    NulFree(p.key) && |p.key| < KEY_LENGTH && NulFree(p.value) && |p.value| <= MAX_VALUE
  }

  /** The item and its chain store the entry. */
  ghost predicate Slot(datas: seq<Node>, item: Item, c: seq<int>, p: Pair) {
    && Proper(p) && item == Item(HeadOf(c), |p.value|, p.key)
    && |c| == Blocks(|p.value|) && Distinct(c)
    && forall j :: 0 <= j < |c| ==> Joined(datas, c, j) && Filled(datas, c, p.value, j)
  }

  lemma SlotFrame(datas: seq<Node>, datas': seq<Node>, item: Item, c: seq<int>, p: Pair)
    requires Slot(datas, item, c, p) && |datas'| == |datas|
    requires forall j :: 0 <= j < |c| && 0 <= c[j] < |datas| ==> datas'[c[j]] == datas[c[j]]
    ensures Slot(datas', item, c, p)
  {
    forall j | 0 <= j < |c|
      ensures Joined(datas', c, j) && Filled(datas', c, p.value, j)
    {
      assert Joined(datas, c, j) && Filled(datas, c, p.value, j);
    }
  }

  function UsedCount(datas: seq<Node>): (n: nat)
    ensures n <= |datas|
  {
    if datas == [] then 0
    else UsedCount(datas[..|datas| - 1]) + if datas[|datas| - 1].used then 1 else 0
  }

  lemma {:induction false} CountSet(datas: seq<Node>, x: int, nd: Node)
    requires 0 <= x < |datas|
    ensures UsedCount(datas[x := nd]) ==
      UsedCount(datas) + (if nd.used then 1 else 0) - (if datas[x].used then 1 else 0)
  {
    var n := |datas| - 1;
    if x == n {
      assert datas[x := nd][..n] == datas[..n];
    } else {
      assert datas[x := nd][..n] == datas[..n][x := nd];
      CountSet(datas[..n], x, nd);
    }
  }

  lemma {:induction false} CountUsed(datas: seq<Node>, a: nat, b: nat)
    requires a <= b <= |datas| && forall x :: a <= x < b ==> datas[x].used
    ensures UsedCount(datas[..b]) == UsedCount(datas[..a]) + b - a
    decreases b
  {
    if a < b {
      assert datas[..b][..b - 1] == datas[..b - 1];
      CountUsed(datas, a, b - 1);
    }
  }

  lemma CountUnused(datas: seq<Node>, x: nat)
    requires x < |datas| && !datas[x].used
    ensures UsedCount(datas[..x + 1]) == UsedCount(datas[..x])
  {
    assert datas[..x + 1][..x] == datas[..x];
  }

  lemma {:induction false} CountSplit(datas: seq<Node>, a: nat)
    requires a <= |datas|
    ensures UsedCount(datas[..a]) <= UsedCount(datas) <= UsedCount(datas[..a]) + |datas| - a
    decreases |datas|
  {
    var n := |datas| - 1;
    if a == |datas| {
      assert datas[..a] == datas;
    } else {
      assert datas[..n][..a] == datas[..a];
      CountSplit(datas[..n], a);
    }
  }

  lemma {:induction false} CountSame(datas: seq<Node>, datas': seq<Node>)
    requires |datas| == |datas'| && forall x :: 0 <= x < |datas| ==> datas'[x].used == datas[x].used
    ensures UsedCount(datas') == UsedCount(datas)
  {
    if datas != [] {
      CountSame(datas[..|datas| - 1], datas'[..|datas| - 1]);
    }
  }

  // --------------------------------------------------------------------------
  // The whole store
  // --------------------------------------------------------------------------

  ghost predicate InSome(chains: seq<seq<int>>, x: int) {
    exists i :: 0 <= i < |chains| && x in chains[i]
  }

  /** Chains are apart, and a block is used exactly when it is in one of them. */
  ghost predicate Laid(datas: seq<Node>, chains: seq<seq<int>>) {
    && (forall i, j :: 0 <= i < |chains| && 0 <= j < |chains| && i != j ==> Apart(chains[i], chains[j]))
    && (forall x :: 0 <= x < |datas| ==> (datas[x].used <==> InSome(chains, x)))
  }

  ghost predicate Slots(items: seq<Item>, datas: seq<Node>, chains: seq<seq<int>>, es: seq<Pair>) {
    && |chains| == |es| <= |items|
    && forall i :: 0 <= i < |es| ==> Slot(datas, items[i], chains[i], es[i])
  }

  /** The first `size` items store the entries, each in a chain of its own, and no other block is in use. */
  ghost predicate Repr(items: seq<Item>, datas: seq<Node>, size: int, chains: seq<seq<int>>, es: seq<Pair>) {
    && |items| == ITEMS && |datas| == DATAS && size == |es|
    && Slots(items, datas, chains, es) && Laid(datas, chains) && Unique(es)
    && UsedCount(datas) == Total(es)
  }

  /** Blocks of c are no longer used. */
  ghost predicate Released(datas: seq<Node>, datas': seq<Node>, c: seq<int>) {
    && |datas'| == |datas| && UsedCount(datas') == UsedCount(datas) - |c|
    && forall x :: 0 <= x < |datas| ==> datas'[x] == if x in c then datas[x].(used := false) else datas[x]
  }

  /** c is a new chain of blocks that were free. */
  ghost predicate Claimed(datas: seq<Node>, datas': seq<Node>, c: seq<int>) {
    && |datas'| == |datas| && UsedCount(datas') == UsedCount(datas) + |c| && Distinct(c)
    && (forall j :: 0 <= j < |c| ==> Joined(datas', c, j) && !datas[c[j]].used)
    && (forall x :: 0 <= x < |datas| && x !in c ==> datas'[x] == datas[x])
  }

  /** The blocks of c hold the value. */
  ghost predicate Written(datas: seq<Node>, datas': seq<Node>, c: seq<int>, v: string) {
    && |datas'| == |datas| && |c| == Blocks(|v|)
    && (forall j :: 0 <= j < |c| ==> Filled(datas', c, v, j))
    && (forall x :: 0 <= x < |datas| ==> datas'[x] == datas[x].(data := datas'[x].data))
    && (forall x :: 0 <= x < |datas| && x !in c ==> datas'[x] == datas[x])
  }

  lemma ReleasedSlots(items: seq<Item>, datas: seq<Node>, chains: seq<seq<int>>, es: seq<Pair>, idx: int, datas': seq<Node>)
    requires Slots(items, datas, chains, es) && Laid(datas, chains) && 0 <= idx < |es|
    requires Released(datas, datas', chains[idx])
    ensures Slots(items[idx := items[|es| - 1]], datas', Dropped(chains, idx), Dropped(es, idx))
  {
    hide Dropped, Slot;
    DroppedAt(es, idx);
    DroppedAt(chains, idx);
    var n, es', chains', items' := |es|, Dropped(es, idx), Dropped(chains, idx), items[idx := items[|es| - 1]];
    forall i | 0 <= i < n - 1
      ensures Slot(datas', items'[i], chains'[i], es'[i])
    {
      var o := Origin(n, idx, i);
      assert items'[i] == items[o];
      assert Apart(chains[idx], chains[o]);
      SlotFrame(datas, datas', items[o], chains[o], es[o]);
    }
  }

  lemma ReleasedLaid(datas: seq<Node>, chains: seq<seq<int>>, idx: int, datas': seq<Node>)
    requires Laid(datas, chains) && 0 <= idx < |chains| && Released(datas, datas', chains[idx])
    ensures Laid(datas', Dropped(chains, idx))
  {
    hide Dropped, Apart;
    DroppedAt(chains, idx);
    var n, chains' := |chains|, Dropped(chains, idx);
    forall i, j | 0 <= i < n - 1 && 0 <= j < n - 1 && i != j
      ensures Apart(chains'[i], chains'[j])
    {
      assert chains'[i] == chains[Origin(n, idx, i)] && chains'[j] == chains[Origin(n, idx, j)];
    }
    forall x | 0 <= x < |datas|
      ensures datas'[x].used <==> InSome(chains', x)
    {
      if datas'[x].used {
        assert InSome(chains, x);
        var i :| 0 <= i < n && x in chains[i];
        var o := if i == n - 1 then idx else i;
        assert chains'[o] == chains[i];
      }
      if InSome(chains', x) {
        var i :| 0 <= i < n - 1 && x in chains'[i];
        var o := Origin(n, idx, i);
        assert chains'[i] == chains[o];
        assert InSome(chains, x);
        NotInBoth(chains[idx], chains[o], x);
      }
    }
  }

  lemma NotInBoth(c: seq<int>, d: seq<int>, x: int)
    requires Apart(c, d)
    ensures !(x in c && x in d)
  {
  }

  lemma ReleasedRepr(items: seq<Item>, datas: seq<Node>, size: int, chains: seq<seq<int>>, es: seq<Pair>,
                     idx: int, datas': seq<Node>)
    requires Repr(items, datas, size, chains, es) && 0 <= idx < size && Released(datas, datas', chains[idx])
    ensures Repr(items[idx := items[size - 1]], datas', size - 1, Dropped(chains, idx), Dropped(es, idx))
  {
    hide Dropped, Slot, Laid, Unique, Total, UsedCount, Map, Represents;
    ReleasedSlots(items, datas, chains, es, idx, datas');
    ReleasedLaid(datas, chains, idx, datas');
    MapHolds(es);
    DroppedRepresents(es, idx, Map(es));
    TotalDropped(es, idx);
    SlotLength(datas, items[idx], chains[idx], es[idx]);
  }

  lemma SlotLength(datas: seq<Node>, item: Item, c: seq<int>, p: Pair)
    requires Slot(datas, item, c, p)
    ensures |c| == Blocks(|p.value|) && item.head == HeadOf(c) && item.size == |p.value| && item.key == p.key && Proper(p)
  {
  }

  lemma ClaimedApart(datas: seq<Node>, chains: seq<seq<int>>, datas': seq<Node>, c: seq<int>, i: int)
    requires Laid(datas, chains) && Claimed(datas, datas', c) && 0 <= i < |chains|
    requires forall j :: 0 <= j < |chains[i]| ==> 0 <= chains[i][j] < |datas|
    ensures Apart(chains[i], c) && Apart(c, chains[i])
  {
    forall a, b | 0 <= a < |chains[i]| && 0 <= b < |c|
      ensures chains[i][a] != c[b]
    {
      assert Joined(datas', c, b);
      assert chains[i][a] in chains[i];
      assert InSome(chains, chains[i][a]);
    }
  }

  lemma SlotInside(datas: seq<Node>, item: Item, c: seq<int>, p: Pair)
    requires Slot(datas, item, c, p)
    ensures forall j :: 0 <= j < |c| ==> 0 <= c[j] < |datas|
  {
    forall j | 0 <= j < |c|
      ensures 0 <= c[j] < |datas|
    {
      assert Joined(datas, c, j);
    }
  }

  lemma ClaimedLaid(datas: seq<Node>, chains: seq<seq<int>>, datas': seq<Node>, c: seq<int>)
    requires Laid(datas, chains) && Claimed(datas, datas', c)
    requires forall i :: 0 <= i < |chains| ==> Apart(chains[i], c) && Apart(c, chains[i])
    ensures Laid(datas', chains + [c])
  {
    hide Apart;
    var chains' := chains + [c];
    forall x | 0 <= x < |datas|
      ensures datas'[x].used <==> InSome(chains', x)
    {
      if x in c {
        var j :| 0 <= j < |c| && c[j] == x;
        assert Joined(datas', c, j);
        assert x in chains'[|chains|];
      } else {
        assert datas'[x] == datas[x];
        if InSome(chains, x) {
          var i :| 0 <= i < |chains| && x in chains[i];
          assert chains'[i] == chains[i];
        }
        if InSome(chains', x) {
          var i :| 0 <= i < |chains'| && x in chains'[i];
          assert chains'[i] == chains[i];
        }
      }
    }
  }

  /** Claiming a chain and writing the value into it adds the entry. */
  lemma AddedRepr(items: seq<Item>, datas: seq<Node>, size: int, chains: seq<seq<int>>, es: seq<Pair>,
                  mid: seq<Node>, datas': seq<Node>, c: seq<int>, p: Pair)
    requires Repr(items, datas, size, chains, es) && size < ITEMS && Proper(p) && Find(es, p.key) < 0
    requires Claimed(datas, mid, c) && Written(mid, datas', c, p.value)
    ensures Repr(items[size := Item(HeadOf(c), |p.value|, p.key)], datas', size + 1, chains + [c], es + [p])
  {
    hide Slot, Laid, Claimed, Written, UsedCount, Proper;
    var items' := items[size := Item(HeadOf(c), |p.value|, p.key)];
    ClaimedWritten(datas, mid, datas', c, p.value);
    NewSlot(mid, datas', c, p, datas);
    forall i | 0 <= i < size
      ensures Apart(chains[i], c) && Apart(c, chains[i]) && Slot(datas', items'[i], chains[i], es[i])
    {
      SlotInside(datas, items[i], chains[i], es[i]);
      ClaimedApart(datas, chains, datas', c, i);
      ClaimedFrame(datas, datas', chains[i], c);
      SlotFrame(datas, datas', items[i], chains[i], es[i]);
    }
    ClaimedLaid(datas, chains, datas', c);
    assert (es + [p])[..size] == es;
    ClaimedCount(datas, datas', c);
    WrittenLength(mid, datas', c, p.value);
  }

  lemma WrittenLength(datas: seq<Node>, datas': seq<Node>, c: seq<int>, v: string)
    requires Written(datas, datas', c, v)
    ensures |c| == Blocks(|v|) && |datas'| == |datas|
  {
  }

  lemma ClaimedCount(datas: seq<Node>, datas': seq<Node>, c: seq<int>)
    requires Claimed(datas, datas', c)
    ensures UsedCount(datas') == UsedCount(datas) + |c| && |datas'| == |datas|
  {
  }

  lemma ClaimedFrame(datas: seq<Node>, datas': seq<Node>, d: seq<int>, c: seq<int>)
    requires Claimed(datas, datas', c) && Apart(d, c)
    ensures |datas'| == |datas|
    ensures forall j :: 0 <= j < |d| && 0 <= d[j] < |datas| ==> datas'[d[j]] == datas[d[j]]
  {
  }

  lemma ClaimedWritten(datas: seq<Node>, mid: seq<Node>, datas': seq<Node>, c: seq<int>, v: string)
    requires Claimed(datas, mid, c) && Written(mid, datas', c, v)
    ensures Claimed(datas, datas', c)
  {
    CountSame(mid, datas');
    forall j | 0 <= j < |c|
      ensures Joined(datas', c, j) && !datas[c[j]].used
    {
      assert Joined(mid, c, j);
    }
  }

  lemma NewSlot(mid: seq<Node>, datas': seq<Node>, c: seq<int>, p: Pair, datas: seq<Node>)
    requires Claimed(datas, datas', c) && Written(mid, datas', c, p.value) && Proper(p)
    ensures Slot(datas', Item(HeadOf(c), |p.value|, p.key), c, p)
  {
  }
}
