/** The linked lists of the list benchmark: removing an item and putting it back, reversing, and the bottom-up
    merge sort that relinks the nodes it is traversing. NULL is -1. */
module ListSort {
  import opened Sequences
  import opened Words

  datatype Info = Info(data16: int, idx: int)
  datatype Node = Node(next: int, info: int)

  // --------------------------------------------------------------------------
  // Lists
  // --------------------------------------------------------------------------

  ghost predicate Leads(nodes: seq<Node>, l: seq<int>, i: int, to: int) {
    0 <= i < |l| && 0 <= l[i] < |nodes| && nodes[l[i]].next == to
  }

  ghost predicate Joined(nodes: seq<Node>, l: seq<int>, i: int) {
    0 <= i && i + 1 < |l| && Leads(nodes, l, i, l[i + 1])
  }

  /** The nodes l are linked in order; where the last one leads is open. */
  ghost predicate Linked(nodes: seq<Node>, l: seq<int>) {
    && (forall i :: 0 <= i < |l| ==> 0 <= l[i] < |nodes|)
    && (forall i :: 0 <= i < |l| - 1 ==> Joined(nodes, l, i))
  }

  /** l is the null-terminated list that starts at head. */
  ghost predicate IsList(nodes: seq<Node>, head: int, l: seq<int>) {
    head == HeadOf(l) && Linked(nodes, l) && (l != [] ==> Leads(nodes, l, |l| - 1, -1))
  }

  /** A null-terminated list has no node twice. */
  lemma {:induction false} NoCycle(nodes: seq<Node>, l: seq<int>, i: int, j: int)
    requires IsList(nodes, HeadOf(l), l) && 0 <= i < j < |l|
    ensures l[i] != l[j]
    decreases |l| - j
  {
    assert Joined(nodes, l, i);
    if j + 1 < |l| {
      NoCycle(nodes, l, i + 1, j + 1);
      assert Joined(nodes, l, j);
    } else {
      assert Leads(nodes, l, j, -1);
    }
  }

  lemma ListDistinct(nodes: seq<Node>, head: int, l: seq<int>)
    requires IsList(nodes, head, l)
    ensures Distinct(l)
  {
    forall i, j | 0 <= i < j < |l|
      ensures l[i] != l[j]
    {
      NoCycle(nodes, l, i, j);
    }
  }

  // --------------------------------------------------------------------------
  // Orders
  // --------------------------------------------------------------------------

  /** A comparator and the items of the nodes it is applied to. */
  datatype Order = Order(vals: seq<Info>, cmp: (Info, Info) -> int)

  function Val(o: Order, x: int): Info {
    if 0 <= x < |o.vals| then o.vals[x] else Info(0, 0)
  }

  predicate Le(o: Order, x: int, y: int) {
    o.cmp(Val(o, x), Val(o, y)) <= 0
  }

  ghost predicate TotalPreorder(cmp: (Info, Info) -> int) {
    && (forall a, b :: cmp(a, b) <= 0 || cmp(b, a) <= 0)
    && (forall a, b, c :: cmp(a, b) <= 0 && cmp(b, c) <= 0 ==> cmp(a, c) <= 0)
  }

  /** x may stand before y: it is lower, or ties with y and stood before it in the original list. */
  ghost predicate Before(o: Order, l0: seq<int>, x: int, y: int) {
    Le(o, x, y) && (Le(o, y, x) ==> Earlier(l0, x, y))
  }

  ghost predicate Earlier(l0: seq<int>, x: int, y: int) {
    exists i, j :: 0 <= i < j < |l0| && l0[i] == x && l0[j] == y
  }

  /** Sorted, and stable with respect to l0. */
  ghost predicate Ordered(o: Order, l0: seq<int>, l: seq<int>) {
    forall i, j :: 0 <= i < j < |l| ==> Before(o, l0, l[i], l[j])
  }

  // --------------------------------------------------------------------------
  // Merging
  // --------------------------------------------------------------------------

  /** Ties are taken from the left. */
  function Merge(o: Order, a: seq<int>, b: seq<int>): (m: seq<int>)
    ensures |m| == |a| + |b|
  {
    if a == [] then b
    else if b == [] then a
    else if Le(o, a[0], b[0]) then [a[0]] + Merge(o, a[1..], b)
    else [b[0]] + Merge(o, a, b[1..])
  }

  /** One pass: neighbouring runs of width w are merged. */
  function Pass(o: Order, l: seq<int>, w: nat): (m: seq<int>)
    requires w > 0
    ensures |m| == |l|
  {
    if l == [] then []
    else
      var k, n := Min(w, |l|), Min(2 * w, |l|);
      Merge(o, l[..k], l[k..n]) + Pass(o, l[n..], w)
  }

  lemma HeadBag(s: seq<int>)
    requires s != []
    ensures multiset(s) == multiset{s[0]} + multiset(s[1..]) && multiset(s[1..]) == multiset(s) - multiset{s[0]}
  {
    assert s == [s[0]] + s[1..];
  }

  lemma {:induction false} MergeMultiset(o: Order, a: seq<int>, b: seq<int>)
    ensures multiset(Merge(o, a, b)) == multiset(a) + multiset(b)
    decreases |a| + |b|
  {
    if a != [] && b != [] {
      if Le(o, a[0], b[0]) {
        MergeMultiset(o, a[1..], b);
        HeadBag(a);
        HeadBag(Merge(o, a, b));
      } else {
        MergeMultiset(o, a, b[1..]);
        HeadBag(b);
        HeadBag(Merge(o, a, b));
      }
    }
  }

  lemma BeforeTrans(o: Order, l0: seq<int>, x: int, y: int, z: int)
    requires TotalPreorder(o.cmp) && Distinct(l0) && Before(o, l0, x, y) && Before(o, l0, y, z)
    ensures Before(o, l0, x, z)
  {
    if Le(o, z, x) {
      assert Le(o, z, y) && Le(o, y, x);
      var i, j :| 0 <= i < j < |l0| && l0[i] == x && l0[j] == y;
      var i', j' :| 0 <= i' < j' < |l0| && l0[i'] == y && l0[j'] == z;
      assert j == i';
      assert Earlier(l0, x, z);
    }
  }

  /** Every element of a stands before every element of b in l0. */
  ghost predicate AllEarlier(l0: seq<int>, a: seq<int>, b: seq<int>) {
    forall i, j :: 0 <= i < |a| && 0 <= j < |b| ==> Earlier(l0, a[i], b[j])
  }

  lemma {:induction false} MergeFrom(o: Order, a: seq<int>, b: seq<int>)
    ensures forall i :: 0 <= i < |Merge(o, a, b)| ==> Merge(o, a, b)[i] in a || Merge(o, a, b)[i] in b
    decreases |a| + |b|
  {
    if a != [] && b != [] {
      if Le(o, a[0], b[0]) {
        MergeFrom(o, a[1..], b);
      } else {
        MergeFrom(o, a, b[1..]);
      }
    }
  }

  lemma EitherLe(o: Order, x: int, y: int)
    requires TotalPreorder(o.cmp)
    ensures Le(o, x, y) || Le(o, y, x)
  {
  }

  /** Merging two ordered runs, the first from an earlier stretch of l0, gives an ordered run. */
  lemma {:induction false} MergeOrdered(o: Order, l0: seq<int>, a: seq<int>, b: seq<int>)
    requires TotalPreorder(o.cmp) && Distinct(l0)
    requires Ordered(o, l0, a) && Ordered(o, l0, b) && AllEarlier(l0, a, b)
    ensures Ordered(o, l0, Merge(o, a, b))
    decreases |a| + |b|
  {
    hide Distinct, TotalPreorder, Earlier;
    if a != [] && b != [] {
      if Le(o, a[0], b[0]) {
        MergeOrdered(o, l0, a[1..], b);
        MergeFrom(o, a[1..], b);
        assert Before(o, l0, a[0], b[0]);
        HeadFirst(o, l0, a[0], a[1..], b, Merge(o, a[1..], b));
      } else {
        MergeOrdered(o, l0, a, b[1..]);
        MergeFrom(o, a, b[1..]);
        EitherLe(o, a[0], b[0]);
        HeadFirst(o, l0, b[0], b[1..], a, Merge(o, a, b[1..]));
      }
    }
  }

  lemma HeadFirst(o: Order, l0: seq<int>, x: int, xs: seq<int>, ys: seq<int>, m: seq<int>)
    requires TotalPreorder(o.cmp) && Distinct(l0) && ys != []
    requires Ordered(o, l0, [x] + xs) && Ordered(o, l0, ys) && Before(o, l0, x, ys[0])
    requires Ordered(o, l0, m) && forall i :: 0 <= i < |m| ==> m[i] in xs || m[i] in ys
    ensures Ordered(o, l0, [x] + m)
  {
    forall i | 0 <= i < |m|
      ensures Before(o, l0, x, m[i])
    {
      if m[i] in xs {
        var k :| 0 <= k < |xs| && xs[k] == m[i];
        assert Before(o, l0, ([x] + xs)[0], ([x] + xs)[k + 1]);
      } else {
        var k :| 0 <= k < |ys| && ys[k] == m[i];
        if k > 0 {
          BeforeTrans(o, l0, x, ys[0], ys[k]);
        }
      }
    }
  }

  // --------------------------------------------------------------------------
  // Passes
  // --------------------------------------------------------------------------

  /** From position c of l0 on, l consists of ordered runs of width w, each over its own stretch of l0. */
  ghost predicate Runs(o: Order, l0: seq<int>, c: nat, l: seq<int>, w: nat)
    requires w > 0
    decreases |l|
  {
    && c + |l| == |l0|
    && (l != [] ==>
          var n := Min(w, |l|);
          && multiset(l[..n]) == multiset(l0[c..c + n]) && Ordered(o, l0, l[..n])
          && Runs(o, l0, c + n, l[n..], w))
  }

  lemma {:induction false} SingleRuns(o: Order, l0: seq<int>, c: nat)
    requires c <= |l0|
    ensures Runs(o, l0, c, l0[c..], 1)
    decreases |l0| - c
  {
    if c < |l0| {
      SingleRuns(o, l0, c + 1);
      assert l0[c..][1..] == l0[c + 1..];
      assert l0[c..][..1] == l0[c..c + 1];
    }
  }

  lemma InStretch(l0: seq<int>, c: nat, n: nat, a: seq<int>, x: int) returns (i: nat)
    requires c + n <= |l0| && multiset(a) == multiset(l0[c..c + n]) && x in a
    ensures c <= i < c + n && l0[i] == x
  {
    assert x in multiset(l0[c..c + n]);
    var k :| 0 <= k < n && l0[c..c + n][k] == x;
    i := c + k;
  }

  lemma StretchesEarlier(l0: seq<int>, c: nat, k: nat, n: nat, a: seq<int>, b: seq<int>)
    requires k <= n && c + n <= |l0|
    requires multiset(a) == multiset(l0[c..c + k]) && multiset(b) == multiset(l0[c + k..c + n])
    ensures AllEarlier(l0, a, b)
  {
    forall i, j | 0 <= i < |a| && 0 <= j < |b|
      ensures Earlier(l0, a[i], b[j])
    {
      var x := InStretch(l0, c, k, a, a[i]);
      var y := InStretch(l0, c + k, n - k, b, b[j]);
    }
  }

  /** A pass over runs of width w makes runs of width 2w. */
  lemma {:induction false} PassDoubles(o: Order, l0: seq<int>, c: nat, l: seq<int>, w: nat)
    requires w > 0 && TotalPreorder(o.cmp) && Distinct(l0) && Runs(o, l0, c, l, w)
    ensures Runs(o, l0, c, Pass(o, l, w), 2 * w)
    decreases |l|
  {
    hide TotalPreorder, Distinct, Ordered, Merge, Runs, Pass;
    PassStep(o, l, w);
    if l == [] {
      NoRuns(o, l0, c, w, 2 * w);
    } else {
      var k, n := Min(w, |l|), Min(2 * w, |l|);
      MergedRun(o, l0, c, l, w);
      PassDoubles(o, l0, c + n, l[n..], w);
      RunThen(o, l0, c, Merge(o, l[..k], l[k..n]), Pass(o, l[n..], w), 2 * w);
    }
  }

  /** The first two runs merged are a run of their whole stretch. */
  lemma MergedRun(o: Order, l0: seq<int>, c: nat, l: seq<int>, w: nat)
    requires w > 0 && TotalPreorder(o.cmp) && Distinct(l0) && Runs(o, l0, c, l, w) && l != []
    ensures var (k, n) := (Min(w, |l|), Min(2 * w, |l|));
      && c + |l| == |l0| && Runs(o, l0, c + n, l[n..], w)
      && multiset(Merge(o, l[..k], l[k..n])) == multiset(l0[c..c + n]) && Ordered(o, l0, Merge(o, l[..k], l[k..n]))
  {
    hide TotalPreorder, Distinct, Ordered, Merge, AllEarlier, Runs;
    var k, n := Min(w, |l|), Min(2 * w, |l|);
    var a, b := l[..k], l[k..n];
    FirstRun(o, l0, c, l, w);
    SecondRun(o, l0, c, l, w);
    StretchesEarlier(l0, c, k, n, a, b);
    MergeOrdered(o, l0, a, b);
    MergedStretch(o, l0, c, k, n, a, b);
  }

  lemma PassStep(o: Order, l: seq<int>, w: nat)
    requires w > 0
    ensures l == [] ==> Pass(o, l, w) == []
    ensures l != [] ==>
      var k, n := Min(w, |l|), Min(2 * w, |l|);
      Pass(o, l, w) == Merge(o, l[..k], l[k..n]) + Pass(o, l[n..], w)
  {
  }

  lemma NoRuns(o: Order, l0: seq<int>, c: nat, w: nat, w': nat)
    requires w > 0 && w' > 0 && Runs(o, l0, c, [], w)
    ensures Runs(o, l0, c, [], w')
  {
  }

  lemma FirstRun(o: Order, l0: seq<int>, c: nat, l: seq<int>, w: nat)
    requires w > 0 && Runs(o, l0, c, l, w) && l != []
    ensures c + |l| == |l0|
    ensures var k := Min(w, |l|); multiset(l[..k]) == multiset(l0[c..c + k]) && Ordered(o, l0, l[..k])
  {
  }

  lemma MergedStretch(o: Order, l0: seq<int>, c: nat, k: nat, n: nat, a: seq<int>, b: seq<int>)
    requires k <= n && c + n <= |l0|
    requires multiset(a) == multiset(l0[c..c + k]) && multiset(b) == multiset(l0[c + k..c + n])
    ensures multiset(Merge(o, a, b)) == multiset(l0[c..c + n])
  {
    MergeMultiset(o, a, b);
    assert l0[c..c + n] == l0[c..c + k] + l0[c + k..c + n];
  }

  lemma RunThen(o: Order, l0: seq<int>, c: nat, r: seq<int>, more: seq<int>, w: nat)
    requires w > 0 && 0 < |r| <= w && (more != [] ==> |r| == w)
    requires c + |r| <= |l0| && multiset(r) == multiset(l0[c..c + |r|]) && Ordered(o, l0, r)
    requires Runs(o, l0, c + |r|, more, w)
    ensures Runs(o, l0, c, r + more, w)
  {
    var l := r + more;
    assert l[..|r|] == r && l[|r|..] == more;
    assert Min(w, |l|) == |r|;
  }

  lemma SecondRun(o: Order, l0: seq<int>, c: nat, l: seq<int>, w: nat)
    requires w > 0 && Runs(o, l0, c, l, w) && l != []
    ensures c + |l| == |l0|
    ensures var k, n := Min(w, |l|), Min(2 * w, |l|);
      && multiset(l[k..n]) == multiset(l0[c + k..c + n]) && Ordered(o, l0, l[k..n])
      && Runs(o, l0, c + n, l[n..], w)
  {
    hide Ordered, Runs, Min;
    SecondBounds(|l|, w);
    var k := Min(w, |l|);
    var d := Min(w, |l| - k);
    MoreRuns(o, l0, c, l, w);
    FirstRunLength(o, l0, c, l, w);
    var tail := l[k..];
    TailRun(o, l0, c + k, tail, w);
    SliceTwice(l, k, d);
    assert tail[..d] == l[k..k + d] && tail[d..] == l[k + d..];
  }

  lemma TailRun(o: Order, l0: seq<int>, c: nat, t: seq<int>, w: nat)
    requires w > 0 && Runs(o, l0, c, t, w)
    ensures c + |t| == |l0|
    ensures var d := Min(w, |t|);
      && multiset(t[..d]) == multiset(l0[c..c + d]) && Ordered(o, l0, t[..d]) && Runs(o, l0, c + d, t[d..], w)
  {
    hide Ordered, Runs;
    FirstRunLength(o, l0, c, t, w);
    if t == [] {
      assert t[..0] == [] && t[0..] == t && l0[c..c] == [];
      NothingOrdered(o, l0);
    } else {
      FirstRun(o, l0, c, t, w);
      MoreRuns(o, l0, c, t, w);
    }
  }

  lemma SliceTwice(l: seq<int>, k: nat, d: nat)
    requires k + d <= |l|
    ensures l[k..][..d] == l[k..k + d] && l[k..][d..] == l[k + d..]
  {
  }

  lemma SecondBounds(m: nat, w: nat)
    ensures 0 <= Min(w, m) <= Min(2 * w, m) <= m && 0 <= Min(w, m - Min(w, m))
    ensures Min(w, m) + Min(w, m - Min(w, m)) == Min(2 * w, m)
  {
  }

  lemma MoreRuns(o: Order, l0: seq<int>, c: nat, l: seq<int>, w: nat)
    requires w > 0 && Runs(o, l0, c, l, w) && l != []
    ensures Runs(o, l0, c + Min(w, |l|), l[Min(w, |l|)..], w)
  {
  }

  lemma FirstRunLength(o: Order, l0: seq<int>, c: nat, l: seq<int>, w: nat)
    requires w > 0 && Runs(o, l0, c, l, w)
    ensures c + |l| == |l0|
  {
  }

  lemma NothingOrdered(o: Order, l0: seq<int>)
    ensures Ordered(o, l0, [])
  {
  }

  /** A pass that is a single merge leaves the whole list sorted and stable. */
  lemma OneRun(o: Order, l0: seq<int>, l: seq<int>, w: nat)
    requires w > 0 && Runs(o, l0, 0, l, w) && |l| <= w
    ensures multiset(l) == multiset(l0) && Ordered(o, l0, l)
  {
    if l != [] {
      assert l[..|l|] == l && l0[..|l|] == l0;
    } else {
      assert l0 == l;
    }
  }

  /** There is only one sorted and stable arrangement of a list. */
  lemma {:induction false} OrderedIsUnique(o: Order, l0: seq<int>, l: seq<int>, m: seq<int>)
    requires Distinct(l0) && Ordered(o, l0, l) && Ordered(o, l0, m) && multiset(l) == multiset(m)
    ensures l == m
    decreases |l|
  {
    hide Before, Distinct, Ordered;
    assert |l| == |multiset(l)| == |multiset(m)| == |m|;
    if l != [] {
      SameHead(o, l0, l, m);
      HeadBag(l);
      HeadBag(m);
      assert multiset(l[1..]) == multiset(m[1..]);
      OrderedTail(o, l0, l);
      OrderedTail(o, l0, m);
      OrderedIsUnique(o, l0, l[1..], m[1..]);
    }
  }

  lemma OrderedTail(o: Order, l0: seq<int>, l: seq<int>)
    requires Ordered(o, l0, l) && l != []
    ensures Ordered(o, l0, l[1..])
  {
    hide Before;
  }

  lemma SameHead(o: Order, l0: seq<int>, l: seq<int>, m: seq<int>)
    requires Distinct(l0) && Ordered(o, l0, l) && Ordered(o, l0, m) && multiset(l) == multiset(m) && l != [] && m != []
    ensures l[0] == m[0]
  {
    hide Before, Distinct;
    var x, y := l[0], m[0];
    assert x in multiset(m) && y in multiset(l);
    var i :| 0 <= i < |l| && l[i] == y;
    if i > 0 {
      BeforeOneWay(o, l0, x, y);
    }
  }

  lemma BeforeOneWay(o: Order, l0: seq<int>, x: int, y: int)
    requires Distinct(l0) && Before(o, l0, x, y)
    ensures !Before(o, l0, y, x)
  {
    if Le(o, y, x) {
      var i, j :| 0 <= i < j < |l0| && l0[i] == x && l0[j] == y;
      forall i', j' | 0 <= i' < j' < |l0|
        ensures !(l0[i'] == y && l0[j'] == x)
      {
      }
    }
  }

  // --------------------------------------------------------------------------
  // Comparators
  // --------------------------------------------------------------------------

  /** cmp_idx without results: the low byte of the data is restored from the high byte. */
  function Regen(i: Info): Info {
    var high := (i.data16 % 65536) / 256;
    var word := 257 * high;
    Info(if word >= 32768 then word - 65536 else word, i.idx)
  }

  lemma RegenOnce(i: Info)
    ensures Regen(Regen(i)) == Regen(i)
  {
    var high := (i.data16 % 65536) / 256;
    HighByte(high, 257 * high);
    HighByte(high, 257 * high - 65536);
  }

  lemma HighByte(high: int, word: int)
    requires 0 <= high < 256 && (word == 257 * high || word == 257 * high - 65536)
    ensures (word % 65536) / 256 == high && word % 256 == high
  {
    assert word % 65536 == 256 * high + high;
  }

  /** Both bytes of the 16-bit data are its high byte then, and nothing else has changed. */
  lemma RegenMeaning(i: Info)
    ensures var (x, y) := (i.data16, Regen(i).data16);
      -0x8000 <= y < 0x8000 && y % 256 == (x % 65536) / 256 && (y % 65536) / 256 == (x % 65536) / 256
    ensures Regen(i).idx == i.idx
  {
    var high := (i.data16 % 65536) / 256;
    HighByte(high, 257 * high);
    HighByte(high, 257 * high - 65536);
  }

  /** The comparison cmp_idx returns. */
  function CmpIdx(a: Info, b: Info): int {
    a.idx - b.idx
  }

  ghost predicate IgnoresData(cmp: (Info, Info) -> int) {
    forall a: Info, b: Info :: cmp(a, b) == cmp(Info(0, a.idx), Info(0, b.idx))
  }

  lemma CmpIdxFits()
    ensures TotalPreorder(CmpIdx) && IgnoresData(CmpIdx)
  {
  }

  /** What a sort starts from: the items, which item each node carries, and how it compares. */
  datatype Base = Base(infos: seq<Info>, of: seq<int>, cmp: (Info, Info) -> int, regen: bool)

  function ItemOf(b: Base, x: int): Info {
    if 0 <= x < |b.of| && 0 <= b.of[x] < |b.infos| then b.infos[b.of[x]] else Info(0, 0)
  }

  function OrderOf(b: Base): Order {
    Order(seq(|b.of|, x => ItemOf(b, x)), b.cmp)
  }

  /** Comparing changes no item but by regenerating it, and no node's item. */
  ghost predicate Kept(b: Base, nodes: seq<Node>, infos: seq<Info>) {
    && |nodes| == |b.of| && |infos| == |b.infos|
    && (forall x :: 0 <= x < |nodes| ==> nodes[x].info == b.of[x])
    && (forall k :: 0 <= k < |infos| ==> infos[k] == b.infos[k] || (b.regen && infos[k] == Regen(b.infos[k])))
  }

  ghost predicate Fits(b: Base) {
    TotalPreorder(b.cmp) && (b.regen ==> IgnoresData(b.cmp))
  }

  ghost predicate Carries(b: Base, l: seq<int>) {
    forall i :: 0 <= i < |l| ==> 0 <= l[i] < |b.of| && 0 <= b.of[l[i]] < |b.infos|
  }

  /** The item of node x has been regenerated. */
  ghost predicate Fresh(b: Base, infos: seq<Info>, x: int) {
    0 <= x < |b.of| && 0 <= b.of[x] < |b.infos| && |infos| == |b.infos| && infos[b.of[x]] == Regen(b.infos[b.of[x]])
  }

  ghost predicate Fresher(b: Base, infos: seq<Info>, infos': seq<Info>) {
    |infos'| == |infos| == |b.infos| && forall k :: 0 <= k < |infos| ==> infos'[k] == infos[k] || infos'[k] == Regen(b.infos[k])
  }

  // --------------------------------------------------------------------------
  // Relinking
  // --------------------------------------------------------------------------

  /** Three lists without a common node and without repetition. */
  ghost predicate Separate(out: seq<int>, a: seq<int>, r: seq<int>) {
    Distinct(out) && Distinct(a) && Distinct(r) && Apart(out, a) && Apart(out, r) && Apart(a, r)
  }

  lemma TakeLeft(out: seq<int>, a: seq<int>, r: seq<int>)
    requires Separate(out, a, r) && a != []
    ensures Separate(out + [a[0]], a[1..], r) && a[0] !in out
  {
  }

  lemma TakeRight(out: seq<int>, a: seq<int>, r: seq<int>)
    requires Separate(out, a, r) && r != []
    ensures Separate(out + [r[0]], a, r[1..]) && r[0] !in out
  {
  }

  function SetNext(nodes: seq<Node>, t: int, e: int): seq<Node>
    requires 0 <= t < |nodes|
  {
    nodes[t := nodes[t].(next := e)]
  }

  lemma LinkedFrame(nodes: seq<Node>, t: int, e: int, l: seq<int>)
    requires Linked(nodes, l) && 0 <= t < |nodes| && t !in l
    ensures Linked(SetNext(nodes, t, e), l)
  {
    forall i | 0 <= i < |l| - 1
      ensures Joined(SetNext(nodes, t, e), l, i)
    {
      assert Joined(nodes, l, i);
    }
  }

  lemma ListFrame(nodes: seq<Node>, t: int, e: int, head: int, l: seq<int>)
    requires IsList(nodes, head, l) && 0 <= t < |nodes| && t !in l
    ensures IsList(SetNext(nodes, t, e), head, l)
  {
    LinkedFrame(nodes, t, e, l);
  }

  /** Linking e behind the last node of out appends it. */
  lemma LinkedAppend(nodes: seq<Node>, out: seq<int>, e: int)
    requires Linked(nodes, out) && out != [] && Distinct(out) && 0 <= e < |nodes|
    ensures Linked(SetNext(nodes, out[|out| - 1], e), out + [e])
  {
    var n, nodes' := |out|, SetNext(nodes, out[|out| - 1], e);
    forall i | 0 <= i < n
      ensures Joined(nodes', out + [e], i)
    {
      if i < n - 1 {
        assert Joined(nodes, out, i);
        assert out[i] != out[n - 1];
      }
    }
  }

  lemma LinkedRest(nodes: seq<Node>, l: seq<int>, n: nat)
    requires Linked(nodes, l) && n <= |l|
    ensures Linked(nodes, l[n..]) && Linked(nodes, l[..n])
  {
    forall i | 0 <= i < |l[n..]| - 1
      ensures Joined(nodes, l[n..], i)
    {
      assert Joined(nodes, l, n + i);
    }
    forall i | 0 <= i < n - 1
      ensures Joined(nodes, l[..n], i)
    {
      assert Joined(nodes, l, i);
    }
  }

  lemma ListRest(nodes: seq<Node>, head: int, l: seq<int>, n: nat)
    requires IsList(nodes, head, l) && n <= |l|
    ensures IsList(nodes, HeadOf(l[n..]), l[n..])
  {
    LinkedRest(nodes, l, n);
    if n < |l| {
      assert Leads(nodes, l, |l| - 1, -1);
    }
  }

  /** Where the first node leads. */
  lemma NextOfHead(nodes: seq<Node>, head: int, l: seq<int>)
    requires IsList(nodes, head, l) && l != []
    ensures 0 <= head < |nodes| && nodes[head].next == HeadOf(l[1..]) && IsList(nodes, nodes[head].next, l[1..])
  {
    ListRest(nodes, head, l, 1);
    if |l| > 1 {
      assert Joined(nodes, l, 0);
    } else {
      assert Leads(nodes, l, 0, -1);
    }
  }

  // --------------------------------------------------------------------------
  // The list operations
  // --------------------------------------------------------------------------

  class Arena {
    const nodes: array<Node>
    const infos: array<Info>

    constructor (ns: array<Node>, data: array<Info>)
      ensures nodes == ns && infos == data
    {
      nodes, infos := ns, data;
    }

    /** Compares the items of nodes x and y; cmp_idx without results also regenerates their data. */
    method Compare(x: int, y: int, cmp: (Info, Info) -> int, regen: bool, ghost b: Base) returns (c: int)
      requires b.cmp == cmp && b.regen == regen && Fits(b) && Kept(b, nodes[..], infos[..]) && Carries(b, [x, y])
      modifies infos
      ensures c <= 0 <==> Le(OrderOf(b), x, y)
      ensures Kept(b, nodes[..], infos[..]) && Fresher(b, old(infos[..]), infos[..])
      ensures regen ==> Fresh(b, infos[..], x) && Fresh(b, infos[..], y)
    {
      hide TotalPreorder, Regen;
      assert [x, y][0] == x && [x, y][1] == y;
      var i, j := nodes[x].info, nodes[y].info;
      if regen {
        RegenOnce(b.infos[i]);
        RegenOnce(b.infos[j]);
        infos[i] := Regen(infos[i]);
        infos[j] := Regen(infos[j]);
        RegenIdx(b.infos[i]);
        RegenIdx(b.infos[j]);
      }
      c := cmp(infos[i], infos[j]);
      assert Val(OrderOf(b), x) == b.infos[i] && Val(OrderOf(b), y) == b.infos[j];
    }

    /** Steps `insize` places along from p, counting the steps. */
    method StepAlong(p: int, insize: int, ghost l: seq<int>) returns (q: int, psize: int)
      requires insize > 0 && l != [] && IsList(nodes[..], p, l)
      ensures psize == Min(insize, |l|) && q == HeadOf(l[psize..])
    {
      q, psize := p, 0;
      var i := 0;
      while i < insize
        invariant 0 <= i <= insize && psize == i <= |l| && q == HeadOf(l[i..]) && (i < insize ==> i < |l|)
        invariant IsList(nodes[..], q, l[i..])
      {
        psize := psize + 1;
        NextOfHead(nodes[..], q, l[i..]);
        assert l[i..][1..] == l[i + 1..];
        q := nodes[q].next;
        i := i + 1;
        if q == -1 {
          InRange(nodes[..], q, l[i..]);
          return;
        }
      }
    }

    /** Appends e to the list being built. */
    method Emit(e: int, list: int, tail: int, ghost out: seq<int>) returns (list': int, tail': int)
      requires Linked(nodes[..], out) && Distinct(out) && 0 <= e < nodes.Length
      requires list == HeadOf(out) && tail == if out == [] then -1 else out[|out| - 1]
      modifies nodes
      ensures Linked(nodes[..], out + [e]) && list' == HeadOf(out + [e]) && tail' == e
      ensures nodes[..] == if out == [] then old(nodes[..]) else SetNext(old(nodes[..]), out[|out| - 1], e)
    {
      list' := list;
      if tail != -1 {
        LinkedAppend(nodes[..], out, e);
        ghost var was := nodes[..];
        nodes[tail] := nodes[tail].(next := e);
        assert nodes[..] == SetNext(was, tail, e);
      } else {
        LastInRange(nodes[..], out);
        list' := e;
      }
      tail' := e;
    }

    /** Merges the psize nodes from p and at most qsize nodes from q, q being where the first run ends, and appends
        the result to the list being built (lines 453-478). */
    method MergeRuns(p0: int, psize0: int, q0: int, qsize0: int, list0: int, tail0: int,
                     cmp: (Info, Info) -> int, regen: bool,
                     ghost base: Base, ghost out0: seq<int>, ghost a0: seq<int>, ghost r0: seq<int>)
      returns (q: int, list: int, tail: int, ghost out: seq<int>, ghost r: seq<int>)
      requires base.cmp == cmp && base.regen == regen && Fits(base) && Kept(base, nodes[..], infos[..])
      requires Carries(base, a0) && Carries(base, r0)
      requires |a0| == psize0 > 0 && qsize0 > 0 && p0 == HeadOf(a0) && q0 == HeadOf(r0)
      requires IsList(nodes[..], p0, a0 + r0) && Linked(nodes[..], out0) && Separate(out0, a0, r0)
      requires list0 == HeadOf(out0) && tail0 == if out0 == [] then -1 else out0[|out0| - 1]
      modifies nodes, infos
      ensures var n := Min(qsize0, |r0|);
        && out == out0 + Merge(OrderOf(base), a0, r0[..n]) && r == r0[n..]
      ensures q == HeadOf(r) && IsList(nodes[..], q, r) && Linked(nodes[..], out) && Separate(out, [], r)
      ensures list == HeadOf(out) && out != [] && tail == out[|out| - 1]
      ensures Kept(base, nodes[..], infos[..]) && Fresher(base, old(infos[..]), infos[..])
      ensures regen && r0 != [] ==> Fresh(base, infos[..], a0[0]) && Fresh(base, infos[..], r0[0])
      ensures r0 == [] ==> infos[..] == old(infos[..])
    {
      hide Merging, Separate, IsList, Linked, Merge, Kept, Fits, Carries, Fresh, Fresher, Le, OrderOf, Appended, Produces;
      var p, psize, qsize := p0, psize0, qsize0;
      q, list, tail := q0, list0, tail0;
      ghost var o, a := OrderOf(base), a0;
      out, r := out0, r0;
      SplitList(nodes[..], a0, r0);
      FresherSelf(base, nodes[..], infos[..]);
      StartMerging(base, nodes[..], infos[..], p, psize, q, list, tail, out, a, r);
      ghost var all, rest := out + Merge(o, a, r[..Min(qsize, |r|)]), r[Min(qsize, |r|)..];
      ProducesStart(o, out, a, r, qsize);
      while psize > 0 || (qsize > 0 && q != -1)
        invariant Merging(base, nodes[..], infos[..], p, psize, q, list, tail, out, a, r) && 0 <= qsize
        invariant Produces(o, out, a, r, qsize, all, rest)
        invariant Fresher(base, old(infos[..]), infos[..])
        invariant |out| >= |out0| && (|out| == |out0| ==> a == a0 && r == r0 && qsize == qsize0)
        invariant |out| > |out0| && regen && r0 != [] ==> Fresh(base, infos[..], a0[0]) && Fresh(base, infos[..], r0[0])
        invariant r0 == [] ==> r == [] && infos[..] == old(infos[..])
        decreases |a| + |r|
      {
        var e, fromP;
        ghost var before := infos[..];
        MergingFacts(base, nodes[..], infos[..], p, psize, q, list, tail, out, a, r);
        if psize == 0 {
          fromP := false;
        } else if qsize == 0 || q == -1 {
          fromP := true;
        } else {
          var c := Compare(p, q, cmp, regen, base);
          FresherStep(base, old(infos[..]), before, infos[..], HeadOf(a0), HeadOf(r0));
          KeptMerging(base, nodes[..], before, infos[..], p, psize, q, list, tail, out, a, r);
          fromP := c <= 0;
        }
        ghost var ns, p', q', list', tail' := nodes[..], p, q, list, tail;
        if fromP {
          e, p, psize := p, nodes[p].next, psize - 1;
          list, tail := Emit(e, list, tail, out);
          AppendedIs(ns, out, e);
          ProducesLeft(o, out, a, r, qsize, all, rest);
          AdvanceLeft(base, ns, infos[..], p', psize + 1, q, list', tail', out, a, r, nodes[..]);
          out, a := out + [e], a[1..];
        } else {
          e, q, qsize := q, nodes[q].next, qsize - 1;
          list, tail := Emit(e, list, tail, out);
          AppendedIs(ns, out, e);
          ProducesRight(o, out, a, r, qsize + 1, all, rest);
          AdvanceRight(base, ns, infos[..], p, psize, q', list', tail', out, a, r, nodes[..]);
          out, r := out + [e], r[1..];
        }
      }
      MergingFacts(base, nodes[..], infos[..], p, psize, q, list, tail, out, a, r);
      ProducesEnd(o, out, a, r, qsize, all, rest);
    }

    /** One pass over the list (lines 433-484): merges neighbouring runs of `insize` nodes. */
    method SortPass(list0: int, insize: int, cmp: (Info, Info) -> int, regen: bool, ghost base: Base, ghost l: seq<int>)
      returns (list: int, nmerges: int, ghost out: seq<int>)
      requires base.cmp == cmp && base.regen == regen && Fits(base) && Kept(base, nodes[..], infos[..])
      requires insize > 0 && l != [] && IsList(nodes[..], list0, l) && Carries(base, l)
      requires regen ==> Ready(base, infos[..], l, insize)
      modifies nodes, infos
      ensures out == Pass(OrderOf(base), l, insize) && IsList(nodes[..], list, out)
      ensures Kept(base, nodes[..], infos[..])
      ensures nmerges <= 1 <==> |l| <= 2 * insize
      ensures regen ==> Ready(base, infos[..], out, 2 * insize)
      ensures |l| == 1 ==> infos[..] == old(infos[..])
    {
      hide Separate, IsList, Linked, Pass, Merge, Kept, Fits, Carries, Fresh, Fresher, Ready, Lone, OrderOf;
      var p, tail := list0, -1;
      list, nmerges := -1, 0;
      ghost var o, r := OrderOf(base), l;
      out := [];
      StartPass(nodes[..], list0, l);
      InRange(nodes[..], p, r);
      while p != -1
        invariant p == HeadOf(r) && (p == -1 <==> r == []) && IsList(nodes[..], p, r) && Carries(base, r)
        invariant Linked(nodes[..], out) && Separate(out, [], r)
        invariant list == HeadOf(out) && tail == if out == [] then -1 else out[|out| - 1]
        invariant out + Pass(o, r, insize) == Pass(o, l, insize) && |out| + |r| == |l|
        invariant Kept(base, nodes[..], infos[..])
        invariant nmerges >= 0 && (nmerges == 0 <==> out == [])
        invariant nmerges == 1 ==> |out| == Min(2 * insize, |l|)
        invariant nmerges > 1 ==> |l| > 2 * insize
        invariant regen ==> PassFresh(base, infos[..], out, r, insize)
        invariant |l| == 1 ==> infos[..] == old(infos[..])
        decreases |r|
      {
        nmerges := nmerges + 1;
        var q, psize := StepAlong(p, insize, r);
        ghost var a, r', infos0 := r[..psize], r[psize..], infos[..];
        Cut(o, base, out, r, insize);
        ghost var out', r'';
        p, list, tail, out', r'' := MergeRuns(p, psize, q, insize, list, tail, cmp, regen, base, out, a, r');
        InRange(nodes[..], p, r'');
        ShiftAll(out, Merge(o, a, r'[..Min(insize, |r'|)]), Pass(o, r'', insize));
        if regen {
          MergedFresh(base, o, infos0, infos[..], out, r, insize);
        }
        out, r := out', r'';
      }
      PassNone(o, insize);
      assert out + [] == out;
      ghost var ns := nodes[..];
      Terminated(ns, out);
      nodes[tail] := nodes[tail].(next := -1);
      assert nodes[..] == SetNext(ns, tail, -1);
      KeptFrame(base, ns, tail, -1, infos[..]);
      if regen {
        PassReady(base, infos[..], out, insize);
      }
    }

    /** Sorts a non-empty list (lines 426-496). */
    method MergeSort(list0: int, cmp: (Info, Info) -> int, regen: bool, ghost l0: seq<int>)
      returns (list: int, ghost out: seq<int>, ghost base: Base)
      requires l0 != [] && IsList(nodes[..], list0, l0) && TotalPreorder(cmp) && (regen ==> IgnoresData(cmp))
      requires forall i :: 0 <= i < |l0| && 0 <= l0[i] < nodes.Length ==> 0 <= nodes[l0[i]].info < infos.Length
      modifies nodes, infos
      ensures base == Base(old(infos[..]), Of(old(nodes[..])), cmp, regen)
      ensures IsList(nodes[..], list, out) && multiset(out) == multiset(l0) && Ordered(OrderOf(base), l0, out)
      ensures Kept(base, nodes[..], infos[..])
      ensures regen && |l0| > 1 ==> forall i :: 0 <= i < |out| ==> Fresh(base, infos[..], out[i])
      ensures |l0| == 1 ==> infos[..] == old(infos[..])
    {
      hide IsList, Pass, Kept, Carries, Fresh, Ready, OrderOf, Runs, Ordered, TotalPreorder, IgnoresData, Distinct, Linked;
      base := Base(infos[..], Of(nodes[..]), cmp, regen);
      ghost var o := OrderOf(base);
      StartSort(nodes[..], infos[..], base, list0, l0);
      OrderCmp(base);
      SingleRuns(o, l0, 0);
      assert l0[0..] == l0;
      list, out := list0, l0;
      var insize := 1;
      AllReady(base, infos[..], l0);
      while true
        invariant insize > 0 && out != [] && |out| == |l0| && IsList(nodes[..], list, out)
        invariant Runs(o, l0, 0, out, insize) && multiset(out) == multiset(l0)
        invariant Kept(base, nodes[..], infos[..]) && Carries(base, out)
        invariant regen ==> Ready(base, infos[..], out, insize)
        invariant |l0| == 1 ==> infos[..] == old(infos[..])
        decreases |l0| - insize
      {
        ghost var l := out;
        var nmerges;
        list, nmerges, out := SortPass(list, insize, cmp, regen, base, l);
        PassDoubles(o, l0, 0, l, insize);
        PassMultiset(o, l, insize);
        CarriesSame(base, l, out);
        if nmerges <= 1 {
          OneRun(o, l0, out, 2 * insize);
          if regen {
            AllFresh(base, infos[..], out, 2 * insize);
          }
          return;
        }
        insize := 2 * insize;
      }
    }

    /** Sorting by index, with or without regenerating the data. */
    method SortByIdx(list0: int, regen: bool, ghost l0: seq<int>) returns (list: int, ghost out: seq<int>)
      requires l0 != [] && IsList(nodes[..], list0, l0)
      requires forall i :: 0 <= i < |l0| && 0 <= l0[i] < nodes.Length ==> 0 <= nodes[l0[i]].info < infos.Length
      modifies nodes, infos
      ensures IsList(nodes[..], list, out) && multiset(out) == multiset(l0)
      ensures forall x :: 0 <= x < nodes.Length ==> nodes[x].info == old(nodes[x].info)
      ensures forall k :: 0 <= k < infos.Length ==> infos[k].idx == old(infos[k].idx)
      ensures ByIdx(nodes[..], infos[..], out)
      ensures forall i :: 0 <= i < |out| ==> 0 <= out[i] < nodes.Length && 0 <= nodes[out[i]].info < infos.Length
      ensures regen && |l0| > 1 ==> forall i :: 0 <= i < |out| ==>
        var (x, y) := (old(infos[..])[nodes[out[i]].info].data16, infos[nodes[out[i]].info].data16);
        -0x8000 <= y < 0x8000 && y % 256 == (x % 65536) / 256 && (y % 65536) / 256 == (x % 65536) / 256
      ensures !regen || |l0| == 1 ==> infos[..] == old(infos[..])
    {
      hide Ordered, Distinct, Regen, TotalPreorder, IgnoresData, Kept, Fresh, Carries, IsList;
      CmpIdxFits();
      ghost var base;
      StartSort(nodes[..], infos[..], Base(infos[..], Of(nodes[..]), CmpIdx, regen), list0, l0);
      list, out, base := MergeSort(list0, CmpIdx, regen, l0);
      ItemsKept(base, nodes[..], infos[..]);
      CarriesSame(base, l0, out);
      DataRestored(base, nodes[..], infos[..], out);
      OrderedByIdx(base, l0, out, nodes[..], infos[..]);
    }

    /** Removes an item by moving the next node's item into its node and unlinking the next node (lines 316-327). */
    method Remove(item: int) returns (ret: int)
      requires 0 <= item < nodes.Length && 0 <= nodes[item].next < nodes.Length && nodes[item].next != item
      modifies nodes
      ensures ret == old(nodes[item].next) && nodes[..] == Removed(old(nodes[..]), item)
    {
      ret := nodes[item].next;
      var tmp := nodes[item].info;
      nodes[item] := nodes[item].(info := nodes[ret].info);
      nodes[ret] := nodes[ret].(info := tmp);
      nodes[item] := nodes[item].(next := nodes[nodes[item].next].next);
      nodes[ret] := nodes[ret].(next := -1);
    }

    /** Links a removed node back in behind the node that took its neighbour's item (lines 345-355). */
    method UndoRemove(removed: int, modified: int) returns (r: int)
      requires 0 <= removed < nodes.Length && 0 <= modified < nodes.Length && removed != modified
      modifies nodes
      ensures r == removed && nodes[..] == Restored(old(nodes[..]), removed, modified)
    {
      var tmp := nodes[removed].info;
      nodes[removed] := nodes[removed].(info := nodes[modified].info);
      nodes[modified] := nodes[modified].(info := tmp);
      nodes[removed] := nodes[removed].(next := nodes[modified].next);
      nodes[modified] := nodes[modified].(next := removed);
      r := removed;
    }

    /** Reverses a list in place (lines 395-404). */
    method Reverse(list0: int, ghost l: seq<int>) returns (next: int)
      requires IsList(nodes[..], list0, l)
      modifies nodes
      ensures IsList(nodes[..], next, Rev(l))
      ensures forall x :: 0 <= x < nodes.Length ==> nodes[x].info == old(nodes[x].info)
      ensures forall x :: 0 <= x < nodes.Length && x !in l ==> nodes[x] == old(nodes[x])
    {
      hide IsList, Separate;
      var list := list0;
      next := -1;
      ghost var done, rest := [], l;
      StartReverse(nodes[..], list0, l);
      while list != -1
        invariant IsList(nodes[..], next, done) && IsList(nodes[..], list, rest) && Separate(done, [], rest)
        invariant list == HeadOf(rest) && (list == -1 <==> rest == []) && Rev(rest) + done == Rev(l)
        invariant forall i :: 0 <= i < |rest| ==> rest[i] in l
        invariant forall x :: 0 <= x < nodes.Length ==> nodes[x].info == old(nodes[x].info)
        invariant forall x :: 0 <= x < nodes.Length && x !in l ==> nodes[x] == old(nodes[x])
        decreases |rest|
      {
        NextOfHead(nodes[..], list, rest);
        var tmp := nodes[list].next;
        ghost var ns := nodes[..];
        InRange(ns, tmp, rest[1..]);
        ListHead(ns, tmp, rest[1..]);
        nodes[list] := nodes[list].(next := next);
        assert nodes[..] == SetNext(ns, list, next);
        ReverseStep(ns, next, done, rest);
        done, rest := [list] + done, rest[1..];
        next := list;
        list := tmp;
      }
      assert Rev(rest) + done == done;
    }
  }

  // --------------------------------------------------------------------------
  // Facts about passes over linked nodes
  // --------------------------------------------------------------------------

  /** n nodes in runs of w end with a run of one node. */
  predicate Lone(n: int, w: nat)
    requires w > 0
    decreases n
  {
    n == 1 || (n > w && Lone(n - w, w))
  }

  /** Before a pass over runs of w, only a single node left over at the end may still have its old item. */
  ghost predicate Ready(b: Base, infos: seq<Info>, l: seq<int>, w: nat)
    requires w > 0
  {
    forall i :: 0 <= i < |l| ==> Fresh(b, infos, l[i]) || w == 1 || (i == |l| - 1 && Lone(|l|, w))
  }

  ghost predicate PassFresh(b: Base, infos: seq<Info>, out: seq<int>, r: seq<int>, w: nat)
    requires w > 0
  {
    && (forall i :: 0 <= i < |out| ==>
          Fresh(b, infos, out[i]) || (r == [] && i == |out| - 1 && Lone(|out| + |r|, 2 * w)))
    && Ready(b, infos, r, w) && (r != [] && Lone(|r|, 2 * w) ==> Lone(|out| + |r|, 2 * w))
  }

  lemma StartPass(nodes: seq<Node>, head: int, l: seq<int>)
    requires IsList(nodes, head, l)
    ensures Linked(nodes, []) && Separate([], [], l) && head == HeadOf(l)
  {
    ListDistinct(nodes, head, l);
  }

  lemma Cut(o: Order, b: Base, out: seq<int>, r: seq<int>, w: nat)
    requires w > 0 && r != [] && Separate(out, [], r) && Carries(b, r)
    ensures var k, n := Min(w, |r|), Min(2 * w, |r|);
      && k > 0 && r == r[..k] + r[k..] && Separate(out, r[..k], r[k..]) && Carries(b, r[..k]) && Carries(b, r[k..])
      && r[k..][..Min(w, |r[k..]|)] == r[k..n] && r[k..][Min(w, |r[k..]|)..] == r[n..] && Carries(b, r[n..])
      && Pass(o, r, w) == Merge(o, r[..k], r[k..n]) + Pass(o, r[n..], w)
  {
    hide Separate, Pass, Carries;
    var k, n := Min(w, |r|), Min(2 * w, |r|);
    SecondBounds(|r|, w);
    SliceTwice(r, k, Min(w, |r[k..]|));
    PassStep(o, r, w);
    CutSeparate(out, r, k);
    CarriesParts(b, r, k);
    CarriesParts(b, r, n);
    assert r == r[..k] + r[k..];
  }

  lemma CutSeparate(out: seq<int>, r: seq<int>, k: nat)
    requires Separate(out, [], r) && k <= |r|
    ensures Separate(out, r[..k], r[k..])
  {
  }

  lemma CarriesParts(b: Base, r: seq<int>, k: nat)
    requires Carries(b, r) && k <= |r|
    ensures Carries(b, r[..k]) && Carries(b, r[k..])
  {
  }

  lemma ShiftAll(out: seq<int>, m: seq<int>, more: seq<int>)
    ensures out + (m + more) == out + m + more
  {
  }

  lemma PassNone(o: Order, w: nat)
    requires w > 0
    ensures Pass(o, [], w) == []
  {
  }

  /** Ending the list at its last node. */
  lemma Terminated(nodes: seq<Node>, out: seq<int>)
    requires Linked(nodes, out) && Separate(out, [], []) && out != []
    ensures 0 <= out[|out| - 1] < |nodes| && IsList(SetNext(nodes, out[|out| - 1], -1), HeadOf(out), out)
  {
    var n, nodes' := |out|, SetNext(nodes, out[|out| - 1], -1);
    forall i | 0 <= i < n - 1
      ensures Joined(nodes', out, i)
    {
      assert Joined(nodes, out, i);
      assert out[i] != out[n - 1];
    }
  }

  /** The state of a merge: what is out, and what is left of the first run and of the list behind it. */
  /** Merging what is left of both runs behind `out` gives `all`, and `rest` comes behind the second run. */
  ghost predicate Produces(o: Order, out: seq<int>, a: seq<int>, r: seq<int>, qsize: int, all: seq<int>, rest: seq<int>) {
    0 <= qsize && out + Merge(o, a, r[..Min(qsize, |r|)]) == all && r[Min(qsize, |r|)..] == rest
  }

  lemma ProducesStart(o: Order, out: seq<int>, a: seq<int>, r: seq<int>, qsize: int)
    requires 0 <= qsize
    ensures Produces(o, out, a, r, qsize, out + Merge(o, a, r[..Min(qsize, |r|)]), r[Min(qsize, |r|)..])
  {
  }

  lemma ProducesLeft(o: Order, out: seq<int>, a: seq<int>, r: seq<int>, qsize: int, all: seq<int>, rest: seq<int>)
    requires Produces(o, out, a, r, qsize, all, rest) && a != [] && (qsize == 0 || r == [] || Le(o, a[0], r[0]))
    ensures Produces(o, out + [a[0]], a[1..], r, qsize, all, rest)
  {
    hide Merge, Le;
    var run := r[..Min(qsize, |r|)];
    MergeLeft(o, a, run);
    Shift(out, a[0], Merge(o, a[1..], run));
  }

  lemma ProducesRight(o: Order, out: seq<int>, a: seq<int>, r: seq<int>, qsize: int, all: seq<int>, rest: seq<int>)
    requires Produces(o, out, a, r, qsize, all, rest) && qsize > 0 && r != [] && (a == [] || !Le(o, a[0], r[0]))
    ensures Produces(o, out + [r[0]], a, r[1..], qsize - 1, all, rest)
  {
    hide Merge, Le;
    var run := r[..Min(qsize, |r|)];
    MergeRight(o, a, run);
    RunRest(r, qsize);
    Shift(out, r[0], Merge(o, a, run[1..]));
  }

  lemma ProducesEnd(o: Order, out: seq<int>, a: seq<int>, r: seq<int>, qsize: int, all: seq<int>, rest: seq<int>)
    requires Produces(o, out, a, r, qsize, all, rest) && a == [] && (qsize == 0 || r == [])
    ensures out == all && r == rest
  {
    hide Merge;
    MergeNone(o);
    assert Min(qsize, |r|) == 0 && r[..0] == [] && r[0..] == r;
    assert out + [] == out;
  }

  ghost predicate Merging(b: Base, nodes: seq<Node>, infos: seq<Info>, p: int, psize: int, q: int, list: int, tail: int,
                          out: seq<int>, a: seq<int>, r: seq<int>)
  {
    && psize == |a| && (a != [] ==> p == a[0]) && q == HeadOf(r)
    && Linked(nodes, a) && IsList(nodes, q, r) && Linked(nodes, out) && Separate(out, a, r)
    && list == HeadOf(out) && tail == (if out == [] then -1 else out[|out| - 1])
    && Carries(b, a) && Carries(b, r) && Kept(b, nodes, infos)
  }

  lemma StartMerging(b: Base, nodes: seq<Node>, infos: seq<Info>, p: int, psize: int, q: int, list: int, tail: int,
                     out: seq<int>, a: seq<int>, r: seq<int>)
    requires psize == |a| && (a != [] ==> p == a[0]) && q == HeadOf(r)
    requires Linked(nodes, a) && IsList(nodes, q, r) && Linked(nodes, out) && Separate(out, a, r)
    requires list == HeadOf(out) && tail == if out == [] then -1 else out[|out| - 1]
    requires Carries(b, a) && Carries(b, r) && Kept(b, nodes, infos)
    ensures Merging(b, nodes, infos, p, psize, q, list, tail, out, a, r)
  {
  }

  lemma MergingFacts(b: Base, nodes: seq<Node>, infos: seq<Info>, p: int, psize: int, q: int, list: int, tail: int,
                     out: seq<int>, a: seq<int>, r: seq<int>)
    requires Merging(b, nodes, infos, p, psize, q, list, tail, out, a, r)
    ensures psize == |a| && (a != [] ==> p == a[0] && 0 <= p < |nodes|)
    ensures q == HeadOf(r) && (q == -1 <==> r == []) && (r != [] ==> 0 <= q < |nodes|)
    ensures Linked(nodes, out) && Distinct(out) && list == HeadOf(out) && tail == if out == [] then -1 else out[|out| - 1]
    ensures Kept(b, nodes, infos) && IsList(nodes, q, r) && Separate(out, a, r)
    ensures a != [] && r != [] ==> Carries(b, [p, q])
  {
    InRange(nodes, q, r);
    HeadInRange(nodes, a, r);
    if a != [] && r != [] {
      CarriesHeads(b, a, r);
    }
  }

  lemma KeptMerging(b: Base, nodes: seq<Node>, infos: seq<Info>, infos': seq<Info>, p: int, psize: int, q: int,
                    list: int, tail: int, out: seq<int>, a: seq<int>, r: seq<int>)
    requires Merging(b, nodes, infos, p, psize, q, list, tail, out, a, r) && Kept(b, nodes, infos')
    ensures Merging(b, nodes, infos', p, psize, q, list, tail, out, a, r)
  {
  }

  /** What appending to the list being built does to the nodes. */
  function Appended(nodes: seq<Node>, out: seq<int>, e: int): seq<Node> {
    if out == [] || !(0 <= out[|out| - 1] < |nodes|) then nodes else SetNext(nodes, out[|out| - 1], e)
  }

  lemma AppendedIs(nodes: seq<Node>, out: seq<int>, e: int)
    requires Linked(nodes, out)
    ensures Appended(nodes, out, e) == if out == [] then nodes else SetNext(nodes, out[|out| - 1], e)
  {
  }

  lemma AppendedFrame(b: Base, nodes: seq<Node>, infos: seq<Info>, q: int, out: seq<int>, e: int, a: seq<int>, r: seq<int>)
    requires Linked(nodes, a) && IsList(nodes, q, r) && Kept(b, nodes, infos) && Linked(nodes, out)
    requires Separate(out + [e], a, r) && 0 <= e < |nodes|
    ensures Linked(Appended(nodes, out, e), a) && IsList(Appended(nodes, out, e), q, r)
    ensures Linked(Appended(nodes, out, e), out + [e]) && Kept(b, Appended(nodes, out, e), infos)
  {
    hide Separate, IsList, Kept;
    Parts(out + [e], a, r);
    assert (out + [e])[..|out|] == out;
    if out != [] {
      var t := out[|out| - 1];
      assert t == (out + [e])[|out| - 1];
      LinkedFrame(nodes, t, e, a);
      ListFrame(nodes, t, e, q, r);
      KeptFrame(b, nodes, t, e, infos);
      LinkedAppend(nodes, out, e);
    }
  }

  lemma AdvanceLeft(b: Base, nodes: seq<Node>, infos: seq<Info>, p: int, psize: int, q: int, list: int, tail: int,
                    out: seq<int>, a: seq<int>, r: seq<int>, nodes': seq<Node>)
    requires Merging(b, nodes, infos, p, psize, q, list, tail, out, a, r) && a != [] && 0 <= p < |nodes|
    requires nodes' == Appended(nodes, out, p)
    ensures Merging(b, nodes', infos, nodes[p].next, psize - 1, q, HeadOf(out + [p]), p, out + [p], a[1..], r)
  {
    hide Separate, IsList, Kept, Linked, Carries;
    TakeLeft(out, a, r);
    SecondNode(nodes, a);
    AppendedFrame(b, nodes, infos, q, out, p, a[1..], r);
    CarriesRest(b, a, r);
  }

  lemma AdvanceRight(b: Base, nodes: seq<Node>, infos: seq<Info>, p: int, psize: int, q: int, list: int, tail: int,
                     out: seq<int>, a: seq<int>, r: seq<int>, nodes': seq<Node>)
    requires Merging(b, nodes, infos, p, psize, q, list, tail, out, a, r) && r != [] && 0 <= q < |nodes|
    requires nodes' == Appended(nodes, out, q)
    ensures Merging(b, nodes', infos, p, psize, nodes[q].next, HeadOf(out + [q]), q, out + [q], a, r[1..])
  {
    hide Separate, IsList, Kept, Linked, Carries;
    TakeRight(out, a, r);
    NextOfHead(nodes, q, r);
    ListHead(nodes, nodes[q].next, r[1..]);
    AppendedFrame(b, nodes, infos, nodes[q].next, out, q, a, r[1..]);
    CarriesRest(b, a, r);
  }

  lemma ListHead(nodes: seq<Node>, head: int, l: seq<int>)
    requires IsList(nodes, head, l)
    ensures head == HeadOf(l)
  {
  }

  lemma Shift(out: seq<int>, e: int, more: seq<int>)
    ensures out + ([e] + more) == out + [e] + more
  {
  }

  lemma RunRest(r: seq<int>, n: nat)
    requires r != [] && n > 0
    ensures r[..Min(n, |r|)] != [] && r[..Min(n, |r|)][0] == r[0]
    ensures r[..Min(n, |r|)][1..] == r[1..][..Min(n - 1, |r[1..]|)]
    ensures r[1..][Min(n - 1, |r[1..]|)..] == r[Min(n, |r|)..]
  {
  }

  /** What is known of lists without a common node, one element further. */
  lemma Parts(out: seq<int>, a: seq<int>, r: seq<int>)
    requires Separate(out, a, r) && out != []
    ensures Distinct(out) && Distinct(out[..|out| - 1])
    ensures forall i :: 0 <= i < |out| ==> out[i] !in a && out[i] !in r
  {
  }

  lemma MergeNone(o: Order)
    ensures Merge(o, [], []) == []
  {
  }

  lemma MergeLeft(o: Order, a: seq<int>, b: seq<int>)
    requires a != [] && (b == [] || Le(o, a[0], b[0]))
    ensures Merge(o, a, b) == [a[0]] + Merge(o, a[1..], b)
  {
  }

  lemma MergeRight(o: Order, a: seq<int>, b: seq<int>)
    requires b != [] && (a == [] || !Le(o, a[0], b[0]))
    ensures Merge(o, a, b) == [b[0]] + Merge(o, a, b[1..])
  {
  }

  lemma SplitList(nodes: seq<Node>, a: seq<int>, r: seq<int>)
    requires IsList(nodes, HeadOf(a + r), a + r)
    ensures Linked(nodes, a) && IsList(nodes, HeadOf(r), r)
  {
    LinkedRest(nodes, a + r, |a|);
    ListRest(nodes, HeadOf(a + r), a + r, |a|);
    assert (a + r)[..|a|] == a && (a + r)[|a|..] == r;
  }

  lemma HeadInRange(nodes: seq<Node>, a: seq<int>, r: seq<int>)
    requires Linked(nodes, a) && IsList(nodes, HeadOf(r), r)
    ensures (a != [] ==> 0 <= a[0] < |nodes|) && (r != [] ==> 0 <= r[0] < |nodes|)
  {
  }

  lemma SecondNode(nodes: seq<Node>, a: seq<int>)
    requires Linked(nodes, a) && a != []
    ensures Linked(nodes, a[1..]) && (|a| > 1 ==> nodes[a[0]].next == a[1])
  {
    LinkedRest(nodes, a, 1);
    if |a| > 1 {
      assert Joined(nodes, a, 0);
    }
  }

  lemma CarriesHeads(b: Base, a: seq<int>, r: seq<int>)
    requires Carries(b, a) && Carries(b, r) && a != [] && r != []
    ensures Carries(b, [a[0], r[0]])
  {
  }

  lemma CarriesRest(b: Base, a: seq<int>, r: seq<int>)
    requires Carries(b, a) && Carries(b, r)
    ensures a != [] ==> Carries(b, a[1..])
    ensures r != [] ==> Carries(b, r[1..])
  {
  }

  lemma KeptFrame(b: Base, nodes: seq<Node>, t: int, e: int, infos: seq<Info>)
    requires Kept(b, nodes, infos) && 0 <= t < |nodes|
    ensures Kept(b, SetNext(nodes, t, e), infos)
  {
  }

  lemma FresherSelf(b: Base, nodes: seq<Node>, infos: seq<Info>)
    requires Kept(b, nodes, infos)
    ensures Fresher(b, infos, infos)
  {
  }

  lemma FresherStep(b: Base, old': seq<Info>, infos: seq<Info>, infos': seq<Info>, x: int, y: int)
    requires Fresher(b, old', infos) && Fresher(b, infos, infos')
    ensures Fresher(b, old', infos')
    ensures Fresh(b, infos, x) ==> Fresh(b, infos', x)
    ensures Fresh(b, infos, y) ==> Fresh(b, infos', y)
  {
  }

  lemma RegenIdx(i: Info)
    ensures Regen(i).idx == i.idx
  {
  }

  lemma InRange(nodes: seq<Node>, head: int, l: seq<int>)
    requires IsList(nodes, head, l)
    ensures head == -1 <==> l == []
  {
  }

  lemma LastInRange(nodes: seq<Node>, out: seq<int>)
    requires Linked(nodes, out)
    ensures out != [] ==> out[|out| - 1] != -1
  {
  }

  /** After merging two runs every node in them has a regenerated item, unless there was only one node. */
  lemma MergedFresh(b: Base, o: Order, infos: seq<Info>, infos': seq<Info>, out: seq<int>, r: seq<int>, w: nat)
    requires w > 0 && r != [] && PassFresh(b, infos, out, r, w) && Fresher(b, infos, infos')
    requires var k := Min(w, |r|);
      |r| > k ==> Fresh(b, infos', r[0]) && Fresh(b, infos', r[k])
    ensures var k, n := Min(w, |r|), Min(2 * w, |r|);
      PassFresh(b, infos', out + Merge(o, r[..k], r[k..n]), r[n..], w)
  {
    hide Fresh, Fresher, Merge, Lone;
    var k, n := Min(w, |r|), Min(2 * w, |r|);
    var m := Merge(o, r[..k], r[k..n]);
    LoneFacts(|r|, w);
    LoneFacts(|out| + |r|, w);
    MergeFrom(o, r[..k], r[k..n]);
    forall i | 0 <= i < |r|
      ensures Fresh(b, infos', r[i]) || w == 1 || (i == |r| - 1 && Lone(|r|, w))
    {
      if Fresh(b, infos, r[i]) {
        FreshKept(b, infos, infos', r[i]);
      }
    }
    forall i | 0 <= i < n
      ensures Fresh(b, infos', r[i]) || |r| == 1
    {
    }
    forall i | 0 <= i < |m|
      ensures Fresh(b, infos', m[i]) || |r| == 1
    {
      if m[i] in r[..k] {
        var j :| 0 <= j < k && r[..k][j] == m[i];
        assert r[j] == m[i];
      } else {
        var j :| 0 <= j < n - k && r[k..n][j] == m[i];
        assert r[k + j] == m[i];
      }
    }
    forall i | 0 <= i < |out|
      ensures Fresh(b, infos', out[i])
    {
      FreshKept(b, infos, infos', out[i]);
    }
  }

  lemma LoneFacts(n: int, w: nat)
    requires w > 0
    ensures n == 1 ==> Lone(n, 2 * w)
    ensures Lone(n, w) && n <= 2 * w ==> n == 1 || n == w + 1
    ensures Lone(n, w) && n > 2 * w ==> Lone(n - 2 * w, w)
    ensures n > 2 * w && Lone(n - 2 * w, 2 * w) ==> Lone(n, 2 * w)
  {
    if Lone(n, w) && n != 1 {
      assert Lone(n - w, w);
    }
  }

  lemma FreshKept(b: Base, infos: seq<Info>, infos': seq<Info>, x: int)
    requires Fresh(b, infos, x) && Fresher(b, infos, infos')
    ensures Fresh(b, infos', x)
  {
  }

  lemma PassReady(b: Base, infos: seq<Info>, out: seq<int>, w: nat)
    requires w > 0 && PassFresh(b, infos, out, [], w)
    ensures Ready(b, infos, out, 2 * w)
  {
  }

  // --------------------------------------------------------------------------
  // Facts about sorting
  // --------------------------------------------------------------------------

  function Of(nodes: seq<Node>): seq<int> {
    seq(|nodes|, x requires 0 <= x < |nodes| => nodes[x].info)
  }

  lemma StartSort(nodes: seq<Node>, infos: seq<Info>, b: Base, head: int, l: seq<int>)
    requires IsList(nodes, head, l) && b.of == Of(nodes) && b.infos == infos
    requires forall i :: 0 <= i < |l| && 0 <= l[i] < |nodes| ==> 0 <= nodes[l[i]].info < |infos|
    ensures Distinct(l) && Kept(b, nodes, infos) && Carries(b, l)
  {
    ListDistinct(nodes, head, l);
  }

  lemma OrderCmp(b: Base)
    ensures OrderOf(b).cmp == b.cmp
  {
  }

  lemma AllReady(b: Base, infos: seq<Info>, l: seq<int>)
    ensures Ready(b, infos, l, 1)
  {
  }

  lemma {:induction false} PassMultiset(o: Order, l: seq<int>, w: nat)
    requires w > 0
    ensures multiset(Pass(o, l, w)) == multiset(l)
    decreases |l|
  {
    hide Merge;
    if l != [] {
      var k, n := Min(w, |l|), Min(2 * w, |l|);
      MergeMultiset(o, l[..k], l[k..n]);
      PassMultiset(o, l[n..], w);
      assert l == l[..k] + l[k..n] + l[n..];
    }
  }

  lemma CarriesSame(b: Base, l: seq<int>, m: seq<int>)
    requires Carries(b, l) && multiset(m) == multiset(l)
    ensures Carries(b, m) && |m| == |l|
  {
    assert |multiset(m)| == |m| && |multiset(l)| == |l|;
    forall i | 0 <= i < |m|
      ensures 0 <= m[i] < |b.of| && 0 <= b.of[m[i]] < |b.infos|
    {
      assert m[i] in multiset(l);
      var j :| 0 <= j < |l| && l[j] == m[i];
    }
  }

  lemma AllFresh(b: Base, infos: seq<Info>, l: seq<int>, w: nat)
    requires w > 1 && Ready(b, infos, l, w) && |l| <= w
    ensures |l| > 1 ==> forall i :: 0 <= i < |l| ==> Fresh(b, infos, l[i])
  {
  }

  ghost predicate ByIdx(nodes: seq<Node>, infos: seq<Info>, l: seq<int>) {
    forall i, j :: 0 <= i < j < |l| ==> IdxLe(nodes, infos, l[i], l[j])
  }

  ghost predicate IdxLe(nodes: seq<Node>, infos: seq<Info>, x: int, y: int) {
    && 0 <= x < |nodes| && 0 <= y < |nodes| && 0 <= nodes[x].info < |infos| && 0 <= nodes[y].info < |infos|
    && infos[nodes[x].info].idx <= infos[nodes[y].info].idx
  }

  /** What sorting by index leaves as it was. */
  lemma ItemsKept(b: Base, nodes: seq<Node>, infos: seq<Info>)
    requires Kept(b, nodes, infos)
    ensures |nodes| == |b.of| && |infos| == |b.infos| && forall x :: 0 <= x < |nodes| ==> nodes[x].info == b.of[x]
    ensures forall k :: 0 <= k < |infos| ==> infos[k].idx == b.infos[k].idx
    ensures !b.regen ==> infos == b.infos
  {
    hide Regen;
    forall k | 0 <= k < |infos|
      ensures infos[k].idx == b.infos[k].idx
    {
      RegenIdx(b.infos[k]);
    }
  }

  /** The low byte of every regenerated item is its high byte, and the high byte is as it was. */
  lemma DataRestored(b: Base, nodes: seq<Node>, infos: seq<Info>, l: seq<int>)
    requires Carries(b, l) && Kept(b, nodes, infos)
    ensures forall i :: 0 <= i < |l| ==> 0 <= l[i] < |nodes| && 0 <= nodes[l[i]].info < |infos| == |b.infos|
    ensures (forall i :: 0 <= i < |l| ==> Fresh(b, infos, l[i])) ==> forall i :: 0 <= i < |l| ==>
      var (x, y) := (b.infos[nodes[l[i]].info].data16, infos[nodes[l[i]].info].data16);
      -0x8000 <= y < 0x8000 && y % 256 == (x % 65536) / 256 && (y % 65536) / 256 == (x % 65536) / 256
  {
    hide Regen;
    forall i | 0 <= i < |l|
      ensures var (x, y) := (b.infos[b.of[l[i]]].data16, Regen(b.infos[b.of[l[i]]]).data16);
        -0x8000 <= y < 0x8000 && y % 256 == (x % 65536) / 256 && (y % 65536) / 256 == (x % 65536) / 256
    {
      RegenMeaning(b.infos[b.of[l[i]]]);
    }
  }

  lemma OrderedByIdx(b: Base, l0: seq<int>, l: seq<int>, nodes: seq<Node>, infos: seq<Info>)
    requires b.cmp == CmpIdx && Ordered(OrderOf(b), l0, l) && Carries(b, l) && Kept(b, nodes, infos)
    ensures ByIdx(nodes, infos, l)
  {
    forall i, j | 0 <= i < j < |l|
      ensures IdxLe(nodes, infos, l[i], l[j])
    {
      assert Before(OrderOf(b), l0, l[i], l[j]);
      RegenIdx(b.infos[b.of[l[i]]]);
      RegenIdx(b.infos[b.of[l[j]]]);
    }
  }

  // --------------------------------------------------------------------------
  // Removing and putting back
  // --------------------------------------------------------------------------

  function Removed(nodes: seq<Node>, item: int): seq<Node>
    requires 0 <= item < |nodes| && 0 <= nodes[item].next < |nodes|
  {
    var r := nodes[item].next;
    nodes[item := nodes[r]][r := Node(-1, nodes[item].info)]
  }

  function Restored(nodes: seq<Node>, removed: int, modified: int): seq<Node>
    requires 0 <= removed < |nodes| && 0 <= modified < |nodes|
  {
    nodes[modified := Node(removed, nodes[removed].info)][removed := nodes[modified]]
  }

  /** Putting a removed node back restores every node. */
  lemma UndoRestores(nodes: seq<Node>, item: int)
    requires 0 <= item < |nodes| && 0 <= nodes[item].next < |nodes| && nodes[item].next != item
    ensures Restored(Removed(nodes, item), nodes[item].next, item) == nodes
  {
  }

  function Items(nodes: seq<Node>, l: seq<int>): seq<int>
    requires forall i :: 0 <= i < |l| ==> 0 <= l[i] < |nodes|
  {
    seq(|l|, i requires 0 <= i < |l| => nodes[l[i]].info)
  }

  /** Removing node i takes exactly its item out of the list. */
  lemma RemovedList(nodes: seq<Node>, head: int, l: seq<int>, i: int)
    requires IsList(nodes, head, l) && 0 <= i < |l| - 1
    ensures nodes[l[i]].next == l[i + 1]
    ensures var l' := l[..i + 1] + l[i + 2..];
      && IsList(Removed(nodes, l[i]), head, l')
      && Items(Removed(nodes, l[i]), l') == Items(nodes, l)[..i] + Items(nodes, l)[i + 1..]
  {
    ListDistinct(nodes, head, l);
    assert Joined(nodes, l, i);
    var l', nodes' := l[..i + 1] + l[i + 2..], Removed(nodes, l[i]);
    forall j | 0 <= j < |l'| - 1
      ensures Joined(nodes', l', j)
    {
      if j < i {
        assert Joined(nodes, l, j);
      } else {
        assert Joined(nodes, l, j + 1);
      }
    }
    assert Leads(nodes, l, |l| - 1, -1);
    assert Leads(nodes', l', |l'| - 1, -1);
  }

  /** Putting a node outside the list back inserts its item in front of the one it was swapped with. */
  lemma RestoredList(nodes: seq<Node>, head: int, l: seq<int>, i: int, removed: int)
    requires IsList(nodes, head, l) && 0 <= i < |l| && 0 <= removed < |nodes| && removed !in l
    ensures var l' := l[..i + 1] + [removed] + l[i + 1..];
      && IsList(Restored(nodes, removed, l[i]), head, l')
      && Items(Restored(nodes, removed, l[i]), l') == Items(nodes, l)[..i] + [nodes[removed].info] + Items(nodes, l)[i..]
  {
    hide Items;
    ListDistinct(nodes, head, l);
    InRange(nodes, head, l);
    RestoredItems(nodes, l, i, removed);
    var l', nodes' := l[..i + 1] + [removed] + l[i + 1..], Restored(nodes, removed, l[i]);
    forall j | 0 <= j < |l'| - 1
      ensures Joined(nodes', l', j)
    {
      if j < i {
        assert Joined(nodes, l, j);
      } else if j > i {
        assert Joined(nodes, l, j - 1);
      }
    }
    assert Leads(nodes, l, |l| - 1, -1);
    assert Leads(nodes', l', |l'| - 1, -1);
  }

  lemma RestoredItems(nodes: seq<Node>, l: seq<int>, i: int, removed: int)
    requires (forall j :: 0 <= j < |l| ==> 0 <= l[j] < |nodes|) && Distinct(l)
    requires 0 <= i < |l| && 0 <= removed < |nodes| && removed !in l
    ensures var l' := l[..i + 1] + [removed] + l[i + 1..];
      Items(Restored(nodes, removed, l[i]), l') == Items(nodes, l)[..i] + [nodes[removed].info] + Items(nodes, l)[i..]
  {
  }

  // --------------------------------------------------------------------------
  // Reversing
  // --------------------------------------------------------------------------

  function Rev(l: seq<int>): seq<int> {
    if l == [] then [] else Rev(l[1..]) + [l[0]]
  }

  lemma StartReverse(nodes: seq<Node>, head: int, l: seq<int>)
    requires IsList(nodes, head, l)
    ensures IsList(nodes, -1, []) && Separate([], [], l) && head == HeadOf(l) && Rev(l) + [] == Rev(l)
    ensures head == -1 <==> l == []
  {
    ListDistinct(nodes, head, l);
  }

  lemma ReverseStep(nodes: seq<Node>, next: int, done: seq<int>, rest: seq<int>)
    requires IsList(nodes, next, done) && IsList(nodes, HeadOf(rest), rest) && Separate(done, [], rest) && rest != []
    ensures 0 <= rest[0] < |nodes|
    ensures IsList(SetNext(nodes, rest[0], next), rest[0], [rest[0]] + done)
    ensures IsList(SetNext(nodes, rest[0], next), HeadOf(rest[1..]), rest[1..])
    ensures Separate([rest[0]] + done, [], rest[1..]) && Rev(rest) + done == Rev(rest[1..]) + ([rest[0]] + done)
  {
    hide Separate, IsList, Linked;
    var x := rest[0];
    NextOfHead(nodes, x, rest);
    MoveHead(done, rest);
    ListFrame(nodes, x, next, HeadOf(rest[1..]), rest[1..]);
    ListFrame(nodes, x, next, next, done);
    ListPrepend(SetNext(nodes, x, next), x, next, done);
  }

  lemma MoveHead(done: seq<int>, rest: seq<int>)
    requires Separate(done, [], rest) && rest != []
    ensures Separate([rest[0]] + done, [], rest[1..]) && rest[0] !in done && rest[0] !in rest[1..]
  {
  }

  lemma ListPrepend(nodes: seq<Node>, x: int, next: int, l: seq<int>)
    requires IsList(nodes, next, l) && 0 <= x < |nodes| && nodes[x].next == next
    ensures IsList(nodes, x, [x] + l)
  {
    var l' := [x] + l;
    forall j | 0 <= j < |l'| - 1
      ensures Joined(nodes, l', j)
    {
      if j > 0 {
        assert Joined(nodes, l, j - 1);
      }
    }
    if l != [] {
      assert Leads(nodes, l, |l| - 1, -1);
    }
    assert Leads(nodes, l', |l'| - 1, -1);
  }

  lemma {:induction false} RevConcat(l: seq<int>, m: seq<int>)
    ensures Rev(l + m) == Rev(m) + Rev(l)
  {
    if l == [] {
      assert l + m == m;
    } else {
      assert (l + m)[1..] == l[1..] + m;
      RevConcat(l[1..], m);
    }
  }

  lemma {:induction false} RevAt(l: seq<int>, i: nat)
    requires i < |l|
    ensures |Rev(l)| == |l| && Rev(l)[i] == l[|l| - 1 - i]
  {
    if |l| > 1 {
      RevAt(l[1..], if i < |l| - 1 then i else 0);
    }
  }

  lemma {:induction false} RevTwice(l: seq<int>)
    ensures Rev(Rev(l)) == l
  {
    if l != [] {
      RevConcat(Rev(l[1..]), [l[0]]);
      RevTwice(l[1..]);
      assert Rev([l[0]]) == [l[0]];
    }
  }
}
