/** The skyline rectangle packer: a node pool threaded into an active and a free list, the two
    placement heuristics, and packing proper. */
module RectPacker {
  import opened Candidates
  import opened Sequences
  import opened Skyline
  import opened Words

  const NIL := -1
  const MAXVAL := 0xffff

  /** A skyline node. Nodes live in one pool and point at each other by index, NIL being the null pointer. */
  datatype Node = Node(x: int, y: int, next: int)

  /** The address of a list link: the head pointer, the next field of a node, or null. */
  datatype Link = NoLink | HeadLink | NextLink(node: int)

  datatype FindResult = FindResult(x: int, y: int, prevLink: Link)

  datatype Rect = Rect(id: int, w: int, h: int, x: int, y: int, wasPacked: bool)

  /** Storing into a 16-bit coordinate. */
  function Coord(v: int): int {
    v % 0x10000
  }

  // --------------------------------------------------------------------------
  // Lists of nodes
  // --------------------------------------------------------------------------

  /** The pointer to the k-th node of a list. */
  function At(s: seq<int>, k: nat): int {
    if k < |s| then s[k] else NIL
  }

  /** The nodes s, in order, are the list that starts at head. */
  ghost predicate Chain(mem: seq<Node>, head: int, s: seq<int>) {
    && (forall k :: 0 <= k < |s| ==> 0 <= s[k] < |mem|)
    && head == At(s, 0)
    && (forall k :: 0 <= k < |s| ==> mem[s[k]].next == At(s, k + 1))
  }

  /** The coordinates along the list s. */
  ghost predicate Shows(mem: seq<Node>, s: seq<int>, sky: seq<Seg>) {
    && |s| == |sky|
    && forall k :: 0 <= k < |s| ==> 0 <= s[k] < |mem| && mem[s[k]].x == sky[k].x && mem[s[k]].y == sky[k].y
  }

  lemma DistinctPermutation(s: seq<int>, t: seq<int>)
    requires Distinct(s) && multiset(s) == multiset(t)
    ensures Distinct(t)
  {
    if i, j :| 0 <= i < j < |t| && t[i] == t[j] {
      Twice(t, i, j);
      Once(s, t[i]);
    }
  }

  lemma Twice(t: seq<int>, i: nat, j: nat)
    requires i < j < |t| && t[i] == t[j]
    ensures multiset(t)[t[i]] >= 2
  {
    assert t == t[..j] + [t[j]] + t[j + 1..];
    assert t[..j][i] == t[i];
  }

  lemma {:induction false} Once(s: seq<int>, v: int)
    requires Distinct(s)
    ensures multiset(s)[v] <= 1
  {
    if s != [] {
      assert s == [s[0]] + s[1..];
      Once(s[1..], v);
      if v == s[0] {
        assert v !in s[1..];
      }
    }
  }

  // --------------------------------------------------------------------------
  // Aligned widths
  // --------------------------------------------------------------------------

  function AlignUp(w: nat, align: nat): int
    requires align >= 1
  {
    w + align - 1 - (w + align - 1) % align
  }

  lemma AlignUpMeaning(w: nat, align: nat)
    requires align >= 1
    ensures w <= AlignUp(w, align) < w + align
    ensures AlignUp(w, align) % align == 0
    ensures align == 1 ==> AlignUp(w, align) == w
  {
    var q := (w + align - 1) / align;
    assert w + align - 1 == q * align + (w + align - 1) % align;
    MultipleOf(q, align);
  }

  /** The two statements that round a width up to a multiple of the alignment (lines 340-341). */
  method Aligned(w0: int, align: int) returns (w: int)
    requires w0 >= 0 && align >= 1
    ensures w == AlignUp(w0, align)
  {
    w := w0 + align - 1;
    w := w - w % align;
  }

  lemma MultipleOf(q: nat, a: nat)
    requires a >= 1
    ensures q * a % a == 0
  {
    Words.DivModUnique(q * a, a, q, 0);
  }

  /** The pool right after initialisation: one full-width segment, every caller's node free. */
  lemma InitialLists(mem: seq<Node>, w: int, count: int)
    requires count >= 1 && |mem| == count + 2
    requires forall k :: 0 <= k < count ==> mem[k].next == if k + 1 < count then k + 1 else NIL
    requires mem[count] == Node(0, 0, count + 1) && mem[count + 1] == Node(w, MAXVAL, NIL)
    ensures Chain(mem, count, [count, count + 1])
    ensures Chain(mem, 0, seq(count, k => k))
    ensures Distinct([count, count + 1] + seq(count, k => k))
    ensures Shows(mem, [count, count + 1], [Seg(0, 0), Seg(w, MAXVAL)])
    ensures w >= 1 ==> WellFormed([Seg(0, 0), Seg(w, MAXVAL)], w)
    ensures Separated([Seg(0, 0), Seg(w, MAXVAL)])
  {
  }

  lemma NothingPlaced(sky: seq<Seg>, width: int, height: int)
    ensures Packed([], width, height) && Below([], sky)
  {
  }

  // --------------------------------------------------------------------------
  // Relinking
  // --------------------------------------------------------------------------

  /** The nodes that stay active around the new one, and those that are freed. */
  lemma Recount(active: seq<int>, free: seq<int>, first: nat, c: nat, free': seq<int>)
    requires first <= c < |active| && |free| > 0
    requires multiset(free') == multiset(active[first..c]) + multiset(free[1..])
    ensures multiset(active[..first] + [free[0]] + active[c..] + free') == multiset(active + free)
    ensures |active[..first] + [free[0]] + active[c..]| + |free'| == |active| + |free|
  {
    var a, m, z := active[..first], active[first..c], active[c..];
    assert active == a + m + z;
    assert free == [free[0]] + free[1..];
    assert |free'| == |m| + |free[1..]| by {
      assert |multiset(free')| == |multiset(m)| + |multiset(free[1..])|;
    }
  }

  /** Pushing a node onto a list it is not on. */
  lemma ChainPush(mem: seq<Node>, head: int, s: seq<int>, v: int)
    requires Chain(mem, head, s) && 0 <= v < |mem| && v !in s
    ensures Chain(mem[v := mem[v].(next := head)], v, [v] + s)
  {
    var mem', t := mem[v := mem[v].(next := head)], [v] + s;
    forall k | 0 <= k < |t|
      ensures 0 <= t[k] < |mem'| && mem'[t[k]].next == At(t, k + 1)
    {
      assert At(t, k + 1) == At(s, k);
      if k > 0 {
        assert t[k] == s[k - 1] && s[k - 1] in s;
        assert mem[s[k - 1]].next == At(s, k - 1 + 1);
      }
    }
  }

  lemma TailChain(mem: seq<Node>, head: int, s: seq<int>)
    requires Chain(mem, head, s) && s != []
    ensures Chain(mem, mem[s[0]].next, s[1..])
  {
    var t := s[1..];
    assert mem[s[0]].next == At(s, 0 + 1) == At(t, 0);
    forall k | 0 <= k < |t|
      ensures 0 <= t[k] < |mem| && mem[t[k]].next == At(t, k + 1)
    {
      assert t[k] == s[k + 1] && mem[s[k + 1]].next == At(s, k + 1 + 1) == At(t, k + 1);
    }
  }

  /** Changing nodes off the list leaves it as it is. */
  lemma ChainFrame(mem: seq<Node>, mem': seq<Node>, head: int, s: seq<int>)
    requires Chain(mem, head, s) && |mem'| == |mem|
    requires forall v :: v in s ==> 0 <= v < |mem| && mem'[v].next == mem[v].next
    ensures Chain(mem', head, s)
  {
    assert forall k :: 0 <= k < |s| ==> s[k] in s;
  }

  /** The pool after relinking: everything outside the replaced stretch is as before. */
  ghost predicate Relinked(mem0: seq<Node>, mem: seq<Node>, head0: int, head: int, active: seq<int>,
                           first: nat, c: nat, node: int)
    requires first <= c < |active| && forall m :: 0 <= m < |active| ==> 0 <= active[m] < |mem0|
  {
    && |mem| == |mem0| && 0 <= node < |mem|
    && (forall m :: 0 <= m < |active| && (m + 1 < first || c <= m) ==> mem[active[m]] == mem0[active[m]])
    && (first > 0 ==> mem[active[first - 1]] == mem0[active[first - 1]].(next := node))
    && head == if first > 0 then head0 else node
  }

  /** No node is on both lists, none is on one twice. */
  ghost predicate Apart2(active: seq<int>, free: seq<int>) {
    && Distinct(active)
    && (forall k, m :: 0 <= k < |active| && 0 <= m < |free| ==> active[k] != free[m])
    && (forall m :: 0 < m < |free| ==> free[m] != free[0])
  }

  lemma Separate(active: seq<int>, free: seq<int>)
    requires Distinct(active + free)
    ensures Apart2(active, free)
  {
    var s := active + free;
    assert forall k :: 0 <= k < |active| ==> s[k] == active[k];
    assert forall m :: 0 <= m < |free| ==> s[|active| + m] == free[m];
  }

  /** The first two writes: the new node's coordinates, and the link in front of it. */
  lemma LinkedIn(mem0: seq<Node>, mem: seq<Node>, head0: int, head: int, active: seq<int>, free: seq<int>,
                 first: nat, x: int, top: int)
    requires Chain(mem0, head0, active) && Chain(mem0, At(free, 0), free) && Apart2(active, free)
    requires free != [] && first < |active|
    requires var node := free[0];
      var mem1 := mem0[node := mem0[node].(x := x, y := top)];
      if first > 0 then head == head0 && mem == mem1[active[first - 1] := mem0[active[first - 1]].(next := node)]
      else head == node && mem == mem1
    ensures Relinked(mem0, mem, head0, head, active, first, first, free[0])
    ensures Chain(mem, mem0[free[0]].next, free[1..])
  {
    TailChain(mem0, free[0], free);
    forall v | v in free[1..]
      ensures 0 <= v < |mem0| && mem[v].next == mem0[v].next
    {
      var m :| 0 <= m < |free[1..]| && free[1..][m] == v;
      assert free[m + 1] == v;
    }
    ChainFrame(mem0, mem, mem0[free[0]].next, free[1..]);
  }

  lemma NotFreed(active: seq<int>, free: seq<int>, first: nat, c: nat, freed: seq<int>, v: int)
    requires Apart2(active, free) && free != [] && first <= c < |active|
    requires multiset(freed) == multiset(active[first..c]) + multiset(free[1..])
    requires v == active[c] || v == free[0]
    ensures v !in freed
  {
    assert v !in active[first..c] && v !in free[1..];
    assert multiset(freed)[v] == 0;
  }

  /** The nodes not yet freed still show the old skyline. */
  lemma Untouched(mem0: seq<Node>, mem: seq<Node>, head0: int, head: int, active: seq<int>, sky: seq<Seg>,
                  first: nat, c: nat, node: int)
    requires Chain(mem0, head0, active) && Shows(mem0, active, sky)
    requires first <= c < |active| && Relinked(mem0, mem, head0, head, active, first, c, node)
    ensures 0 <= active[c] < |mem| && mem[active[c]].next == At(active, c + 1)
    ensures mem[active[c]].x == sky[c].x && mem[active[c]].y == sky[c].y
    ensures c + 1 < |active| ==> 0 <= active[c + 1] < |mem| && mem[active[c + 1]].x == sky[c + 1].x
  {
  }

  /** One round of the freeing loop. */
  lemma FreedOne(mem0: seq<Node>, mem: seq<Node>, head0: int, head: int, active: seq<int>, free: seq<int>, sky: seq<Seg>,
                 first: nat, c: nat, freeHead: int, freed: seq<int>)
    requires first <= c && c + 1 < |active| && Apart2(active, free) && free != []
    requires Chain(mem0, head0, active) && Shows(mem0, active, sky)
    requires forall m :: 0 <= m < |active| ==> 0 <= active[m] < |mem0|
    requires Relinked(mem0, mem, head0, head, active, first, c, free[0])
    requires Chain(mem, freeHead, freed)
    requires multiset(freed) == multiset(active[first..c]) + multiset(free[1..])
    ensures var mem' := mem[active[c] := mem[active[c]].(next := freeHead)];
      && Relinked(mem0, mem', head0, head, active, first, c + 1, free[0])
      && Chain(mem', active[c], [active[c]] + freed)
      && multiset([active[c]] + freed) == multiset(active[first..c + 1]) + multiset(free[1..])
      && mem'[free[0]] == mem[free[0]] && c + 1 < |active| && 0 <= active[c + 1] < |mem'|
      && mem'[active[c + 1]].next == At(active, c + 2)
      && (c + 2 < |active| ==> 0 <= active[c + 2] < |mem'| && mem'[active[c + 2]].x == sky[c + 2].x)
  {
    hide Chain, Shows;
    Untouched(mem0, mem, head0, head, active, sky, first, c, free[0]);
    NotFreed(active, free, first, c, freed, active[c]);
    ChainPush(mem, freeHead, freed, active[c]);
    assert active[first..c + 1] == active[first..c] + [active[c]];
    var mem' := mem[active[c] := mem[active[c]].(next := freeHead)];
    assert Relinked(mem0, mem', head0, head, active, first, c + 1, free[0]);
    Untouched(mem0, mem', head0, head, active, sky, first, c + 1, free[0]);
  }

  lemma KeepOn(sky: seq<Seg>, c: nat, end: int)
    requires c + 1 < |sky| && sky[c + 1].x <= end
    ensures Keep(sky, c, end) == Keep(sky, c + 1, end)
  {
  }

  lemma KeepEnds(sky: seq<Seg>, c: nat, end: int)
    requires c < |sky| && (c + 1 == |sky| || sky[c + 1].x > end)
    ensures Keep(sky, c, end) == c
  {
  }

  /** The last writes: the new node is linked to the first one that stays, which is shortened. */
  ghost predicate Finished(mem1: seq<Node>, mem: seq<Node>, active: seq<int>, first: nat, c: nat, node: int,
                           x: int, top: int, sx: int)
    requires first <= c < |active| && 0 <= node < |mem1| && |mem| == |mem1|
    requires forall m :: 0 <= m < |active| ==> 0 <= active[m] < |mem1|
  {
    && mem[node] == Node(x, top, active[c])
    && mem[active[c]] == mem1[active[c]].(x := sx)
    && forall m :: 0 <= m < |active| && (m < first || c < m) ==> mem[active[m]] == mem1[active[m]]
  }

  lemma RelinkedChain(mem0: seq<Node>, mem1: seq<Node>, mem: seq<Node>, head0: int, head: int, active: seq<int>,
                      first: nat, c: nat, node: int, x: int, sx: int, top: int)
    requires Chain(mem0, head0, active) && first <= c < |active|
    requires Relinked(mem0, mem1, head0, head, active, first, c, node)
    requires |mem| == |mem1| && Finished(mem1, mem, active, first, c, node, x, top, sx)
    ensures Chain(mem, head, active[..first] + [node] + active[c..])
  {
    var t := active[..first] + [node] + active[c..];
    forall k | 0 <= k < |t|
      ensures 0 <= t[k] < |mem| && mem[t[k]].next == At(t, k + 1)
    {
      if k > first {
        var m := c + (k - first - 1);
        assert t[k] == active[m];
        assert mem0[active[m]].next == At(active, m + 1) == At(t, k + 1);
      } else if k < first {
        assert t[k] == active[k];
        assert mem0[active[k]].next == At(active, k + 1);
        assert At(t, k + 1) == if k + 1 < first then At(active, k + 1) else node;
      } else {
        assert t[k] == node && At(t, k + 1) == active[c];
      }
    }
    assert head == At(t, 0) by {
      assert first > 0 ==> t[0] == active[0];
    }
  }

  lemma RelinkedShows(mem0: seq<Node>, mem1: seq<Node>, mem: seq<Node>, head0: int, head: int, active: seq<int>,
                      sky: seq<Seg>, i: nat, x: int, w: int, top: int, c: nat, node: int)
    requires Chain(mem0, head0, active) && Shows(mem0, active, sky) && i < |sky| - 1
    requires c == Keep(sky, if sky[i].x < x then i + 1 else i, x + w)
    requires Relinked(mem0, mem1, head0, head, active, if sky[i].x < x then i + 1 else i, c, node)
    requires |mem| == |mem1|
    requires Finished(mem1, mem, active, if sky[i].x < x then i + 1 else i, c, node, x, top, Max(sky[c].x, x + w))
    ensures var first := if sky[i].x < x then i + 1 else i;
      Shows(mem, active[..first] + [node] + active[c..], Place(sky, i, x, w, top))
  {
    hide Place, Keep, Relinked, Finished, Chain, Shows;
    ShowsLength(mem0, active, sky);
    var first := if sky[i].x < x then i + 1 else i;
    var t, sky' := active[..first] + [node] + active[c..], Place(sky, i, x, w, top);
    PlaceLength(sky, i, x, w, top);
    NewCoords(mem0, mem1, mem, head0, head, active, sky, first, c, node, x, top, Max(sky[c].x, x + w));
    forall k | 0 <= k < |t|
      ensures 0 <= t[k] < |mem| && mem[t[k]].x == sky'[k].x && mem[t[k]].y == sky'[k].y
    {
      PlaceAt(sky, i, x, w, top, k);
      if k < first {
        assert t[k] == active[k];
        KeptCoords(mem0, mem1, mem, head0, head, active, sky, first, c, node, x, top, Max(sky[c].x, x + w), k);
      } else if k > first + 1 {
        var m := c + (k - first - 1);
        assert t[k] == active[m];
        KeptCoords(mem0, mem1, mem, head0, head, active, sky, first, c, node, x, top, Max(sky[c].x, x + w), m);
      }
    }
    ShowsAll(mem, t, sky');
  }

  lemma ShowsLength(mem: seq<Node>, s: seq<int>, sky: seq<Seg>)
    requires Shows(mem, s, sky)
    ensures |s| == |sky|
  {
  }

  lemma ShowsAll(mem: seq<Node>, s: seq<int>, sky: seq<Seg>)
    requires |s| == |sky|
    requires forall k :: 0 <= k < |s| ==> 0 <= s[k] < |mem| && mem[s[k]].x == sky[k].x && mem[s[k]].y == sky[k].y
    ensures Shows(mem, s, sky)
  {
  }

  lemma KeptCoords(mem0: seq<Node>, mem1: seq<Node>, mem: seq<Node>, head0: int, head: int, active: seq<int>,
                   sky: seq<Seg>, first: nat, c: nat, node: int, x: int, top: int, sx: int, m: nat)
    requires Shows(mem0, active, sky) && first <= c < |active| && m < |active| && (m < first || c < m)
    requires Relinked(mem0, mem1, head0, head, active, first, c, node) && |mem| == |mem1|
    requires Finished(mem1, mem, active, first, c, node, x, top, sx)
    ensures |active| == |sky| && 0 <= active[m] < |mem| && mem[active[m]].x == sky[m].x && mem[active[m]].y == sky[m].y
  {
  }

  lemma NewCoords(mem0: seq<Node>, mem1: seq<Node>, mem: seq<Node>, head0: int, head: int, active: seq<int>,
                  sky: seq<Seg>, first: nat, c: nat, node: int, x: int, top: int, sx: int)
    requires Shows(mem0, active, sky) && first <= c < |active|
    requires Relinked(mem0, mem1, head0, head, active, first, c, node) && |mem| == |mem1|
    requires Finished(mem1, mem, active, first, c, node, x, top, sx)
    ensures |active| == |sky| && 0 <= node < |mem| && mem[node].x == x && mem[node].y == top
    ensures 0 <= active[c] < |mem| && mem[active[c]].x == sx && mem[active[c]].y == sky[c].y
  {
  }

  lemma FinishedBy(mem1: seq<Node>, mem: seq<Node>, active: seq<int>, free: seq<int>, first: nat, c: nat,
                   x: int, top: int, sx: int)
    requires first <= c < |active| && free != [] && 0 <= free[0] < |mem1| && Apart2(active, free)
    requires forall m :: 0 <= m < |active| ==> 0 <= active[m] < |mem1|
    requires mem == mem1[free[0] := Node(x, top, active[c])][active[c] := mem1[active[c]].(x := sx)]
    ensures Finished(mem1, mem, active, first, c, free[0], x, top, sx)
  {
  }

  // --------------------------------------------------------------------------
  // Packing
  // --------------------------------------------------------------------------

  predicate Empty(r: Rect) {
    r.w == 0 || r.h == 0
  }

  predicate SameInput(r: Rect, r': Rect) {
    r.id == r'.id && r.w == r'.w && r.h == r'.h
  }

  function BoxOf(r: Rect): Box {
    Box(r.x, r.y, r.w, r.h)
  }

  /** Reported as packed, and covering some area. */
  predicate Visible(r: Rect) {
    r.wasPacked && !Empty(r)
  }

  /** A processed rectangle: empty at the origin, marked unplaced, or one of the boxes placed since `before`. */
  ghost predicate Settled(r: Rect, placed: seq<Box>, slot: int, before: int) {
    if Empty(r) then slot < 0 && r.x == r.y == 0
    else if slot < 0 then r.x == r.y == MAXVAL
    else before <= slot < |placed| && placed[slot] == BoxOf(r) && r.x < MAXVAL
  }

  /** The last loop sets the flag from the coordinates (lines 577-579). */
  function Flagged(r: Rect): Rect {
    r.(wasPacked := !(r.x == MAXVAL && r.y == MAXVAL))
  }

  /** A permutation of the indices below n. */
  ghost predicate Orders(order: seq<int>, n: int) {
    && |order| == n
    && Distinct(order)
    && (forall m :: 0 <= m < |order| ==> 0 <= order[m] < n)
    && forall k :: 0 <= k < n ==> k in order
  }

  /** 16-bit sizes; for best-fit the aligned width must fit the bin (line 394 walks on unchecked otherwise). */
  ghost predicate Packable(r: Rect, width: int, align: int, bestFit: bool) {
    && 0 <= r.w <= MAXVAL && 0 <= r.h <= MAXVAL
    && (bestFit && !Empty(r) && align >= 1 ==> AlignUp(r.w, align) <= width)
  }

  /** What a caller sees: flags are truthful, and every packed rectangle lies inside the bin, clear of all
      the others and of everything placed before. */
  ghost predicate Outcome(rects: seq<Rect>, before: seq<Box>, width: int, height: int) {
    && (forall k :: 0 <= k < |rects| && Empty(rects[k]) ==> rects[k].x == rects[k].y == 0 && rects[k].wasPacked)
    && (forall k :: 0 <= k < |rects| && !Empty(rects[k]) && !rects[k].wasPacked ==> rects[k].x == rects[k].y == MAXVAL)
    && (forall k :: 0 <= k < |rects| && Visible(rects[k]) ==> Inside(BoxOf(rects[k]), width, height))
    && (forall k, m :: 0 <= k < |rects| && 0 <= m < |rects| && k != m && Visible(rects[k]) && Visible(rects[m]) ==>
          Disjoint(BoxOf(rects[k]), BoxOf(rects[m])))
    && (forall k, m :: 0 <= k < |rects| && 0 <= m < |before| && Visible(rects[k]) ==>
          Disjoint(BoxOf(rects[k]), before[m]))
  }

  lemma FlagsTell(rects: seq<Rect>, rects': seq<Rect>, before: seq<Box>, placed: seq<Box>, slots: seq<int>, width: int, height: int)
    requires |rects'| == |rects| == |slots| && before <= placed && Packed(placed, width, height)
    requires forall k :: 0 <= k < |rects| ==> rects'[k] == Flagged(rects[k])
    requires forall k :: 0 <= k < |rects| ==> Settled(rects[k], placed, slots[k], |before|)
    requires forall k, m :: 0 <= k < |rects| && 0 <= m < |rects| && k != m && slots[k] >= 0 ==> slots[k] != slots[m]
    ensures Outcome(rects', before, width, height)
  {
    hide Inside, Disjoint;
    forall k | 0 <= k < |rects'|
      ensures Settled(rects[k], placed, slots[k], |before|)
      ensures Visible(rects'[k]) ==> |before| <= slots[k] < |placed| && BoxOf(rects'[k]) == placed[slots[k]]
      ensures Visible(rects'[k]) ==> Inside(BoxOf(rects'[k]), width, height)
    {
    }
    forall k, m | 0 <= k < |placed| && 0 <= m < |placed| && k != m
      ensures Disjoint(placed[k], placed[m])
    {
      ApartSymmetric(placed[k], placed[m]);
    }
  }

  lemma ApartSymmetric(a: Box, b: Box)
    ensures Disjoint(a, b) == Disjoint(b, a)
  {
  }

  /** Everything the geometry promises about a placed box, for the skyline the list operations build. */
  lemma PlaceStays(sky: seq<Seg>, width: int, height: int, i: nat, boxes: seq<Box>, b: Box)
    requires WellFormed(sky, width) && Packed(boxes, width, height) && Below(boxes, sky)
    requires i < |sky| - 1 && sky[i].x <= b.x < sky[i + 1].x
    requires Inside(b, width, height) && Rests(b, sky)
    requires forall k :: 0 <= k < |sky| - 1 ==> sky[k].y <= height
    requires Separated(sky)
    ensures var sky' := Place(sky, i, b.x, b.w, b.y + b.h);
      && WellFormed(sky', width) && Packed(boxes + [b], width, height) && Below(boxes + [b], sky')
      && Separated(sky') && Raised(sky, sky')
      && forall k :: 0 <= k < |sky'| - 1 ==> sky'[k].y <= height
  {
    hide Place, Packed, Below, Rests, Separated, Raised;
    var sky', n := Place(sky, i, b.x, b.w, b.y + b.h), if sky[i].x < b.x then i + 1 else i;
    PlaceCovers(sky, width, i, b.x, b.w, b.y + b.h);
    PlaceKeepsPacked(boxes, sky, sky', width, height, i, b, n);
    PlaceRaises(sky, sky', width, height, i, b, n);
    PlaceSeparated(sky, i, b.x, b.w, b.y + b.h);
    forall k | 0 <= k < |sky'| - 1
      ensures sky'[k].y <= height
    {
      assert k != n ==> PartOf(sky, sky', k);
    }
  }

  lemma SizesAgree(mem: seq<Node>, head: int, active: seq<int>, free: seq<int>, sky: seq<Seg>)
    requires Chain(mem, head, active) && Shows(mem, active, sky) && Apart2(active, free) && free != []
    ensures |active| == |sky|
    ensures forall k :: 0 <= k < |active| ==> 0 <= active[k] < |mem| && active[k] != free[0]
  {
  }

  /** The lists after relinking, from the pool's contents before and after. */
  lemma Relink(mem0: seq<Node>, mem1: seq<Node>, mem: seq<Node>, head0: int, head: int, active: seq<int>, free: seq<int>,
               freeHead: int, freed: seq<int>, sky: seq<Seg>, i: nat, x: int, w: int, top: int, c: nat)
    requires Chain(mem0, head0, active) && Shows(mem0, active, sky) && i < |sky| - 1
    requires free != [] && Distinct(active + free) && |active| + |free| == |mem0|
    requires c == Keep(sky, if sky[i].x < x then i + 1 else i, x + w) && c < |active|
    requires Relinked(mem0, mem1, head0, head, active, if sky[i].x < x then i + 1 else i, c, free[0])
    requires Chain(mem1, freeHead, freed)
    requires multiset(freed) == multiset(active[if sky[i].x < x then i + 1 else i..c]) + multiset(free[1..])
    requires mem == mem1[free[0] := Node(x, top, active[c])][active[c] := mem1[active[c]].(x := Max(sky[c].x, x + w))]
    ensures var first := if sky[i].x < x then i + 1 else i;
      var active' := active[..first] + [free[0]] + active[c..];
      && Chain(mem, head, active') && Shows(mem, active', Place(sky, i, x, w, top))
      && Chain(mem, freeHead, freed)
      && Distinct(active' + freed) && |active'| + |freed| == |mem0|
  {
    hide Chain, Distinct, Shows, Relinked, Apart2, Place, Finished;
    var first := if sky[i].x < x then i + 1 else i;
    Separate(active, free);
    SizesAgree(mem0, head0, active, free, sky);
    RelinkedSize(mem0, mem1, head0, head, active, first, c, free[0]);
    FinishedBy(mem1, mem, active, free, first, c, x, top, Max(sky[c].x, x + w));
    RelinkedChain(mem0, mem1, mem, head0, head, active, first, c, free[0], x, Max(sky[c].x, x + w), top);
    RelinkedShows(mem0, mem1, mem, head0, head, active, sky, i, x, w, top, c, free[0]);
    Recount(active, free, first, c, freed);
    DistinctPermutation(active + free, active[..first] + [free[0]] + active[c..] + freed);
    NotFreed(active, free, first, c, freed, active[c]);
    NotFreed(active, free, first, c, freed, free[0]);
    FreedInPool(mem1, freeHead, freed);
    ChainFrame(mem1, mem, freeHead, freed);
  }

  lemma RelinkedSize(mem0: seq<Node>, mem: seq<Node>, head0: int, head: int, active: seq<int>, first: nat, c: nat, node: int)
    requires first <= c < |active| && forall m :: 0 <= m < |active| ==> 0 <= active[m] < |mem0|
    requires Relinked(mem0, mem, head0, head, active, first, c, node)
    ensures |mem| == |mem0| && 0 <= node < |mem|
  {
  }

  lemma FreedInPool(mem: seq<Node>, head: int, s: seq<int>)
    requires Chain(mem, head, s)
    ensures forall v :: v in s ==> 0 <= v < |mem|
  {
  }

  class Context {
    var width: int
    var height: int
    var align: int
    var bestFit: bool
    var numNodes: int
    var activeHead: int
    var freeHead: int
    /** The caller's nodes, then the two extra nodes of the context. */
    const nodes: array<Node>

    ghost var active: seq<int>
    ghost var free: seq<int>
    ghost var sky: seq<Seg>
    ghost var placed: seq<Box>

    ghost predicate Lists()
      reads this, nodes
    {
      && numNodes >= 1 && nodes.Length == numNodes + 2
      && Chain(nodes[..], activeHead, active)
      && Chain(nodes[..], freeHead, free)
      && |active| + |free| == nodes.Length
      && Distinct(active + free)
      && Shows(nodes[..], active, sky)
    }

    ghost predicate Valid()
      reads this, nodes
    {
      && 1 <= width <= MAXVAL && 0 <= height <= MAXVAL && align >= 1
      && Lists()
      && WellFormed(sky, width) && Separated(sky)
      && (forall k :: 0 <= k < |sky| - 1 ==> sky[k].y <= height)
      && Packed(placed, width, height)
      && Below(placed, sky)
    }

    /** The link that points at the i-th active node. */
    ghost predicate LinkTo(link: Link, i: int)
      reads this
    {
      0 <= i < |active| && link == if i == 0 then HeadLink else NextLink(active[i - 1])
    }

    /** A fresh target; `count` is the number of nodes the caller provides. */
    constructor (w: int, h: int, count: int)
      requires 1 <= w <= MAXVAL && 0 <= h <= MAXVAL && count >= 1
      ensures Valid() && fresh(nodes)
      ensures width == w && height == h && numNodes == count && !bestFit
      ensures align == Quantum(w, count)
      ensures count * align >= w && count * (align - 1) < w && (align == 1 <==> count >= w)
      ensures placed == [] && sky == [Seg(0, 0), Seg(w, MAXVAL)]
    {
      hide Chain, Distinct, Shows, WellFormed, Packed, Below;
      width, height, numNodes, bestFit := w, h, count, false;
      align := Quantum(w, count);
      nodes := new Node[count + 2];
      new;
      AlignPositive(w, count);
      QuantumMeaning(w, count);
      ThreadNodes(nodes, count);
      freeHead, activeHead := 0, count;
      nodes[count] := Node(0, 0, count + 1);
      nodes[count + 1] := Node(Coord(w), MAXVAL, NIL);
      active, free := [count, count + 1], seq(count, k => k);
      sky, placed := [Seg(0, 0), Seg(w, MAXVAL)], [];
      InitialLists(nodes[..], w, count);
      NothingPlaced(sky, w, h);
    }

    /** Links the caller's nodes one after the other (lines 251-253). */
    static method ThreadNodes(nodes: array<Node>, count: int)
      requires 1 <= count <= nodes.Length
      modifies nodes
      ensures forall k :: 0 <= k < count ==> nodes[k].next == if k + 1 < count then k + 1 else NIL
    {
      var i := 0;
      while i < count - 1
        invariant 0 <= i <= count - 1
        invariant forall k :: 0 <= k < i ==> nodes[k].next == k + 1
      {
        nodes[i] := nodes[i].(next := i + 1);
        i := i + 1;
      }
      nodes[i] := nodes[i].(next := NIL);
    }

    method SetupHeuristic(fit: bool)
      requires Valid()
      modifies this`bestFit
      ensures Valid() && bestFit == fit
    {
      bestFit := fit;
    }

    method SetupAllowOutOfMem(allow: bool)
      requires Valid()
      modifies this`align
      ensures Valid()
      ensures align == if allow then 1 else Quantum(width, numNodes)
      ensures !allow ==>
        numNodes * align >= width && numNodes * (align - 1) < width && (align == 1 <==> numNodes >= width)
    {
      hide Chain, Distinct, Shows, WellFormed, Separated, Packed, Below, Quantum;
      AlignPositive(width, numNodes);
      QuantumMeaning(width, numNodes);
      align := if allow then 1 else Quantum(width, numNodes);
    }

    /** The resting height of a box over x0 <= x < x0 + w, starting from the active node that x0 lies on,
        and the area wasted below it (lines 277-325). */
    method FindMinY(first: int, ghost i: int, x0: int, w: int) returns (minY: int, waste: int, ghost k: int)
      requires Valid() && w > 0 && x0 + w <= width
      requires 0 <= i < |sky| - 1 && first == active[i] && sky[i].x <= x0 < sky[i + 1].x
      ensures RestingHeight(sky, x0, x0 + w, minY) && 0 <= minY <= height
      ensures waste == WasteUnder(sky, x0, w) && 0 - Area(width, height) <= waste <= Area(width, height)
      ensures i < k < |sky| && sky[k - 1].x < x0 + w <= sky[k].x
      ensures sky[i].x == x0 || sky[i].y > 0 ==> waste == Waste(sky, i, k, x0, x0 + w, minY)
      ensures 0 <= waste - Waste(sky, i, k, x0, x0 + w, minY) <= Area(x0 - sky[i].x, minY)
    {
      hide Chain, Distinct, Shows, Packed, Below, WellFormed, Separated, RestingHeight, Walked, Counted, Area, Waste, Meets, Share,
        WasteUnder;
      SameLength();
      Ends(sky, width);
      NodeAt(i);
      var node, x1 := first, x0 + w;
      var visited := 0;
      minY, waste, k := 0, 0, i;
      while nodes[node].x < x1
        invariant i <= k < |sky| && node == active[k] && 0 <= node < nodes.Length
        invariant k > i ==> sky[k - 1].x < x1
        invariant Walk(minY, visited, waste) == Tally(sky, i, k, x0, x1)
        decreases |sky| - k
      {
        NodeAt(k);
        Column(sky, width, k);
        NodeAt(k + 1);
        if nodes[node].y > minY {
          waste := waste + Area(visited, nodes[node].y - minY);
          minY := nodes[node].y;
          if nodes[node].x < x0 {
            visited := visited + nodes[nodes[node].next].x - x0;
          } else {
            visited := visited + nodes[nodes[node].next].x - nodes[node].x;
          }
        } else {
          var under := nodes[nodes[node].next].x - nodes[node].x;
          if under + visited > w {
            under := w - visited;
          }
          waste := waste + Area(under, minY - nodes[node].y);
          visited := visited + under;
        }
        node, k := nodes[node].next, k + 1;
      }
      NodeAt(k);
      NoneBelowFloor(sky, width);
      TallyHeight(sky, i, k, x0, x1);
      WalkEnd(sky, width, i, k, x0, x1, minY);
      WasteIs(sky, width, i, k, x0, w);
      WasteBound(sky, width, height, i, k, x0, x1);
      WasteOver(sky, width, i, k, x0, x1);
    }

    /** The left-aligned candidates (lines 344-370). */
    method LeftScan(w: int, h: int) returns (best: Link, bestY: int, bestWaste: int, ghost bi: int)
      requires Valid() && w > 0
      ensures best.NoLink? ==> bestY == bestWaste == 0x4000_0000
      ensures best.NoLink? ==> forall j, z :: !LeftCandidate(sky, width, height, bestFit, w, h, j, z)
      ensures !best.NoLink? ==> LinkTo(best, bi) && LeftCandidate(sky, width, height, bestFit, w, h, bi, bestY)
      ensures !best.NoLink? ==> BestLeft(sky, width, height, bestFit, w, h, |sky|, GradeAt(sky, sky[bi].x, w, bestY))
      ensures !best.NoLink? && bestFit ==> bestWaste == WasteUnder(sky, sky[bi].x, w)
    {
      hide Chain, Distinct, Shows, Packed, Below, WellFormed, Separated, RestingHeight, Waste, Meets, Share, WasteUnder, BestLeft;
      best, bestY, bestWaste, bi := NoLink, 0x4000_0000, 0x4000_0000, 0;
      var node, prev := activeHead, HeadLink;
      ghost var n, g := 0, Grade(0x4000_0000, 0x4000_0000, 0);
      SameLength();
      Ends(sky, width);
      HeadAt();
      NodeAt(0);
      BestLeftStart(sky, width, height, bestFit, w, h, g);
      while nodes[node].x + w <= width
        invariant 0 <= n < |sky| && node == active[n] && 0 <= node < nodes.Length && LinkTo(prev, n)
        invariant g.y == bestY && (bestFit ==> g.waste == bestWaste)
        invariant best.NoLink? ==> bestY == bestWaste == 0x4000_0000
        invariant best.NoLink? ==> forall j, z :: j < n ==> !LeftCandidate(sky, width, height, bestFit, w, h, j, z)
        invariant !best.NoLink? ==> LinkTo(best, bi) && LeftCandidate(sky, width, height, bestFit, w, h, bi, bestY) && bi < n
        invariant !best.NoLink? ==> g == GradeAt(sky, sky[bi].x, w, bestY)
        invariant BestLeft(sky, width, height, bestFit, w, h, n, g)
        decreases |sky| - n
      {
        NodeAt(n);
        Column(sky, width, n);
        NodeAt(n + 1);
        var y, waste, k := FindMinY(node, n, nodes[node].x, w);
        OnlyHeight(sky, sky[n].x, sky[n].x + w, y);
        if !best.NoLink? {
          Increasing(sky, width, bi, n);
        }
        ghost var g0 := g;
        if !bestFit {
          if y < bestY {
            best, bestY, bi, g := prev, y, n, GradeAt(sky, sky[n].x, w, y);
          }
        } else {
          if y + h <= height {
            if y < bestY || (y == bestY && waste < bestWaste) {
              best, bestY, bestWaste, bi, g := prev, y, waste, n, GradeAt(sky, sky[n].x, w, y);
            }
          }
        }
        BestLeftStep(sky, width, height, bestFit, w, h, n, y, g0, g);
        prev, node, n := NextLink(node), nodes[node].next, n + 1;
      }
      NodeAt(n);
      BestLeftEnd(sky, width, height, bestFit, w, h, n, g);
    }

    /** The right-aligned candidates of the best-fit heuristic (lines 396-419), starting from the best
        left-aligned one. */
    method RightScan(w: int, h: int, best0: Link, bestX0: int, bestY0: int, bestWaste0: int, ghost bi0: int)
      returns (best: Link, bestX: int, bestY: int, ghost bestWaste: int, ghost bi: int)
      requires Valid() && 0 < w <= width && Found(best0, bi0, bestX0, bestY0, bestWaste0, w, h)
      ensures Found(best, bi, bestX, bestY, bestWaste, w, h)
      ensures Better(true, Grade(bestY, bestWaste, bestX), Grade(bestY0, bestWaste0, bestX0))
      ensures BestRight(sky, width, height, w, h, |sky|, Grade(bestY, bestWaste, bestX))
    {
      hide Chain, Distinct, Shows, Packed, Below, WellFormed, Separated, RestingHeight, Waste, Meets, Share, WasteUnder, BestRight,
        RightCandidate, Better, Found, PositionAt, OnEdge;
      best, bestX, bestY, bi := best0, bestX0, bestY0, bi0;
      var leastWaste := bestWaste0;
      ghost var g0 := Grade(bestY0, bestWaste0, bestX0);
      Choice(g0, g0);
      SameLength();
      Ends(sky, width);
      HeadAt();
      NodeAt(0);
      var node, prev := activeHead, HeadLink;
      ghost var n := 0;
      var tail;
      ghost var t;
      tail, t := FirstTail(w);
      BestRightStart(sky, width, height, w, h, t, g0);
      while tail != NIL
        invariant 0 <= t <= |sky| && 0 <= n < |sky| - 1
        invariant tail == (if t < |sky| then active[t] else NIL)
        invariant t < |sky| ==> 0 <= tail < nodes.Length && sky[t].x >= w && sky[n].x <= sky[t].x - w
        invariant node == active[n] && 0 <= node < nodes.Length && LinkTo(prev, n)
        invariant Better(true, Grade(bestY, leastWaste, bestX), g0)
        invariant BestRight(sky, width, height, w, h, t, Grade(bestY, leastWaste, bestX))
        invariant Found(best, bi, bestX, bestY, leastWaste, w, h)
        decreases |sky| - t
      {
        NodeAt(t);
        Column(sky, width, t);
        var xpos := nodes[tail].x - w;
        node, prev, n := Advance(node, prev, n, xpos);
        var y, waste, k := FindMinY(node, n, xpos, w);
        ghost var g, c := Grade(bestY, leastWaste, bestX), Grade(y, waste, xpos);
        Choice(g, c);
        if y + h < height {
          if y <= bestY {
            if y < bestY || waste < leastWaste || (waste == leastWaste && xpos < bestX) {
              best, bestX, bestY, leastWaste, bi := prev, xpos, y, waste, n;
              RightEdge(sky, height, w, h, n, y, t);
              FoundAt(best, bi, bestX, bestY, leastWaste, w, h);
              BetterStill(c, g, g0);
            }
          }
        }
        BestRightStep(sky, width, height, w, h, t, y, g, Grade(bestY, leastWaste, bestX));
        tail, t := nodes[tail].next, t + 1;
        if t < |sky| {
          NodeAt(t);
        }
      }
      bestWaste := leastWaste;
    }

    /** A position found, or none. */
    ghost predicate Found(link: Link, i: int, x: int, y: int, waste: int, w: int, h: int)
      reads this
    {
      if link.NoLink? then y == 0x4000_0000
      else LinkTo(link, i) && PositionAt(sky, width, height, w, h, i, x, y) && waste == WasteUnder(sky, x, w)
    }

    lemma FoundAt(link: Link, i: int, x: int, y: int, waste: int, w: int, h: int)
      requires LinkTo(link, i) && 0 <= i < |sky| - 1 && sky[i].x <= x < sky[i + 1].x && x + w <= width
      requires RestingHeight(sky, x, x + w, y) && y + h <= height && waste == WasteUnder(sky, x, w)
      requires OnEdge(sky, height, w, h, i, x, y)
      ensures Found(link, i, x, y, waste, w, h)
    {
      hide RestingHeight, WasteUnder, OnEdge;
    }

    /** The first node a box of width w can be right-aligned with (lines 394-395). */
    method FirstTail(w: int) returns (tail: int, ghost t: int)
      requires Valid() && 0 < w <= width
      ensures 0 < t < |sky| && tail == active[t] && 0 <= tail < nodes.Length && sky[t].x >= w
      ensures forall m :: 0 <= m < t ==> sky[m].x < w
    {
      hide Chain, Distinct, Shows, Packed, Below;
      tail, t := activeHead, 0;
      SameLength();
      HeadAt();
      NodeAt(0);
      while nodes[tail].x < w
        invariant 0 <= t < |sky| && tail == active[t] && 0 <= tail < nodes.Length
        invariant forall m :: 0 <= m < t ==> sky[m].x < w
        decreases |sky| - t
      {
        NodeAt(t);
        tail, t := nodes[tail].next, t + 1;
        NodeAt(t);
      }
      NodeAt(t);
    }

    /** Moves on to the active node that column xpos lies on (lines 401-404). */
    method Advance(node0: int, prev0: Link, ghost n0: int, xpos: int) returns (node: int, prev: Link, ghost n: int)
      requires Valid() && 0 <= n0 < |sky| - 1 && node0 == active[n0] && LinkTo(prev0, n0)
      requires sky[n0].x <= xpos < width
      ensures n0 <= n < |sky| - 1 && node == active[n] && 0 <= node < nodes.Length && LinkTo(prev, n)
      ensures sky[n].x <= xpos < sky[n + 1].x
    {
      hide Chain, Distinct, Shows, Packed, Below;
      node, prev, n := node0, prev0, n0;
      SameLength();
      NodeAt(n);
      NodeAt(n + 1);
      while nodes[nodes[node].next].x <= xpos
        invariant n0 <= n < |sky| - 1 && sky[n].x <= xpos
        invariant node == active[n] && 0 <= node < nodes.Length && LinkTo(prev, n)
        invariant nodes[node].next == active[n + 1] && 0 <= active[n + 1] < nodes.Length
        invariant nodes[active[n + 1]].x == sky[n + 1].x
        decreases |sky| - n
      {
        prev, node, n := NextLink(node), nodes[node].next, n + 1;
        NodeAt(n);
        NodeAt(n + 1);
      }
    }

    /** The best position for a box of the given size, by the chosen heuristic. A best-fit search needs
        the aligned width to fit the bin: its walk to the first admissible tail is unchecked (line 394). */
    method FindBestPos(w0: int, h: int) returns (fr: FindResult, ghost bi: int)
      requires Valid() && w0 > 0 && h > 0
      requires bestFit ==> AlignUp(w0, align) <= width
      ensures var w := AlignUp(w0, align);
        && (fr.prevLink.NoLink? ==> NoCandidate(sky, width, height, bestFit, w, h))
        && (!fr.prevLink.NoLink? ==>
              && LinkTo(fr.prevLink, bi)
              && BestPosition(sky, width, height, bestFit, w, h, bi, fr.x, fr.y))
    {
      hide Lists, Packed, Below, Separated, RestingHeight, AlignUp, BestLeft, BestRight, WasteUnder;
      AlignUpMeaning(w0, align);
      var w := Aligned(w0, align);
      var best, bestY, bestWaste;
      best, bestY, bestWaste, bi := LeftScan(w, h);
      var bestX := 0;
      if best != NoLink {
        LinkTarget(best, bi);
        NodeAt(bi);
        var at := if best.HeadLink? then activeHead else nodes[best.node].next;
        bestX := nodes[at].x;
      }
      if bestFit {
        ghost var g, least := Grade(bestY, bestWaste, bestX), bestWaste;
        if best.NoLink? {
          NoLeft(sky, width, height, true, w, h, g);
        }
        best, bestX, bestY, least, bi := RightScan(w, h, best, bestX, bestY, bestWaste, bi);
        AfterBothScans(sky, width, height, w, h, g, Grade(bestY, least, bestX));
      }
      fr := FindResult(bestX, bestY, best);
    }

    /** Takes a node off the free list and makes the given link, or the node that stays before the box,
        point at it (lines 443-462). */
    method LinkIn(link: Link, ghost i: nat, x: int, top: int) returns (node: int, cur: int)
      requires Valid() && LinkTo(link, i) && i < |sky| - 1 && free != []
      requires 0 <= x && sky[i].x <= x < width && 0 <= top <= height
      modifies this`activeHead, this`freeHead, nodes
      ensures var first := if sky[i].x < x then i + 1 else i;
        && node == free[0] && cur == active[first]
        && nodes[node].x == x && nodes[node].y == top
        && Relinked(old(nodes[..]), nodes[..], old(activeHead), activeHead, active, first, first, node)
      ensures Chain(nodes[..], freeHead, free[1..])
    {
      hide Chain, Distinct, Shows, Packed, Below, Relinked, Apart2, WellFormed, Separated;
      Separate(active, free);
      SameLength();
      LinkTarget(link, i);
      NodeAt(i);
      FreeAt();
      ghost var mem0 := nodes[..];
      node := freeHead;
      nodes[node] := nodes[node].(x := Coord(x), y := Coord(top));
      freeHead := nodes[node].next;
      cur := if link.HeadLink? then activeHead else nodes[link.node].next;
      if nodes[cur].x < x {
        var next := nodes[cur].next;
        nodes[cur] := nodes[cur].(next := node);
        cur := next;
        LinkedIn(mem0, nodes[..], old(activeHead), activeHead, active, free, i + 1, x, top);
      } else if link.HeadLink? {
        activeHead := node;
        LinkedIn(mem0, nodes[..], old(activeHead), activeHead, active, free, i, x, top);
      } else {
        nodes[link.node] := nodes[link.node].(next := node);
        LinkedIn(mem0, nodes[..], old(activeHead), activeHead, active, free, i, x, top);
      }
    }

    /** Moves the nodes covered by the box to the free list (lines 466-472). */
    method FreeCovered(cur0: int, end: int, ghost mem0: seq<Node>, ghost head0: int, ghost first: nat)
      returns (cur: int, ghost c: nat, ghost freed: seq<int>)
      requires free != [] && Apart2(active, free)
      requires Chain(mem0, head0, active) && Shows(mem0, active, sky)
      requires first < |active| && cur0 == active[first]
      requires Relinked(mem0, nodes[..], head0, activeHead, active, first, first, free[0])
      requires Chain(nodes[..], freeHead, free[1..])
      modifies this`freeHead, nodes
      ensures c == Keep(sky, first, end) && c < |active| && cur == active[c]
      ensures Relinked(mem0, nodes[..], head0, activeHead, active, first, c, free[0])
      ensures Chain(nodes[..], freeHead, freed)
      ensures multiset(freed) == multiset(active[first..c]) + multiset(free[1..])
      ensures nodes[free[0]] == old(nodes[free[0]])
    {
      hide Chain, Distinct, Shows, Relinked, Apart2, Keep;
      SizesAgree(mem0, head0, active, free, sky);
      RelinkedSize(mem0, nodes[..], head0, activeHead, active, first, first, free[0]);
      assert active[first..first] == [];
      cur, c, freed := cur0, first, free[1..];
      Untouched(mem0, nodes[..], head0, activeHead, active, sky, first, c, free[0]);
      while nodes[cur].next != NIL && nodes[nodes[cur].next].x <= end
        invariant first <= c < |active| && cur == active[c] && 0 <= cur < nodes.Length
        invariant nodes[cur].next == At(active, c + 1)
        invariant c + 1 < |active| ==> 0 <= active[c + 1] < nodes.Length && nodes[active[c + 1]].x == sky[c + 1].x
        invariant Keep(sky, c, end) == Keep(sky, first, end)
        invariant Relinked(mem0, nodes[..], head0, activeHead, active, first, c, free[0])
        invariant Chain(nodes[..], freeHead, freed)
        invariant multiset(freed) == multiset(active[first..c]) + multiset(free[1..])
        invariant nodes[free[0]] == old(nodes[free[0]])
        decreases |active| - c
        modifies this`freeHead, nodes
      {
        KeepOn(sky, c, end);
        FreedOne(mem0, nodes[..], head0, activeHead, active, free, sky, first, c, freeHead, freed);
        ghost var mem := nodes[..];
        var next := nodes[cur].next;
        nodes[cur] := nodes[cur].(next := freeHead);
        freeHead := cur;
        cur := next;
        assert nodes[..] == mem[active[c] := mem[active[c]].(next := nodes[active[c]].next)];
        freed, c := [active[c]] + freed, c + 1;
      }
      KeepEnds(sky, c, end);
    }

    /** Stitches the list back in: the new node leads on, and the node behind it loses the part below the box
        (lines 474-478). */
    method Stitch(node: int, cur: int, end: int)
      requires 0 <= node < nodes.Length && 0 <= cur < nodes.Length && node != cur && 0 <= end <= MAXVAL
      modifies nodes
      ensures nodes[..] == old(nodes[..])[node := Node(old(nodes[node].x), old(nodes[node].y), cur)]
                                         [cur := old(nodes[cur]).(x := Max(old(nodes[cur].x), end))]
    {
      nodes[node] := nodes[node].(next := cur);
      if nodes[cur].x < end {
        nodes[cur] := nodes[cur].(x := Coord(end));
      }
    }

    /** Takes a free node for the new segment and relinks the skyline around it: covered nodes go to the
        free list, and the first one that stays loses the part below the box (lines 443-478). */
    method InsertSegment(link: Link, ghost i: nat, x: int, w: int, top: int)
      requires Valid() && LinkTo(link, i) && i < |sky| - 1 && free != []
      requires 0 <= x && sky[i].x <= x < sky[i + 1].x && w > 0 && x + w <= width && 0 <= top <= height
      modifies this`activeHead, this`freeHead, this`active, this`free, this`sky, nodes
      ensures Lists() && sky == Place(old(sky), i, x, w, top)
    {
      hide Chain, Distinct, Shows, Relinked, Apart2, Packed, Below, WellFormed, Separated, Place;
      Separate(active, free);
      SameLength();
      FreeAt();
      ghost var mem0, first := nodes[..], if sky[i].x < x then i + 1 else i;
      var node, cur := LinkIn(link, i, x, top);
      ghost var c, freed;
      cur, c, freed := FreeCovered(cur, x + w, mem0, old(activeHead), first);
      ghost var mem1 := nodes[..];
      Untouched(mem0, mem1, old(activeHead), activeHead, active, sky, first, c, node);
      Stitch(node, cur, x + w);
      Relink(mem0, mem1, nodes[..], old(activeHead), activeHead, active, free, freeHead, freed, sky, i, x, w, top, c);
      active, free := active[..first] + [node] + active[c..], freed;
      sky := Place(sky, i, x, w, top);
    }

    /** Places one rectangle if it fits and a node is left; otherwise nothing changes. */
    method PackRectangle(w: int, h: int) returns (fr: FindResult)
      requires Valid() && 0 < w <= MAXVAL && 0 < h <= MAXVAL
      requires bestFit ==> AlignUp(w, align) <= width
      modifies this`activeHead, this`freeHead, this`active, this`free, this`sky, this`placed, nodes
      ensures Valid() && Raised(old(sky), sky)
      ensures fr.prevLink.NoLink? <==> old(free) == [] || NoRoom(old(sky), width, height, AlignUp(w, align), h)
      ensures fr.prevLink.NoLink? ==>
        && nodes[..] == old(nodes[..]) && activeHead == old(activeHead) && freeHead == old(freeHead)
        && active == old(active) && free == old(free) && sky == old(sky) && placed == old(placed)
      ensures !fr.prevLink.NoLink? ==>
        && |active| + |free| == old(|active| + |free|)
        && placed == old(placed) + [Box(fr.x, fr.y, w, h)]
        && fr.x + AlignUp(w, align) <= width && fr.y + h <= height
        && exists i: nat :: i < |old(sky)| - 1 && BestPosition(old(sky), width, height, bestFit, AlignUp(w, align), h, i, fr.x, fr.y)
             && sky == Place(old(sky), i, fr.x, w, fr.y + h)
    {
      hide Chain, Distinct, Shows, WellFormed, Separated, Packed, Below, BestPosition, NoCandidate, NoRoom, AlignUp, Place, Raised;
      ghost var i;
      fr, i := FindBestPos(w, h);
      FreeEmpty();
      AlignUpMeaning(w, align);
      if fr.prevLink.NoLink? {
        NothingFound(sky, width, height, bestFit, AlignUp(w, align), h);
      } else {
        BestTooHigh(sky, width, height, bestFit, AlignUp(w, align), h, i, fr.x, fr.y);
      }
      if fr.prevLink.NoLink? || fr.y + h > height || freeHead == NIL {
        NothingRaised(sky, width);
        fr := fr.(prevLink := NoLink);
        return;
      }
      ghost var b := Box(fr.x, fr.y, w, h);
      PositionRests(sky, width, height, bestFit, AlignUp(w, align), h, i, b);
      PlaceStays(sky, width, height, i, placed, b);
      InsertSegment(fr.prevLink, i, fr.x, w, fr.y + h);
      placed := placed + [b];
      SizesKept();
      assert BestPosition(old(sky), width, height, bestFit, AlignUp(w, align), h, i, fr.x, fr.y)
          && sky == Place(old(sky), i, fr.x, w, fr.y + h);
    }

    lemma SizesKept()
      requires Lists()
      ensures |active| + |free| == nodes.Length && |active| == |sky|
    {
    }

    lemma FreeEmpty()
      requires Lists()
      ensures freeHead == NIL <==> free == []
      ensures |active| + |free| == nodes.Length && |active| == |sky|
    {
    }

    /** With as many nodes as columns the free list never runs dry. */
    lemma NodesSuffice()
      requires Valid() && numNodes >= width
      ensures free != []
    {
      hide Chain, Distinct, Shows, WellFormed, Separated, Packed, Below;
      SizesKept();
      Ends(sky, width);
      SegmentsCounted(sky, width, |sky| - 1);
    }

    /** The nodes suffice: there is one for every column, or the widths are quantised for them and the bin is none of
        those that can run out. */
    ghost predicate Enough()
      reads this
    {
      && numNodes >= 1
      && (numNodes >= width || (align == Quantum(width, numNodes) && !RunsOut(width, height, numNodes)))
    }

    /** Then a free list that has run dry keeps nothing out of the bin. */
    lemma RefusedForRoom(w: int, h: int)
      requires Valid() && Enough() && free == [] && w > 0 && h > 0
      ensures NoRoom(sky, width, height, AlignUp(w, align), h)
    {
      hide Chain, Distinct, Shows, WellFormed, Separated, Packed, Below, AlignUp, RestingHeight;
      SizesKept();
      AlignUpMeaning(w, align);
      AlignUpAtLeast(w, align);
      if numNodes >= width {
        NodesSuffice();
      } else {
        forall x, z | RestsAt(sky, width, AlignUp(w, align), x, z)
          ensures z + h > height
        {
          RestsAbove(sky, width, x, x + AlignUp(w, align), z);
          if z == 0 {
            FloorGap(sky, width, x, AlignUp(w, align));
          }
        }
      }
    }

    /** The node a link points at. */
    lemma LinkTarget(link: Link, i: int)
      requires Lists() && LinkTo(link, i)
      ensures link.NextLink? ==> 0 <= link.node < nodes.Length
      ensures (if link.HeadLink? then activeHead else nodes[link.node].next) == active[i]
    {
    }

    lemma HeadAt()
      requires Lists() && |active| > 0
      ensures activeHead == active[0]
    {
    }

    /** The head of the free list, away from the active nodes. */
    lemma FreeAt()
      requires Lists() && free != []
      ensures freeHead == free[0] && 0 <= free[0] < nodes.Length
      ensures Chain(nodes[..], activeHead, active) && Chain(nodes[..], At(free, 0), free)
      ensures forall k :: 0 <= k < |active| ==> active[k] != free[0]
    {
      Separate(active, free);
    }

    lemma SameLength()
      requires Lists()
      ensures |active| == |sky|
    {
    }

    /** What the pool says about the k-th active node. */
    lemma NodeAt(k: int)
      requires Lists() && 0 <= k < |active|
      ensures 0 <= active[k] < nodes.Length
      ensures nodes[active[k]].x == sky[k].x && nodes[active[k]].y == sky[k].y
      ensures nodes[active[k]].next == At(active, k + 1)
    {
    }

    /** Places one rectangle of the array (lines 561-571); `slot` says where its box is among the placed ones. */
    method PlaceRect(r: Rect) returns (r': Rect, ghost slot: int)
      requires Valid() && 0 <= r.w <= MAXVAL && 0 <= r.h <= MAXVAL
      requires bestFit && !Empty(r) ==> AlignUp(r.w, align) <= width
      modifies this`activeHead, this`freeHead, this`active, this`free, this`sky, this`placed, nodes
      ensures Valid() && SameInput(r', r)
      ensures placed == if slot < 0 then old(placed) else old(placed) + [BoxOf(r')]
      ensures Settled(r', placed, slot, |old(placed)|)
      ensures Raised(old(sky), sky) && WellFormed(old(sky), width) && WellFormed(sky, width)
      ensures slot < 0 && !Empty(r) && (Enough() || free != []) ==> NoRoom(sky, width, height, AlignUp(r.w, align), r.h)
      ensures old(free) == [] ==> free == []
    {
      hide Lists, WellFormed, Separated, Below, AlignUp, Disjoint, NoRoom, BestPosition, Raised, Quantum, RunsOut, Place;
      NothingRaised(sky, width);
      slot := -1;
      if r.w == 0 || r.h == 0 {
        r' := r.(x := 0, y := 0);
      } else {
        var fr := PackRectangle(r.w, r.h);
        if fr.prevLink != NoLink {
          slot := |placed| - 1;
          r' := r.(x := Coord(fr.x), y := Coord(fr.y));
          assert Inside(placed[slot], width, height);
        } else {
          if free == [] && Enough() {
            RefusedForRoom(r.w, r.h);
          }
          r' := r.(x := MAXVAL, y := MAXVAL);
        }
      }
    }

    /** The placing loop (lines 560-572), over the rectangles in the given order. */
    method PlaceAll(rects: array<Rect>, order: seq<int>) returns (ghost slots: seq<int>)
      requires Valid() && Orders(order, rects.Length)
      requires forall k :: 0 <= k < rects.Length ==> Packable(rects[k], width, align, bestFit)
      modifies this`activeHead, this`freeHead, this`active, this`free, this`sky, this`placed, nodes, rects
      ensures Valid() && old(placed) <= placed && |slots| == rects.Length
      ensures forall k :: 0 <= k < rects.Length ==> SameInput(rects[k], old(rects[k]))
      ensures forall k :: 0 <= k < rects.Length ==> Settled(rects[k], placed, slots[k], |old(placed)|)
      ensures forall k, m :: 0 <= k < rects.Length && 0 <= m < rects.Length && k != m && slots[k] >= 0 ==> slots[k] != slots[m]
      ensures Enough() || free != [] ==>
        forall k :: 0 <= k < rects.Length && slots[k] < 0 ==> KeptOut(sky, width, height, align, rects[k])
    {
      hide Lists, WellFormed, Separated, Packed, Below, AlignUp, Inside, Disjoint, Raised, KeptOut, Quantum, RunsOut, Settled,
        Placing, KeptUpTo;
      slots := seq(rects.Length, k => -1);
      ghost var rects0, placed0 := rects[..], placed;
      PlacingStart(rects0, slots, order, placed);
      var i := 0;
      while i < rects.Length
        invariant 0 <= i <= rects.Length && Valid() && placed0 <= placed
        invariant Placing(rects[..], rects0, slots, order, i, placed, |placed0|)
        invariant Enough() || free != [] ==> KeptUpTo(rects[..], slots, order, i, sky, width, height, align)
      {
        var r;
        ghost var slot, sky0, was, before, slots0 := -1, sky, rects[..], placed, slots;
        PlacingNext(was, rects0, slots, order, i, placed, |placed0|);
        r, slot := PlaceRect(rects[order[i]]);
        KeptOutIs(sky, width, height, align, r);
        KeptOutStays(sky0, sky, width, height, align);
        rects[order[i]] := r;
        slots := slots[order[i] := slot];
        assert rects[..] == was[order[i] := r];
        PlacingStep(was, rects0, slots0, order, i, before, |placed0|, placed, r, slot);
        KeptStep(was, slots0, order, i, sky0, sky, width, height, align, r, slot);
        i := i + 1;
      }
      PlacingDone(rects[..], rects0, slots, order, placed, |placed0|);
      KeptDone(rects[..], slots, order, sky, width, height, align);
    }

    /** Packs an array of rectangles. `order` is the permutation qsort picks for the placing loop; the final
        sort restores the original order, so each result goes back to its rectangle's own slot. Empty rectangles
        take no space; unplaced ones get the coordinates MAXVAL and lose their flag. With enough nodes a rectangle is
        left out only if there is no room for it even at the end. */
    method PackRects(rects: array<Rect>, order: seq<int>)
      requires Valid() && Orders(order, rects.Length)
      requires forall k :: 0 <= k < rects.Length ==> Packable(rects[k], width, align, bestFit)
      modifies this`activeHead, this`freeHead, this`active, this`free, this`sky, this`placed, nodes, rects
      ensures Valid() && old(placed) <= placed
      ensures forall k :: 0 <= k < rects.Length ==> SameInput(rects[k], old(rects[k]))
      ensures Outcome(rects[..], old(placed), width, height)
      ensures Enough() || free != [] ==> forall k :: 0 <= k < rects.Length && !rects[k].wasPacked ==>
        KeptOut(sky, width, height, align, rects[k])
      ensures numNodes >= width && align == 1 ==> forall k :: 0 <= k < rects.Length && !rects[k].wasPacked ==>
        rects[k].w == 0 || rects[k].h == 0 || NoRoom(sky, width, height, rects[k].w, rects[k].h)
    {
      hide Lists, WellFormed, Separated, Packed, Below, AlignUp, Inside, Disjoint, Outcome, Settled, Packable, KeptOut,
        Quantum, RunsOut, NoRoom;
      ghost var slots := PlaceAll(rects, order);
      label Placed:
      var i := 0;
      while i < rects.Length
        invariant 0 <= i <= rects.Length
        invariant forall k :: 0 <= k < rects.Length ==>
          rects[k] == if k < i then Flagged(old@Placed(rects[k])) else old@Placed(rects[k])
        modifies rects
      {
        rects[i] := Flagged(rects[i]);
        i := i + 1;
      }
      FlagsTell(old@Placed(rects[..]), rects[..], old(placed), placed, slots, width, height);
      KeptOutFlagged(old@Placed(rects[..]), rects[..], placed, slots, |old(placed)|, sky, width, height, align);
      KeptOutUnquantised(sky, width, height);
    }
  }

  /** The rectangle is empty or fits nowhere above the skyline. */
  ghost predicate KeptOut(sky: seq<Seg>, width: int, height: int, align: int, r: Rect) {
    Empty(r) || (align >= 1 && r.w >= 0 && NoRoom(sky, width, height, AlignUp(r.w, align), r.h))
  }

  lemma KeptOutIs(sky: seq<Seg>, width: int, height: int, align: int, r: Rect)
    requires r.w >= 0 && align >= 1
    ensures KeptOut(sky, width, height, align, r) <==> Empty(r) || NoRoom(sky, width, height, AlignUp(r.w, align), r.h)
  {
  }

  lemma KeptOutUnquantised(sky: seq<Seg>, width: int, height: int)
    ensures forall r :: KeptOut(sky, width, height, 1, r) ==> r.w == 0 || r.h == 0 || NoRoom(sky, width, height, r.w, r.h)
  {
    hide AlignUp, NoRoom;
    forall r | KeptOut(sky, width, height, 1, r)
      ensures r.w == 0 || r.h == 0 || NoRoom(sky, width, height, r.w, r.h)
    {
      if r.w >= 0 {
        AlignUpMeaning(r.w, 1);
      }
    }
  }

  lemma KeptOutStays(sky: seq<Seg>, sky': seq<Seg>, width: int, height: int, align: int)
    requires WellFormed(sky, width) && WellFormed(sky', width) && Raised(sky, sky')
    ensures forall r :: KeptOut(sky, width, height, align, r) ==> KeptOut(sky', width, height, align, r)
  {
    hide WellFormed, Raised, AlignUp, NoRoom;
    forall r | KeptOut(sky, width, height, align, r)
      ensures KeptOut(sky', width, height, align, r)
    {
      if !Empty(r) {
        AlignUpMeaning(r.w, align);
        NoRoomKept(sky, sky', width, height, AlignUp(r.w, align), r.h);
      }
    }
  }

  /** The placing loop before round i: what `slots` says about the rectangles placed so far, and nothing else changed. */
  ghost predicate Placing(rects: seq<Rect>, rects0: seq<Rect>, slots: seq<int>, order: seq<int>, i: int,
                          placed: seq<Box>, before: int)
  {
    && |rects| == |rects0| == |slots| && Orders(order, |rects|) && 0 <= i <= |rects| && before <= |placed|
    && (forall k :: 0 <= k < |rects| ==> SameInput(rects[k], rects0[k]))
    && (forall k :: 0 <= k < |rects| ==> slots[k] < |placed|)
    && (forall m :: 0 <= m < i ==> Settled(rects[order[m]], placed, slots[order[m]], before))
    && (forall m :: i <= m < |order| ==> slots[order[m]] < 0)
    && (forall k, m :: 0 <= k < |rects| && 0 <= m < |rects| && k != m && slots[k] >= 0 ==> slots[k] != slots[m])
  }

  lemma PlacingStart(rects: seq<Rect>, slots: seq<int>, order: seq<int>, placed: seq<Box>)
    requires |slots| == |rects| && Orders(order, |rects|) && forall k :: 0 <= k < |slots| ==> slots[k] == -1
    ensures Placing(rects, rects, slots, order, 0, placed, |placed|)
    ensures forall sky, width, height, align :: KeptUpTo(rects, slots, order, 0, sky, width, height, align)
  {
  }

  lemma PlacingNext(rects: seq<Rect>, rects0: seq<Rect>, slots: seq<int>, order: seq<int>, i: int, placed: seq<Box>, before: int)
    requires Placing(rects, rects0, slots, order, i, placed, before) && i < |rects|
    ensures |rects| == |rects0| == |slots| == |order| && 0 <= order[i] < |rects| && SameInput(rects[order[i]], rects0[order[i]])
  {
  }

  lemma PlacingStep(rects: seq<Rect>, rects0: seq<Rect>, slots: seq<int>, order: seq<int>, i: int, placed: seq<Box>, before: int,
                    placed': seq<Box>, r: Rect, slot: int)
    requires Placing(rects, rects0, slots, order, i, placed, before) && i < |rects| && 0 <= order[i] < |rects|
    requires SameInput(r, rects[order[i]]) && Settled(r, placed', slot, |placed|)
    requires placed' == if slot < 0 then placed else placed + [BoxOf(r)]
    ensures Placing(rects[order[i] := r], rects0, slots[order[i] := slot], order, i + 1, placed', before)
  {
    var rects', slots' := rects[order[i] := r], slots[order[i] := slot];
    forall m | 0 <= m < i + 1
      ensures Settled(rects'[order[m]], placed', slots'[order[m]], before)
    {
      if m < i {
        assert order[m] != order[i] && Settled(rects[order[m]], placed, slots[order[m]], before);
      }
    }
  }

  lemma PlacingDone(rects: seq<Rect>, rects0: seq<Rect>, slots: seq<int>, order: seq<int>, placed: seq<Box>, before: int)
    requires Placing(rects, rects0, slots, order, |rects|, placed, before)
    ensures |slots| == |rects| == |rects0|
    ensures forall k :: 0 <= k < |rects| ==> SameInput(rects[k], rects0[k]) && Settled(rects[k], placed, slots[k], before)
    ensures forall k, m :: 0 <= k < |rects| && 0 <= m < |rects| && k != m && slots[k] >= 0 ==> slots[k] != slots[m]
  {
    hide Settled;
    forall k | 0 <= k < |rects|
      ensures Settled(rects[k], placed, slots[k], before)
    {
      assert k in order;
      var m :| 0 <= m < |order| && order[m] == k;
    }
  }

  /** The rectangles refused so far are kept out. */
  ghost predicate KeptUpTo(rects: seq<Rect>, slots: seq<int>, order: seq<int>, i: int,
                           sky: seq<Seg>, width: int, height: int, align: int)
  {
    && 0 <= i <= |order|
    && (forall m :: 0 <= m < i ==> 0 <= order[m] < |rects| && order[m] < |slots|)
    && (forall m :: 0 <= m < i && slots[order[m]] < 0 ==> KeptOut(sky, width, height, align, rects[order[m]]))
  }

  lemma KeptStep(rects: seq<Rect>, slots: seq<int>, order: seq<int>, i: int, sky: seq<Seg>, sky': seq<Seg>,
                 width: int, height: int, align: int, r: Rect, slot: int)
    requires 0 <= i < |order| && 0 <= order[i] < |rects| == |slots| && Distinct(order)
    requires forall q :: KeptOut(sky, width, height, align, q) ==> KeptOut(sky', width, height, align, q)
    ensures KeptUpTo(rects, slots, order, i, sky, width, height, align) && (slot < 0 ==> KeptOut(sky', width, height, align, r))
      ==> KeptUpTo(rects[order[i] := r], slots[order[i] := slot], order, i + 1, sky', width, height, align)
  {
    hide KeptOut;
  }

  lemma KeptDone(rects: seq<Rect>, slots: seq<int>, order: seq<int>, sky: seq<Seg>, width: int, height: int, align: int)
    requires Orders(order, |rects|) && |slots| == |rects|
    ensures KeptUpTo(rects, slots, order, |rects|, sky, width, height, align) ==>
      forall k :: 0 <= k < |rects| && slots[k] < 0 ==> KeptOut(sky, width, height, align, rects[k])
  {
    hide KeptOut;
    forall k | 0 <= k < |rects| && slots[k] < 0 && KeptUpTo(rects, slots, order, |rects|, sky, width, height, align)
      ensures KeptOut(sky, width, height, align, rects[k])
    {
      assert k in order;
      var m :| 0 <= m < |order| && order[m] == k;
    }
  }

  lemma KeptOutFlagged(rects: seq<Rect>, rects': seq<Rect>, placed: seq<Box>, slots: seq<int>, before: int,
                       sky: seq<Seg>, width: int, height: int, align: int)
    requires |rects'| == |rects| == |slots|
    requires forall k :: 0 <= k < |rects| ==> rects'[k] == Flagged(rects[k])
    requires forall k :: 0 <= k < |rects| ==> Settled(rects[k], placed, slots[k], before)
    ensures (forall k :: 0 <= k < |rects| && slots[k] < 0 ==> KeptOut(sky, width, height, align, rects[k])) ==>
      forall k :: 0 <= k < |rects| && !rects'[k].wasPacked ==> KeptOut(sky, width, height, align, rects'[k])
  {
    hide NoRoom, AlignUp;
  }

  /** The width quantum: the width divided by the number of nodes, rounded up. */
  function Quantum(width: int, count: int): int
    requires count >= 1
  {
    (width + count - 1) / count
  }

  /** The least quantum with which num_nodes of them span the width (lines 234-238). */
  lemma QuantumMeaning(w: int, count: int)
    requires w >= 1 && count >= 1
    ensures var q := Quantum(w, count);
      count * q >= w && count * (q - 1) < w && (q == 1 <==> count >= w)
  {
    var q := Quantum(w, count);
    QuantumSpans(w, count, q, (w + count - 1) % count);
    if q >= 2 {
      ScaledOrder(q - 1, 1, count);
    }
  }

  lemma QuantumSpans(w: int, count: int, q: int, r: int)
    requires count >= 1 && w + count - 1 == q * count + r && 0 <= r < count
    ensures count * q >= w && count * (q - 1) < w
  {
    assert count * (q - 1) == q * count - count;
  }

  lemma AlignPositive(w: int, count: int)
    requires w >= 1 && count >= 1
    ensures Quantum(w, count) >= 1
  {
  }

  /** The bins in which quantised widths can run out of nodes while there is room: those with fewer nodes than columns
      and either a second row, or one row that holds a unit box for every node and one more. */
  predicate RunsOut(width: int, height: int, count: int)
    requires count >= 1
  {
    count < width && (height >= 2 || (height == 1 && count + Quantum(width, count) <= width))
  }

  lemma AlignUpAtLeast(w: nat, align: nat)
    requires w >= 1 && align >= 1
    ensures AlignUp(w, align) >= align
  {
    var q := (w + align - 1) / align;
    assert w + align - 1 == q * align + (w + align - 1) % align;
    ScaledOrder(q, 1, align);
  }

  lemma RestsAbove(sky: seq<Seg>, width: int, x0: int, x1: int, z: int)
    requires WellFormed(sky, width) && RestingHeight(sky, x0, x1, z)
    ensures z >= 0
  {
  }

  // --------------------------------------------------------------------------
  // Running out of nodes
  // --------------------------------------------------------------------------

  /** The skyline after k unit boxes side by side on the floor. */
  ghost function Staircase(k: nat, width: int): seq<Seg> {
    seq(k, j => Seg(j, 1)) + [Seg(k, 0), Seg(width, MAXVAL)]
  }

  /** Beside k unit boxes, an aligned width that still fits the floor finds the first free column. */
  lemma NextStep(k: nat, width: int, height: int, w: int, i: int, x: int, y: int)
    requires k + w <= width && w >= 1 && height >= 1
    requires BestPosition(Staircase(k, width), width, height, false, w, 1, i, x, y)
    ensures i == k && x == k && y == 0
  {
    var sky := Staircase(k, width);
    assert Meets(sky, k, k, k + w) && sky[k].y == 0;
    assert RestingHeight(sky, sky[k].x, sky[k].x + w, 0);
    assert LeftCandidate(sky, width, height, false, w, 1, k, 0);
    assert Meets(sky, i, x, x + w);
  }

  lemma StaircaseGrows(k: nat, width: int)
    requires k + 1 < width
    ensures Place(Staircase(k, width), k, k, 1, 1) == Staircase(k + 1, width)
  {
    var sky := Staircase(k, width);
    assert Keep(sky, k, k + 1) == k;
    assert sky[..k] == seq(k, j => Seg(j, 1));
    assert seq(k + 1, j => Seg(j, 1)) == seq(k, j => Seg(j, 1)) + [Seg(k, 1)];
    assert sky[k + 1..] == [Seg(width, MAXVAL)];
  }

  /** n nodes and the alignment chosen for them never exceed the width plus one. */
  lemma AlignmentBound(width: int, n: int)
    requires 1 <= n < width
    ensures n + Quantum(width, n) <= width + 1
  {
    var v := width + n - 1;
    QuotientFlat(width, n, v / n, v % n);
  }

  lemma QuotientFlat(width: int, n: int, q: int, r: int)
    requires 1 <= n < width && width + n - 1 == q * n + r && 0 <= r < n
    ensures n + q <= width + 1
  {
    assert (n - 1) * (width - n) >= 0;
    assert (width + 2 - n) * n == (n - 1) * (width - n) + width + n;
    if q >= width + 2 - n {
      ScaledOrder(q, width + 2 - n, n);
    }
  }

  lemma ScaledOrder(a: int, b: int, n: int)
    requires a >= b && n >= 0
    ensures a * n >= b * n
  {
    assert (a - b) * n >= 0;
  }

  lemma AlignUpOne(align: int)
    requires align >= 1
    ensures AlignUp(1, align) == align
  {
  }

  lemma StaircaseStart(width: int)
    ensures Staircase(0, width) == [Seg(0, 0), Seg(width, MAXVAL)]
    ensures forall k: nat :: |Staircase(k, width)| == k + 2
  {
  }

  lemma RoomOnFloor(k: nat, width: int, height: int, w: int)
    requires k + w <= width && w >= 1 && height >= 1
    ensures !NoRoom(Staircase(k, width), width, height, w, 1)
  {
    var sky := Staircase(k, width);
    assert Meets(sky, k, k, k + w) && sky[k].y == 0;
    assert RestingHeight(sky, k, k + w, 0);
    assert RestsAt(sky, width, w, k, 0);
  }

  lemma RoomAbove(width: int, height: int, k: nat, w: int)
    requires 1 <= w <= width && height >= 2 && k >= 1
    ensures !NoRoom(Staircase(k, width), width, height, w, 1)
  {
    var sky := Staircase(k, width);
    assert Meets(sky, 0, 0, w) && sky[0].y == 1;
    assert RestingHeight(sky, 0, w, 1);
    assert RestsAt(sky, width, w, 0, 1);
  }

  /** One unit rectangle goes beside the others and costs a node. */
  method PackUnit(c: Context, k: nat)
    requires c.Valid() && !c.bestFit && c.height >= 1 && k + c.align <= c.width && k + 1 < c.width
    requires c.sky == Staircase(k, c.width) && c.free != []
    modifies c, c.nodes
    ensures c.Valid() && c.width == old(c.width) && c.height == old(c.height) && c.numNodes == old(c.numNodes)
    ensures c.align == old(c.align) && !c.bestFit
    ensures c.sky == Staircase(k + 1, c.width) && |c.free| == |old(c.free)| - 1
    ensures c.placed == old(c.placed) + [Box(k, 0, 1, 1)]
  {
    hide Chain, Distinct, Shows, WellFormed, Separated, Packed, Below, BestPosition, NoRoom, AlignUp, Staircase, Place, Raised;
    AlignUpOne(c.align);
    StaircaseStart(c.width);
    RoomOnFloor(k, c.width, c.height, c.align);
    c.SizesKept();
    var fr := c.PackRectangle(1, 1);
    c.SizesKept();
    ghost var i: nat :| i < k + 1 && BestPosition(Staircase(k, c.width), c.width, c.height, false, c.align, 1, i, fr.x, fr.y)
                     && c.sky == Place(Staircase(k, c.width), i, fr.x, 1, fr.y + 1);
    NextStep(k, c.width, c.height, c.align, i, fr.x, fr.y);
    StaircaseGrows(k, c.width);
  }

  /** After the unit boxes there is still room for one more. */
  lemma StillRoom(width: int, height: int, n: nat)
    requires n >= 1 && RunsOut(width, height, n)
    ensures !NoRoom(Staircase(n, width), width, height, Quantum(width, n), 1)
  {
    hide NoRoom, Staircase;
    AlignmentBound(width, n);
    AlignPositive(width, n);
    if n + Quantum(width, n) <= width {
      RoomOnFloor(n, width, height, Quantum(width, n));
    } else {
      RoomAbove(width, height, n, Quantum(width, n));
    }
  }

  /** Against the promise of lines 128-133 that quantised widths never run out: in every bin of RunsOut as many unit
      rectangles as there are nodes use up every node, and the next one is refused although it fits. In all other bins
      the promise holds, by RefusedForRoom. */
  method RunOutOfNodes(w: int, h: int, n: int) returns (c: Context, refused: FindResult)
    requires 1 <= n && w <= MAXVAL && h <= MAXVAL && RunsOut(w, h, n)
    ensures fresh(c) && fresh(c.nodes) && c.Valid() && c.width == w && c.height == h && c.numNodes == n && !c.bestFit
    ensures c.align == Quantum(w, n)
    ensures c.placed == seq(n, j => Box(j, 0, 1, 1))
    ensures c.free == [] && refused.prevLink.NoLink?
    ensures !NoRoom(c.sky, w, h, AlignUp(1, c.align), 1)
  {
    hide Chain, Distinct, Shows, WellFormed, Separated, Packed, Below, BestPosition, NoRoom, AlignUp, Staircase, Place,
      Raised, Quantum;
    c := new Context(w, h, n);
    AlignmentBound(w, n);
    AlignPositive(w, n);
    AlignUpOne(c.align);
    StaircaseStart(w);
    c.SizesKept();
    var k := 0;
    while k < n
      invariant 0 <= k <= n
      invariant fresh(c) && fresh(c.nodes) && c.Valid()
      invariant c.width == w && c.height == h && c.numNodes == n && !c.bestFit && c.align == Quantum(w, n)
      invariant c.sky == Staircase(k, w) && |c.free| == n - k
      invariant c.placed == seq(k, j => Box(j, 0, 1, 1))
    {
      PackUnit(c, k);
      k := k + 1;
    }
    StillRoom(w, h, n);
    refused := c.PackRectangle(1, 1);
  }
}
