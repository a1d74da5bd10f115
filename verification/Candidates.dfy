/** Where the packer may put a box: the walk that measures a position, the candidates, and which of them is best. */
module Candidates {
  import opened Skyline
  import opened Words

  // --------------------------------------------------------------------------
  // The walk along the segments below a position
  // --------------------------------------------------------------------------

  datatype Walk = Walk(minY: int, visited: int, waste: int)

  /** One more segment, that ends at `end` (lines 300-320). */
  function Onward(t: Walk, s: Seg, end: int, x0: int, x1: int): Walk {
    if s.y > t.minY then
      Walk(s.y, t.visited + end - Max(s.x, x0), t.waste + Area(t.visited, s.y - t.minY))
    else
      var under := Min(end - s.x, x1 - x0 - t.visited);
      Walk(t.minY, t.visited + under, t.waste + Area(under, t.minY - s.y))
  }

  /** What the program has counted before segment k, having started on segment i. */
  ghost function Tally(sky: seq<Seg>, i: int, k: int, x0: int, x1: int): Walk
    requires 0 <= i <= k < |sky|
    decreases k
  {
    if k == i then Walk(0, 0, 0)
    else Onward(Tally(sky, i, k - 1, x0, x1), sky[k - 1], sky[k].x, x0, x1)
  }

  /** minY is the highest of the segments i..k walked so far. */
  ghost predicate Walked(sky: seq<Seg>, i: int, k: int, minY: int)
    requires 0 <= i <= k < |sky|
  {
    && (forall m :: i <= m < k ==> sky[m].y <= minY)
    && if k == i then minY == 0 else exists m :: i <= m < k && sky[m].y == minY
  }

  lemma {:induction false} TallyHeight(sky: seq<Seg>, i: int, k: int, x0: int, x1: int)
    requires 0 <= i <= k < |sky| && forall m :: 0 <= m < |sky| ==> 0 <= sky[m].y
    ensures Walked(sky, i, k, Tally(sky, i, k, x0, x1).minY) && 0 <= Tally(sky, i, k, x0, x1).minY
    decreases k
  {
    hide Area, Walked;
    if k > i {
      TallyHeight(sky, i, k - 1, x0, x1);
      WalkStep(sky, i, k - 1, Tally(sky, i, k - 1, x0, x1).minY);
    } else {
      WalkStart(sky, i);
    }
  }

  lemma WalkStart(sky: seq<Seg>, i: int)
    requires 0 <= i < |sky|
    ensures Walked(sky, i, i, 0)
  {
  }

  /** One step of the walk keeps the height the maximum. */
  lemma WalkStep(sky: seq<Seg>, i: int, k: int, minY: int)
    requires 0 <= i <= k < |sky| - 1 && 0 <= sky[k].y && 0 <= minY && Walked(sky, i, k, minY)
    ensures Walked(sky, i, k + 1, Max(minY, sky[k].y))
  {
    if k == i {
      assert i <= k < k + 1 && sky[k].y == Max(minY, sky[k].y);
    } else if sky[k].y <= minY {
      var m :| i <= m < k && sky[m].y == minY;
      assert i <= m < k + 1;
    } else {
      assert i <= k < k + 1;
    }
  }

  /** The visited width and the waste below minY add up exactly. */
  ghost predicate Counted(sky: seq<Seg>, i: int, k: int, x0: int, x1: int, t: Walk)
    requires 0 <= i <= k < |sky|
  {
    && t.waste == Waste(sky, i, k, x0, x1, t.minY)
    && (k == i ==> t.visited == 0 && t.waste == 0)
    && (k > i && sky[k].x < x1 ==> t.visited == sky[k].x - x0)
  }

  /** The waste is exact unless the walk starts inside a segment of height 0, where the program counts the columns
      left of x0 as well. */
  lemma {:induction false} TallyExact(sky: seq<Seg>, width: int, i: int, k: int, x0: int, x1: int)
    requires WellFormed(sky, width) && 0 <= i <= k < |sky| && i < |sky| - 1 && sky[i].x <= x0 < sky[i + 1].x
    requires x0 < x1 && (k > i ==> sky[k - 1].x < x1)
    requires sky[i].x == x0 || sky[i].y > 0
    ensures Counted(sky, i, k, x0, x1, Tally(sky, i, k, x0, x1))
    decreases k
  {
    hide Area, WellFormed;
    if k > i {
      Increasing(sky, width, k - 1, k);
      if k - 1 > i {
        Increasing(sky, width, k - 2, k - 1);
      }
      TallyExact(sky, width, i, k - 1, x0, x1);
      var t := Tally(sky, i, k - 1, x0, x1);
      if sky[k - 1].y > t.minY {
        RaiseStep(sky, width, i, k - 1, x0, x1, t);
      } else {
        KeepStep(sky, width, i, k - 1, x0, x1, t);
      }
    }
  }

  /** The branch that raises the height (lines 301-311). */
  lemma RaiseStep(sky: seq<Seg>, width: int, i: int, k: int, x0: int, x1: int, t: Walk)
    requires WellFormed(sky, width) && 0 <= i <= k < |sky| - 1 && sky[i].x <= x0 < sky[i + 1].x
    requires x0 < x1 && sky[k].x < x1 && Counted(sky, i, k, x0, x1, t) && sky[k].y > t.minY
    ensures Counted(sky, i, k + 1, x0, x1, Onward(t, sky[k], sky[k + 1].x, x0, x1))
  {
    if k > i {
      WasteRaised(sky, i, k, x0, x1, t.minY, sky[k].y);
    }
    LastShareFree(Share(sky, k, x0, x1), sky[k].y);
  }

  /** The branch that adds waste under the current height (lines 312-319). */
  lemma KeepStep(sky: seq<Seg>, width: int, i: int, k: int, x0: int, x1: int, t: Walk)
    requires WellFormed(sky, width) && 0 <= i <= k < |sky| - 1 && sky[i].x <= x0 < sky[i + 1].x
    requires x0 < x1 && sky[k].x < x1 && Counted(sky, i, k, x0, x1, t) && sky[k].y <= t.minY
    requires k == i ==> t.minY == 0 && (sky[i].x == x0 || sky[i].y > 0)
    ensures Counted(sky, i, k + 1, x0, x1, Onward(t, sky[k], sky[k + 1].x, x0, x1))
  {
    var under := Min(sky[k + 1].x - sky[k].x, x1 - x0 - t.visited);
    assert under == Share(sky, k, x0, x1);
  }

  lemma LastShareFree(share: int, y: int)
    ensures share * (y - y) == 0
  {
  }

  /** For any walk: the waste is at least the lost area and e columns more, and at most as much as if all the columns of
      the first segment that lie left of x0 were lost too. */
  ghost predicate Over(sky: seq<Seg>, i: int, k: int, x0: int, x1: int, t: Walk, e: int)
    requires 0 <= i <= k < |sky|
  {
    && 0 <= e <= x0 - sky[i].x && 0 <= t.minY
    && (k == i ==> t == Walk(0, 0, 0))
    && (k > i && sky[k].x < x1 ==> t.visited == sky[k].x - x0 + e)
    && Area(e, t.minY) <= t.waste - Waste(sky, i, k, x0, x1, t.minY) <= Area(x0 - sky[i].x, t.minY)
  }

  lemma {:induction false} TallyOver(sky: seq<Seg>, width: int, i: int, k: int, x0: int, x1: int) returns (e: int)
    requires WellFormed(sky, width) && 0 <= i <= k < |sky| && i < |sky| - 1 && sky[i].x <= x0 < sky[i + 1].x
    requires x0 < x1 && (k > i ==> sky[k - 1].x < x1)
    ensures Over(sky, i, k, x0, x1, Tally(sky, i, k, x0, x1), e)
    decreases k
  {
    hide Area, WellFormed, Over, Onward;
    if k == i {
      e := 0;
      OverNothing(sky, i, x0, x1);
    } else {
      Increasing(sky, width, k - 1, k);
      if k - 1 > i {
        Increasing(sky, width, k - 2, k - 1);
      }
      e := TallyOver(sky, width, i, k - 1, x0, x1);
      var t := Tally(sky, i, k - 1, x0, x1);
      if sky[k - 1].y > t.minY {
        e := OverRaised(sky, width, i, k - 1, x0, x1, t, e);
      } else {
        e := OverKept(sky, width, i, k - 1, x0, x1, t, e);
      }
    }
  }

  lemma OverNothing(sky: seq<Seg>, i: int, x0: int, x1: int)
    requires 0 <= i < |sky| && sky[i].x <= x0
    ensures Over(sky, i, i, x0, x1, Walk(0, 0, 0), 0)
  {
  }

  lemma OverRaised(sky: seq<Seg>, width: int, i: int, k: int, x0: int, x1: int, t: Walk, e: int) returns (e': int)
    requires WellFormed(sky, width) && 0 <= i <= k < |sky| - 1 && sky[i].x <= x0 < sky[i + 1].x
    requires x0 < x1 && sky[k].x < x1 && Over(sky, i, k, x0, x1, t, e) && sky[k].y > t.minY
    ensures Over(sky, i, k + 1, x0, x1, Onward(t, sky[k], sky[k + 1].x, x0, x1), e')
  {
    hide Area, WellFormed;
    var y, z, d := t.minY, sky[k].y, x0 - sky[i].x;
    Flat(Share(sky, k, x0, x1), z);
    AreaPositive(d, z);
    if k == i {
      e' := 0;
      AreaNone(z);
      AreaNone(z - y);
    } else {
      e' := e;
      ColumnLeft(sky, width, i, k, x0);
      WasteRaised(sky, i, k, x0, x1, y, z);
      AreaIs(sky[k].x - x0, z - y);
      AreaSplit(sky[k].x - x0, e, z - y);
      AreaUp(d, y, z, e);
      AreaAdds(e, y, z);
    }
    var t' := Onward(t, sky[k], sky[k + 1].x, x0, x1);
    assert Waste(sky, i, k + 1, x0, x1, z) == Waste(sky, i, k, x0, x1, z);
    assert Area(e', t'.minY) <= t'.waste - Waste(sky, i, k + 1, x0, x1, t'.minY);
  }

  lemma ColumnLeft(sky: seq<Seg>, width: int, i: int, k: int, x0: int)
    requires WellFormed(sky, width) && 0 <= i < k < |sky| && x0 < sky[i + 1].x
    ensures x0 < sky[k].x && sky[|sky| - 1].x == width
  {
    hide WellFormed;
    Ends(sky, width);
    if i + 1 < k {
      Increasing(sky, width, i + 1, k);
    }
  }

  lemma AreaIs(a: int, y: int)
    ensures Area(a, y) == a * y
  {
  }

  lemma AreaAdds(a: int, y: int, z: int)
    ensures Area(a, z) == Area(a, y) + Area(a, z - y)
  {
    assert a * z == a * y + a * (z - y);
  }

  lemma Flat(share: int, y: int)
    ensures Area(share, y - y) == 0
  {
  }

  lemma OverKept(sky: seq<Seg>, width: int, i: int, k: int, x0: int, x1: int, t: Walk, e: int) returns (e': int)
    requires WellFormed(sky, width) && 0 <= i <= k < |sky| - 1 && sky[i].x <= x0 < sky[i + 1].x
    requires x0 < x1 && sky[k].x < x1 && Over(sky, i, k, x0, x1, t, e) && sky[k].y <= t.minY
    ensures Over(sky, i, k + 1, x0, x1, Onward(t, sky[k], sky[k + 1].x, x0, x1), e')
  {
    hide Area, WellFormed;
    NoneBelowFloor(sky, width);
    Increasing(sky, width, k, k + 1);
    var y, s, d := t.minY, sky[k].y, x0 - sky[i].x;
    var under, share := Min(sky[k + 1].x - sky[k].x, x1 - x0 - t.visited), Share(sky, k, x0, x1);
    if k == i {
      e' := if sky[k + 1].x < x1 then under - share else 0;
      Flat(under, 0);
      Flat(share, 0);
      AreaFloor(e');
      AreaFloor(d);
    } else {
      ColumnLeft(sky, width, i, k, x0);
      e' := under + e - share;
      AreaSplit(share, under - share, y - s);
      AreaShrinks(e, e', y, s);
    }
  }

  lemma AreaFloor(a: int)
    ensures Area(a, 0) == 0
  {
  }

  lemma AreaShrinks(e: int, e': int, y: int, s: int)
    requires 0 <= e' <= e && 0 <= s <= y
    ensures Area(e' - e, y - s) <= 0 && Area(e, y) + Area(e' - e, y - s) >= Area(e', y)
  {
    var g := e - e';
    assert Area(e' - e, y - s) == -(g * (y - s));
    assert e * y == e' * y + g * y;
    assert g * (y - s) == g * y - g * s;
    ProductSign(g, s);
    ProductSign(g, y - s);
  }

  /** By how much the counted waste exceeds the lost area: by nothing for a walk that starts at x0 or above the floor,
      and by at most the columns left of x0, up to the resting height, for one that starts inside a segment of height 0. */
  lemma WasteOver(sky: seq<Seg>, width: int, i: int, k: int, x0: int, x1: int)
    requires WellFormed(sky, width) && 0 <= i <= k < |sky| && i < |sky| - 1 && sky[i].x <= x0 < sky[i + 1].x
    requires x0 < x1 && (k > i ==> sky[k - 1].x < x1)
    ensures var t := Tally(sky, i, k, x0, x1);
      var over := t.waste - Waste(sky, i, k, x0, x1, t.minY);
      && 0 <= over <= Area(x0 - sky[i].x, t.minY)
      && (sky[i].x == x0 || sky[i].y > 0 ==> over == 0)
  {
    hide Area, WellFormed, Tally;
    var e := TallyOver(sky, width, i, k, x0, x1);
    AreaPositive(e, Tally(sky, i, k, x0, x1).minY);
    if sky[i].x == x0 || sky[i].y > 0 {
      TallyExact(sky, width, i, k, x0, x1);
    }
  }

  /** However the walk goes, what is visited lies in the segments walked, and the waste is at most their area. */
  ghost predicate Bounded(t: Walk, span: int) {
    0 <= t.visited <= span && 0 <= t.minY && t.waste <= Area(span, t.minY) && t.waste >= 0 - Area(span - t.visited, t.minY)
  }

  lemma {:induction false} TallyBounded(sky: seq<Seg>, width: int, i: int, k: int, x0: int, x1: int)
    requires WellFormed(sky, width) && 0 <= i <= k < |sky| && i < |sky| - 1 && sky[i].x <= x0 < sky[i + 1].x
    requires x0 < x1 && (k > i ==> sky[k - 1].x < x1)
    ensures Bounded(Tally(sky, i, k, x0, x1), sky[k].x - sky[i].x)
    decreases k
  {
    hide Area, WellFormed, Onward, Bounded;
    if k > i {
      Increasing(sky, width, k - 1, k);
      if k - 1 > i {
        Increasing(sky, width, k - 2, k - 1);
        Increasing(sky, width, i, k - 1);
        if i + 1 < k - 1 {
          Increasing(sky, width, i + 1, k - 1);
        }
      }
      TallyBounded(sky, width, i, k - 1, x0, x1);
      OnwardBounded(Tally(sky, i, k - 1, x0, x1), sky[k - 1], sky[k].x, x0, x1, sky[k - 1].x - sky[i].x);
    } else {
      NothingWalked();
    }
  }

  lemma NothingWalked()
    ensures Bounded(Walk(0, 0, 0), 0)
  {
  }

  lemma OnwardBounded(t: Walk, s: Seg, end: int, x0: int, x1: int, span: int)
    requires Bounded(t, span) && 0 <= span && 0 <= s.y && s.x < end && x0 < x1 && s.x < x1 && x0 < end
    ensures Bounded(Onward(t, s, end, x0, x1), span + end - s.x)
  {
    hide Area;
    var more := end - s.x;
    if s.y > t.minY {
      var visited := t.visited + end - Max(s.x, x0);
      AreaUp(span, t.minY, s.y, t.visited);
      AreaWider(span, span + more, s.y);
      AreaUp(span - t.visited, t.minY, s.y, 0);
      AreaNone(s.y - t.minY);
      AreaWider(span - t.visited, span + more - visited, s.y);
      AreaPositive(t.visited, s.y - t.minY);
    } else {
      var under := Min(more, x1 - x0 - t.visited);
      AreaSplit(span, more, t.minY);
      AreaSplit(span - t.visited, more - under, t.minY);
      AreaPositive(more - under, t.minY);
      AreaLess(under, more, t.minY - s.y, t.minY);
    }
  }

  lemma AreaUp(a: int, y: int, z: int, v: int)
    requires 0 <= v <= a && y <= z
    ensures Area(a, y) + Area(v, z - y) <= Area(a, z)
  {
    Grows(a, v, z - y);
    assert a * z == a * y + a * (z - y);
  }

  lemma AreaWider(a: int, b: int, y: int)
    requires a <= b && 0 <= y
    ensures Area(a, y) <= Area(b, y)
  {
    Grows(b, a, y);
  }

  lemma AreaNone(y: int)
    ensures Area(0, y) == 0
  {
  }

  lemma AreaPositive(a: int, y: int)
    requires 0 <= a && 0 <= y
    ensures Area(a, y) >= 0
  {
    ProductSign(a, y);
  }

  lemma AreaSplit(a: int, b: int, y: int)
    ensures Area(a + b, y) == Area(a, y) + Area(b, y)
  {
    Distribute(a, b, y);
  }

  /** What is counted under a lower segment, which is negative where more than the width has been visited already. */
  lemma AreaLess(u: int, more: int, y: int, top: int)
    requires u <= more && 0 <= more && 0 <= y <= top
    ensures Area(u, y) <= Area(more, top) && Area(u, y) >= 0 - Area(more - u, top)
  {
    Grows(more, u, y);
    Grows(top, y, more);
    ProductSign(more, y);
    Grows(top, y, more - u);
    assert (more - u) * y == more * y - u * y;
  }

  /** The waste stays within the area of the bin, so that it fits 32 bits in every bin below 2^31. */
  lemma WasteBound(sky: seq<Seg>, width: int, height: int, i: int, k: int, x0: int, x1: int)
    requires WellFormed(sky, width) && 0 <= i <= k < |sky| && i < |sky| - 1 && sky[i].x <= x0 < sky[i + 1].x
    requires x0 < x1 && (k > i ==> sky[k - 1].x < x1) && forall m :: 0 <= m < |sky| - 1 ==> sky[m].y <= height
    requires 0 <= height
    ensures 0 - Area(width, height) <= Tally(sky, i, k, x0, x1).waste <= Area(width, height)
  {
    hide Area, Tally;
    TallyBounded(sky, width, i, k, x0, x1);
    TallyHeight(sky, i, k, x0, x1);
    var t, span := Tally(sky, i, k, x0, x1), sky[k].x - sky[i].x;
    Column(sky, width, i);
    Column(sky, width, k);
    NotHigher(sky, i, k, t.minY, height);
    AreaWider(span, width, t.minY);
    AreaWider(span - t.visited, width, t.minY);
    AreaHigher(width, t.minY, height);
  }

  lemma NotHigher(sky: seq<Seg>, i: int, k: int, y: int, height: int)
    requires 0 <= i <= k < |sky| && Walked(sky, i, k, y) && 0 <= height && forall m :: 0 <= m < |sky| - 1 ==> sky[m].y <= height
    ensures y <= height
  {
  }

  lemma AreaHigher(a: int, y: int, z: int)
    requires 0 <= a && y <= z
    ensures Area(a, y) <= Area(a, z)
  {
    AreaUp(a, y, z, 0);
    AreaNone(z - y);
  }

  /** The bound is almost reached: beside one box of width 1 and the height of the bin. */
  lemma WasteReaches(width: int, height: int, sentinel: int)
    requires 2 <= width && 0 < height && 0 <= sentinel
    ensures var sky := [Seg(0, height), Seg(1, 0), Seg(width, sentinel)];
      WellFormed(sky, width) && Tally(sky, 0, 2, 0, width).waste == Area(width - 1, height)
  {
    var sky := [Seg(0, height), Seg(1, 0), Seg(width, sentinel)];
    assert Tally(sky, 0, 0, 0, width) == Walk(0, 0, 0);
    assert Area(0, height) == 0;
    assert Tally(sky, 0, 1, 0, width) == Walk(height, 1, 0);
  }

  lemma WalkEnd(sky: seq<Seg>, width: int, i: int, k: int, x0: int, x1: int, minY: int)
    requires WellFormed(sky, width) && 0 <= i < k < |sky| && sky[i].x <= x0 < sky[i + 1].x
    requires x0 < x1 && sky[k - 1].x < x1 <= sky[k].x && Walked(sky, i, k, minY)
    ensures RestingHeight(sky, x0, x1, minY)
    ensures exists m :: i <= m < k && sky[m].y == minY
  {
    var high :| i <= high < k && sky[high].y == minY;
    assert Meets(sky, high, x0, x1);
    forall m | 0 <= m < |sky| - 1 && Meets(sky, m, x0, x1)
      ensures sky[m].y <= minY
    {
      assert i <= m < k;
    }
  }

  lemma OnlyHeight(sky: seq<Seg>, x0: int, x1: int, y: int)
    requires RestingHeight(sky, x0, x1, y)
    ensures forall z :: RestingHeight(sky, x0, x1, z) ==> z == y
  {
  }

  // --------------------------------------------------------------------------
  // Grades
  // --------------------------------------------------------------------------

  /** The last segment up to n that starts at or before x. */
  ghost function Start(sky: seq<Seg>, n: nat, x: int): (i: nat)
    requires n < |sky|
    ensures i <= n
  {
    if n == 0 || sky[n].x <= x then n else Start(sky, n - 1, x)
  }

  /** The first segment from k on that starts at or behind x1. */
  ghost function Reach(sky: seq<Seg>, k: nat, x1: int): (r: nat)
    requires k < |sky|
    ensures k <= r < |sky|
    decreases |sky| - k
  {
    if k + 1 < |sky| && sky[k].x < x1 then Reach(sky, k + 1, x1) else k
  }

  /** The waste the program counts for a box over x0 <= x < x0 + w. */
  ghost function WasteUnder(sky: seq<Seg>, x0: int, w: int): int {
    if |sky| < 2 then 0
    else
      var i := Start(sky, |sky| - 2, x0);
      Tally(sky, i, Reach(sky, i, x0 + w), x0, x0 + w).waste
  }

  lemma {:induction false} StartIs(sky: seq<Seg>, width: int, n: nat, x: int, i: nat)
    requires WellFormed(sky, width) && i <= n < |sky| - 1 && sky[i].x <= x < sky[i + 1].x
    ensures Start(sky, n, x) == i
    decreases n
  {
    if n > i {
      StartIs(sky, width, n - 1, x, i);
    }
  }

  lemma {:induction false} ReachIs(sky: seq<Seg>, width: int, i: nat, x1: int, k: nat)
    requires WellFormed(sky, width) && i <= k < |sky| && x1 <= sky[k].x && (k > i ==> sky[k - 1].x < x1)
    ensures Reach(sky, i, x1) == k
    decreases k - i
  {
    if i < k {
      ReachIs(sky, width, i + 1, x1, k);
    }
  }

  lemma WasteIs(sky: seq<Seg>, width: int, i: nat, k: nat, x0: int, w: int)
    requires WellFormed(sky, width) && i < k < |sky| && sky[i].x <= x0 < sky[i + 1].x
    requires sky[k - 1].x < x0 + w <= sky[k].x
    ensures WasteUnder(sky, x0, w) == Tally(sky, i, k, x0, x0 + w).waste
  {
    StartIs(sky, width, |sky| - 2, x0, i);
    ReachIs(sky, width, i, x0 + w, k);
  }

  /** Best-fit wants the lowest position, of these the one with the least waste, and of these the leftmost. */
  datatype Grade = Grade(y: int, waste: int, x: int)

  ghost function GradeAt(sky: seq<Seg>, x: int, w: int, y: int): Grade {
    Grade(y, WasteUnder(sky, x, w), x)
  }

  /** As good as or better; bottom-left does not look at the waste. */
  predicate Better(bestFit: bool, a: Grade, b: Grade) {
    || a.y < b.y
    || (a.y == b.y && bestFit && a.waste < b.waste)
    || (a.y == b.y && (bestFit ==> a.waste == b.waste) && a.x <= b.x)
  }

  /** The test for taking a right candidate (lines 410-411). */
  lemma Choice(g: Grade, c: Grade)
    ensures if c.y <= g.y && (c.y < g.y || c.waste < g.waste || (c.waste == g.waste && c.x < g.x))
            then Better(true, c, g) else Better(true, g, c)
    ensures Better(true, g, g) && Better(true, c, c)
  {
  }

  lemma BetterStill(a: Grade, b: Grade, c: Grade)
    requires Better(true, a, b) && Better(true, b, c)
    ensures Better(true, a, c)
  {
  }

  // --------------------------------------------------------------------------
  // Candidates
  // --------------------------------------------------------------------------

  /** A box of the aligned width w, left-aligned with segment j, rests at z and the heuristic may use it. */
  ghost predicate LeftCandidate(sky: seq<Seg>, width: int, height: int, bestFit: bool, w: int, h: int, j: int, z: int) {
    && 0 <= j < |sky| - 1
    && sky[j].x + w <= width
    && RestingHeight(sky, sky[j].x, sky[j].x + w, z)
    && (bestFit ==> z + h <= height)
  }

  /** A box right-aligned with the start of segment t; only the best-fit heuristic tries these. */
  ghost predicate RightCandidate(sky: seq<Seg>, width: int, height: int, w: int, h: int, t: int, z: int) {
    && 0 <= t < |sky|
    && w <= sky[t].x
    && RestingHeight(sky, sky[t].x - w, sky[t].x, z)
    && z + h < height
  }

  /** A box on segment i is left-aligned with it, or right-aligned with some segment and below the top edge. */
  ghost predicate OnEdge(sky: seq<Seg>, height: int, w: int, h: int, i: int, x: int, y: int)
    requires 0 <= i < |sky|
  {
    x == sky[i].x || (y + h < height && exists t :: 0 <= t < |sky| && sky[t].x == x + w)
  }

  lemma RightEdge(sky: seq<Seg>, height: int, w: int, h: int, i: int, y: int, t: int)
    requires 0 <= i < |sky| && 0 <= t < |sky| && y + h < height
    ensures OnEdge(sky, height, w, h, i, sky[t].x - w, y)
  {
    assert sky[t].x == sky[t].x - w + w;
  }

  /** A box of width w at (x, y) starts on segment i, stays inside the bin and rests on the skyline. */
  ghost predicate PositionAt(sky: seq<Seg>, width: int, height: int, w: int, h: int, i: int, x: int, y: int) {
    && 0 <= i < |sky| - 1
    && sky[i].x <= x < sky[i + 1].x
    && x + w <= width
    && RestingHeight(sky, x, x + w, y)
    && y + h <= height
    && OnEdge(sky, height, w, h, i, x, y)
  }

  /** No left candidate before segment n is better than g. */
  ghost predicate BestLeft(sky: seq<Seg>, width: int, height: int, bestFit: bool, w: int, h: int, n: int, g: Grade) {
    forall j, z :: j < n && LeftCandidate(sky, width, height, bestFit, w, h, j, z)
      ==> Better(bestFit, g, GradeAt(sky, sky[j].x, w, z))
  }

  /** No right candidate before segment n is better than g. */
  ghost predicate BestRight(sky: seq<Seg>, width: int, height: int, w: int, h: int, n: int, g: Grade) {
    forall t, z :: t < n && RightCandidate(sky, width, height, w, h, t, z)
      ==> Better(true, g, GradeAt(sky, sky[t].x - w, w, z))
  }

  lemma BestLeftStart(sky: seq<Seg>, width: int, height: int, bestFit: bool, w: int, h: int, g: Grade)
    ensures BestLeft(sky, width, height, bestFit, w, h, 0, g)
  {
  }

  /** Segments that start too far right are no candidates. */
  lemma BestLeftEnd(sky: seq<Seg>, width: int, height: int, bestFit: bool, w: int, h: int, n: nat, g: Grade)
    requires WellFormed(sky, width) && n < |sky| && sky[n].x + w > width && BestLeft(sky, width, height, bestFit, w, h, n, g)
    ensures BestLeft(sky, width, height, bestFit, w, h, |sky|, g)
    ensures forall j, z :: j >= n ==> !LeftCandidate(sky, width, height, bestFit, w, h, j, z)
  {
    hide RestingHeight, WasteUnder;
  }

  lemma NoLeft(sky: seq<Seg>, width: int, height: int, bestFit: bool, w: int, h: int, g: Grade)
    requires forall j, z :: !LeftCandidate(sky, width, height, bestFit, w, h, j, z)
    ensures BestLeft(sky, width, height, bestFit, w, h, |sky|, g)
  {
  }

  lemma BestLeftStep(sky: seq<Seg>, width: int, height: int, bestFit: bool, w: int, h: int, n: int, y: int, g: Grade, g': Grade)
    requires 0 <= n < |sky| - 1 && RestingHeight(sky, sky[n].x, sky[n].x + w, y)
    requires BestLeft(sky, width, height, bestFit, w, h, n, g) && Better(bestFit, g', g)
    requires (bestFit ==> y + h <= height) ==> Better(bestFit, g', GradeAt(sky, sky[n].x, w, y))
    ensures BestLeft(sky, width, height, bestFit, w, h, n + 1, g')
  {
    hide WasteUnder;
    OnlyHeight(sky, sky[n].x, sky[n].x + w, y);
  }

  lemma BestRightStep(sky: seq<Seg>, width: int, height: int, w: int, h: int, n: int, y: int, g: Grade, g': Grade)
    requires 0 <= n < |sky| && w <= sky[n].x && RestingHeight(sky, sky[n].x - w, sky[n].x, y)
    requires BestRight(sky, width, height, w, h, n, g) && Better(true, g', g)
    requires y + h < height ==> Better(true, g', GradeAt(sky, sky[n].x - w, w, y))
    ensures BestRight(sky, width, height, w, h, n + 1, g')
  {
    hide WasteUnder;
    OnlyHeight(sky, sky[n].x - w, sky[n].x, y);
  }

  lemma BestRightStart(sky: seq<Seg>, width: int, height: int, w: int, h: int, n: int, g: Grade)
    requires n <= |sky| && forall m :: 0 <= m < n ==> sky[m].x < w
    ensures BestRight(sky, width, height, w, h, n, g)
  {
  }

  /** Both scans of the best-fit search put together. */
  lemma AfterBothScans(sky: seq<Seg>, width: int, height: int, w: int, h: int, g: Grade, g': Grade)
    requires BestLeft(sky, width, height, true, w, h, |sky|, g) && Better(true, g', g)
    requires BestRight(sky, width, height, w, h, |sky|, g')
    ensures BestLeft(sky, width, height, true, w, h, |sky|, g')
    ensures height <= 0xffff && h > 0 && g'.y == 0x4000_0000 ==> NoCandidate(sky, width, height, true, w, h)
  {
    hide WasteUnder, RestingHeight;
  }

  ghost predicate NoCandidate(sky: seq<Seg>, width: int, height: int, bestFit: bool, w: int, h: int) {
    && (forall j, z :: !LeftCandidate(sky, width, height, bestFit, w, h, j, z))
    && (bestFit ==> forall t, z :: !RightCandidate(sky, width, height, w, h, t, z))
  }

  /** The chosen position: bottom-left takes the lowest left-aligned position, and of these the leftmost; best-fit
      takes, among all candidates that fit below the top edge, the lowest, then least wasteful, then leftmost. */
  ghost predicate BestPosition(sky: seq<Seg>, width: int, height: int, bestFit: bool, w: int, h: int, i: int, x: int, y: int) {
    && 0 <= i < |sky| - 1
    && sky[i].x <= x < sky[i + 1].x
    && x + w <= width
    && RestingHeight(sky, x, x + w, y)
    && BestLeft(sky, width, height, bestFit, w, h, |sky|, GradeAt(sky, x, w, y))
    && (if bestFit then
          && y + h <= height && OnEdge(sky, height, w, h, i, x, y)
          && BestRight(sky, width, height, w, h, |sky|, GradeAt(sky, x, w, y))
        else x == sky[i].x)
  }

  /** The chosen position is left-aligned with a segment, or for best-fit right-aligned with one and below the top edge,
      and no position of either kind that fits is lower, at the same height less wasteful, or at the same waste further
      left; bottom-left looks at left-aligned positions only, neither at their waste nor at the top edge. */
  lemma BestMeaning(sky: seq<Seg>, width: int, height: int, bestFit: bool, w: int, h: int, i: int, x: int, y: int,
                    x': int, z: int)
    requires BestPosition(sky, width, height, bestFit, w, h, i, x, y)
    requires 0 <= x' && x' + w <= width && RestingHeight(sky, x', x' + w, z)
    requires
      || ((bestFit ==> z + h <= height) && exists j :: 0 <= j < |sky| - 1 && sky[j].x == x')
      || (bestFit && z + h < height && exists t :: 0 <= t < |sky| && sky[t].x == x' + w)
    ensures
      || y < z
      || (y == z && bestFit && WasteUnder(sky, x, w) < WasteUnder(sky, x', w))
      || (y == z && (bestFit ==> WasteUnder(sky, x, w) == WasteUnder(sky, x', w)) && x <= x')
    ensures x == sky[i].x || (bestFit && y + h < height && exists t :: 0 <= t < |sky| && sky[t].x == x + w)
  {
    hide RestingHeight, WasteUnder;
    if (bestFit ==> z + h <= height) && exists j :: 0 <= j < |sky| - 1 && sky[j].x == x' {
      var j :| 0 <= j < |sky| - 1 && sky[j].x == x';
      assert LeftCandidate(sky, width, height, bestFit, w, h, j, z);
    } else {
      var t :| 0 <= t < |sky| && sky[t].x == x' + w;
      assert sky[t].x - w == x';
      assert RightCandidate(sky, width, height, w, h, t, z);
    }
  }

  // --------------------------------------------------------------------------
  // Room
  // --------------------------------------------------------------------------

  /** At column x, inside the bin, a box of width w comes to rest at z. */
  ghost predicate RestsAt(sky: seq<Seg>, width: int, w: int, x: int, z: int) {
    0 <= x && x + w <= width && RestingHeight(sky, x, x + w, z)
  }

  /** A box of width w and height h fits nowhere above the skyline. */
  ghost predicate NoRoom(sky: seq<Seg>, width: int, height: int, w: int, h: int) {
    forall x, z :: RestsAt(sky, width, w, x, z) ==> z + h > height
  }

  /** A box comes to rest wherever it is inside the bin. */
  lemma ComesToRest(sky: seq<Seg>, width: int, i: int, x0: int, x1: int) returns (y: int)
    requires WellFormed(sky, width) && 0 <= i < |sky| - 1 && sky[i].x <= x0 < sky[i + 1].x && x0 < x1 <= width
    ensures RestingHeight(sky, x0, x1, y)
  {
    var k := ReachMeaning(sky, width, i, x1);
    y := Tally(sky, i, k, x0, x1).minY;
    TallyHeight(sky, i, k, x0, x1);
    WalkEnd(sky, width, i, k, x0, x1, y);
  }

  lemma {:induction false} ReachMeaning(sky: seq<Seg>, width: int, i: nat, x1: int) returns (k: nat)
    requires WellFormed(sky, width) && i < |sky| - 1 && sky[i].x < x1 <= width
    ensures i < k < |sky| && sky[k - 1].x < x1 <= sky[k].x
    decreases |sky| - i
  {
    if sky[i + 1].x < x1 {
      k := ReachMeaning(sky, width, i + 1, x1);
    } else {
      k := i + 1;
    }
  }

  /** Moving a box left to the start of the segment its corner is on never raises it. */
  lemma SlideLeft(sky: seq<Seg>, width: int, i: int, x: int, w: int, y: int) returns (z: int)
    requires WellFormed(sky, width) && 0 <= i < |sky| - 1 && sky[i].x <= x < sky[i + 1].x && x + w <= width && w > 0
    requires RestingHeight(sky, x, x + w, y)
    ensures z <= y && RestingHeight(sky, sky[i].x, sky[i].x + w, z)
  {
    hide WellFormed, RestingHeight;
    z := ComesToRest(sky, width, i, sky[i].x, sky[i].x + w);
    var k := Attained(sky, sky[i].x, sky[i].x + w, z);
    if k < i {
      Increasing(sky, width, k, i);
    } else if k > i {
      Increasing(sky, width, i, k);
      if k > i + 1 {
        Increasing(sky, width, i + 1, k);
      }
      Increasing(sky, width, k, k + 1);
    }
    if k < i && k + 1 < i {
      Increasing(sky, width, k + 1, i);
    }
    NotBelow(sky, x, x + w, y, k);
  }

  /** Looking at left-aligned positions is enough to know whether there is room. */
  lemma LeftEnough(sky: seq<Seg>, width: int, height: int, w: int, h: int)
    requires WellFormed(sky, width) && w > 0
    requires forall j, z :: LeftCandidate(sky, width, height, false, w, h, j, z) ==> z + h > height
    ensures NoRoom(sky, width, height, w, h)
  {
    hide RestingHeight;
    forall x, y | RestsAt(sky, width, w, x, y)
      ensures y + h > height
    {
      var i := SegmentAt(sky, width, x, |sky| - 1);
      var z := SlideLeft(sky, width, i, x, w, y);
      assert LeftCandidate(sky, width, height, false, w, h, i, z);
    }
  }

  lemma NothingFound(sky: seq<Seg>, width: int, height: int, bestFit: bool, w: int, h: int)
    requires WellFormed(sky, width) && w > 0 && NoCandidate(sky, width, height, bestFit, w, h)
    ensures NoRoom(sky, width, height, w, h)
  {
    forall j, z | LeftCandidate(sky, width, height, false, w, h, j, z)
      ensures z + h > height
    {
      assert !LeftCandidate(sky, width, height, bestFit, w, h, j, z);
    }
    LeftEnough(sky, width, height, w, h);
  }

  /** The best position lies too high exactly when there is no room. */
  lemma BestTooHigh(sky: seq<Seg>, width: int, height: int, bestFit: bool, w: int, h: int, i: int, x: int, y: int)
    requires WellFormed(sky, width) && w > 0 && BestPosition(sky, width, height, bestFit, w, h, i, x, y)
    ensures y + h > height <==> NoRoom(sky, width, height, w, h)
  {
    hide RestingHeight, WasteUnder, BestRight;
    Inner(sky, width, i, x);
    assert RestsAt(sky, width, w, x, y);
    if y + h > height {
      forall j, z | LeftCandidate(sky, width, height, false, w, h, j, z)
        ensures z + h > height
      {
        assert LeftCandidate(sky, width, height, bestFit, w, h, j, z);
      }
      LeftEnough(sky, width, height, w, h);
    }
  }

  lemma Inner(sky: seq<Seg>, width: int, i: int, x: int)
    requires WellFormed(sky, width) && 0 <= i < |sky| && sky[i].x <= x
    ensures 0 <= x
  {
  }

  /** The rectangle itself, no wider than the aligned width that was looked up, rests at the found height. */
  lemma PositionRests(sky: seq<Seg>, width: int, height: int, bestFit: bool, w: int, h: int, i: int, b: Box)
    requires WellFormed(sky, width) && BestPosition(sky, width, height, bestFit, w, h, i, b.x, b.y)
    requires 0 < b.w <= w && b.h == h > 0 && b.y + h <= height
    ensures 0 <= i < |sky| - 1 && 0 <= b.x && sky[i].x <= b.x < sky[i + 1].x && b.x + w <= width
    ensures Inside(b, width, height) && Rests(b, sky)
  {
    hide BestLeft, BestRight;
    forall k | 0 <= k < |sky| - 1 && Meets(sky, k, b.x, b.x + b.w)
      ensures sky[k].y <= b.y
    {
      assert Meets(sky, k, b.x, b.x + w);
    }
  }

  /** No column of the skyline is lower than before. */
  ghost predicate Raised(sky: seq<Seg>, sky': seq<Seg>) {
    forall k, j :: 0 <= k < |sky| - 1 && 0 <= j < |sky'| - 1 && Meets(sky, k, sky'[j].x, sky'[j + 1].x)
      ==> sky[k].y <= sky'[j].y
  }

  lemma PlaceRaises(sky: seq<Seg>, sky': seq<Seg>, width: int, height: int, i: nat, b: Box, n: nat)
    requires WellFormed(sky, width) && i < |sky| - 1 && sky[i].x <= b.x < sky[i + 1].x
    requires Inside(b, width, height) && Rests(b, sky) && Covers(sky, sky', width, i, b.x, b.w, b.y + b.h, n)
    ensures Raised(sky, sky')
  {
    forall k, j | 0 <= k < |sky| - 1 && 0 <= j < |sky'| - 1 && Meets(sky, k, sky'[j].x, sky'[j + 1].x)
      ensures sky[k].y <= sky'[j].y
    {
      var c := Max(sky[k].x, sky'[j].x);
      if j == n {
        if c >= b.x + b.w {
          SegmentUnique(sky, width, c, k, i);
        }
        assert Meets(sky, k, b.x, b.x + b.w);
      } else {
        assert PartOf(sky, sky', j);
        var m :| 0 <= m < |sky| - 1
          && sky[m].x <= sky'[j].x && sky'[j + 1].x <= sky[m + 1].x && sky'[j].y == sky[m].y;
        SegmentUnique(sky, width, c, k, m);
      }
    }
  }

  /** Where there was no room there is none later. */
  lemma NoRoomKept(sky: seq<Seg>, sky': seq<Seg>, width: int, height: int, w: int, h: int)
    requires WellFormed(sky, width) && WellFormed(sky', width) && Raised(sky, sky') && w > 0
    requires NoRoom(sky, width, height, w, h)
    ensures NoRoom(sky', width, height, w, h)
  {
    hide RestingHeight, Raised;
    forall x, y | RestsAt(sky', width, w, x, y)
      ensures y + h > height
    {
      var i := SegmentAt(sky, width, x, |sky| - 1);
      var z := ComesToRest(sky, width, i, x, x + w);
      assert RestsAt(sky, width, w, x, z);
      HigherRest(sky, sky', width, x, x + w, z, y);
    }
  }

  lemma HigherRest(sky: seq<Seg>, sky': seq<Seg>, width: int, x0: int, x1: int, z: int, y: int)
    requires WellFormed(sky, width) && WellFormed(sky', width) && Raised(sky, sky') && 0 <= x0 < x1 <= width
    requires RestingHeight(sky, x0, x1, z) && RestingHeight(sky', x0, x1, y)
    ensures z <= y
  {
    hide WellFormed, RestingHeight;
    var k := Attained(sky, x0, x1, z);
    var c := Max(x0, sky[k].x);
    Ends(sky', width);
    Increasing(sky, width, k, k + 1);
    var j := SegmentAt(sky', width, c, |sky'| - 1);
    assert Meets(sky, k, sky'[j].x, sky'[j + 1].x);
    NotBelow(sky', x0, x1, y, j);
  }

  lemma NothingRaised(sky: seq<Seg>, width: int)
    requires WellFormed(sky, width)
    ensures Raised(sky, sky)
  {
    forall k, j | 0 <= k < |sky| - 1 && 0 <= j < |sky| - 1 && Meets(sky, k, sky[j].x, sky[j + 1].x)
      ensures sky[k].y <= sky[j].y
    {
      SegmentUnique(sky, width, Max(sky[k].x, sky[j].x), k, j);
    }
  }
}
