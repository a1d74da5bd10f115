/** The geometry behind the packer: a skyline of segments over the bin, and rectangles resting below it. */
module Skyline {
  import opened Words

  /** A skyline segment starts at `x` and ends where the next one starts; space below `y` is taken. */
  datatype Seg = Seg(x: int, y: int)

  /** A placed rectangle. */
  datatype Box = Box(x: int, y: int, w: int, h: int)

  /** Strictly increasing from 0 to the sentinel at `width`, and nowhere below the floor. */
  ghost predicate WellFormed(sky: seq<Seg>, width: int) {
    && |sky| >= 2
    && sky[0].x == 0
    && sky[|sky| - 1].x == width
    && (forall i, j :: 0 <= i < j < |sky| ==> sky[i].x < sky[j].x)
    && (forall i :: 0 <= i < |sky| ==> 0 <= sky[i].y)
  }

  lemma Column(sky: seq<Seg>, width: int, k: int)
    requires WellFormed(sky, width) && 0 <= k < |sky|
    ensures 0 <= sky[k].x <= width && (k + 1 < |sky| ==> sky[k].x < sky[k + 1].x)
  {
  }

  lemma Increasing(sky: seq<Seg>, width: int, a: int, b: int)
    requires WellFormed(sky, width) && 0 <= a < b < |sky|
    ensures sky[a].x < sky[b].x && 0 <= sky[a].y
  {
  }

  lemma Ends(sky: seq<Seg>, width: int)
    requires WellFormed(sky, width)
    ensures |sky| >= 2 && sky[0].x == 0 && sky[|sky| - 1].x == width
  {
  }

  lemma NoneBelowFloor(sky: seq<Seg>, width: int)
    requires WellFormed(sky, width)
    ensures forall k :: 0 <= k < |sky| ==> 0 <= sky[k].y
  {
  }

  /** Segment k and the columns x0 <= x < x1 have a column in common. */
  ghost predicate Meets(sky: seq<Seg>, k: int, x0: int, x1: int)
    requires 0 <= k < |sky| - 1
  {
    sky[k].x < x1 && x0 < sky[k + 1].x
  }

  /** `y` is the height a box over the columns x0 <= x < x1 comes to rest at. */
  ghost predicate RestingHeight(sky: seq<Seg>, x0: int, x1: int, y: int) {
    && (forall k :: 0 <= k < |sky| - 1 && Meets(sky, k, x0, x1) ==> sky[k].y <= y)
    && exists k :: 0 <= k < |sky| - 1 && Meets(sky, k, x0, x1) && sky[k].y == y
  }

  lemma RestingHeightUnique(sky: seq<Seg>, x0: int, x1: int, y: int, z: int)
    requires RestingHeight(sky, x0, x1, y) && RestingHeight(sky, x0, x1, z)
    ensures y == z
  {
  }

  lemma Attained(sky: seq<Seg>, x0: int, x1: int, y: int) returns (k: int)
    requires RestingHeight(sky, x0, x1, y)
    ensures 0 <= k < |sky| - 1 && sky[k].x < x1 && x0 < sky[k + 1].x && sky[k].y == y
  {
    k :| 0 <= k < |sky| - 1 && Meets(sky, k, x0, x1) && sky[k].y == y;
  }

  lemma NotBelow(sky: seq<Seg>, x0: int, x1: int, y: int, k: int)
    requires RestingHeight(sky, x0, x1, y) && 0 <= k < |sky| - 1 && sky[k].x < x1 && x0 < sky[k + 1].x
    ensures sky[k].y <= y
  {
    assert Meets(sky, k, x0, x1);
  }

  /** The part of segment k inside x0 <= x < x1. */
  ghost function Share(sky: seq<Seg>, k: int, x0: int, x1: int): int
    requires 0 <= k < |sky| - 1
  {
    Min(x1, sky[k + 1].x) - Max(x0, sky[k].x)
  }

  function Area(w: int, h: int): int { w * h }

  /** The area lost under height y over segments i..k, within the columns x0 <= x < x1. */
  ghost function Waste(sky: seq<Seg>, i: int, k: int, x0: int, x1: int, y: int): int
    requires 0 <= i <= k < |sky|
    decreases k
  {
    if k == i then 0
    else Waste(sky, i, k - 1, x0, x1, y) + Area(Share(sky, k - 1, x0, x1), y - sky[k - 1].y)
  }

  /** Raising the resting height costs the same over every visited column. */
  lemma {:induction false} WasteRaised(sky: seq<Seg>, i: int, k: int, x0: int, x1: int, y: int, z: int)
    requires 0 <= i < k < |sky| && WellFormed(sky, sky[|sky| - 1].x)
    requires sky[i].x <= x0 < sky[i + 1].x && sky[k].x <= x1
    ensures Waste(sky, i, k, x0, x1, z) == Waste(sky, i, k, x0, x1, y) + (sky[k].x - x0) * (z - y)
    decreases k
  {
    if k > i + 1 {
      WasteRaised(sky, i, k - 1, x0, x1, y, z);
      RaisedFlat(sky[k].x - sky[k - 1].x, sky[k - 1].x - x0, sky[k - 1].y, y, z);
    } else {
      RaisedFlat(sky[k].x - x0, 0, sky[i].y, y, z);
    }
  }

  lemma RaisedFlat(share: int, before: int, s: int, y: int, z: int)
    ensures share * (z - s) == share * (y - s) + share * (z - y)
    ensures (before + share) * (z - y) == before * (z - y) + share * (z - y)
  {
  }

  /** Some segment contains column x. */
  lemma {:induction false} SegmentAt(sky: seq<Seg>, width: int, x: int, n: int) returns (k: int)
    requires WellFormed(sky, width) && 1 <= n < |sky| && 0 <= x < sky[n].x
    ensures 0 <= k < n && sky[k].x <= x < sky[k + 1].x
    decreases n
  {
    if sky[n - 1].x <= x {
      k := n - 1;
    } else {
      k := SegmentAt(sky, width, x, n - 1);
    }
  }

  lemma SegmentUnique(sky: seq<Seg>, width: int, x: int, k: nat, m: nat)
    requires WellFormed(sky, width) && k < |sky| - 1 && m < |sky| - 1
    requires sky[k].x <= x < sky[k + 1].x && sky[m].x <= x < sky[m + 1].x
    ensures k == m
  {
  }

  // --------------------------------------------------------------------------
  // Boxes
  // --------------------------------------------------------------------------

  ghost predicate Inside(b: Box, width: int, height: int) {
    && b.w > 0 && b.h > 0
    && 0 <= b.x && b.x + b.w <= width
    && 0 <= b.y && b.y + b.h <= height
  }

  /** No point lies in the interior of both boxes. */
  ghost predicate Disjoint(a: Box, b: Box) {
    a.x + a.w <= b.x || b.x + b.w <= a.x || a.y + a.h <= b.y || b.y + b.h <= a.y
  }

  ghost predicate Packed(boxes: seq<Box>, width: int, height: int) {
    && (forall i :: 0 <= i < |boxes| ==> Inside(boxes[i], width, height))
    && (forall i, j :: 0 <= i < j < |boxes| ==> Disjoint(boxes[i], boxes[j]))
  }

  /** A box lies below every segment it shares a column with. */
  ghost predicate Under(b: Box, sky: seq<Seg>) {
    forall k :: 0 <= k < |sky| - 1 && Meets(sky, k, b.x, b.x + b.w) ==> b.y + b.h <= sky[k].y
  }

  ghost predicate Below(boxes: seq<Box>, sky: seq<Seg>) {
    forall i :: 0 <= i < |boxes| ==> Under(boxes[i], sky)
  }

  /** The height b rests at is not below any segment it shares a column with. */
  ghost predicate Rests(b: Box, sky: seq<Seg>) {
    forall k :: 0 <= k < |sky| - 1 && Meets(sky, k, b.x, b.x + b.w) ==> sky[k].y <= b.y
  }

  // --------------------------------------------------------------------------
  // Placing a box
  // --------------------------------------------------------------------------

  /** The first node from j on whose successor starts beyond `end`, or the sentinel. */
  function Keep(sky: seq<Seg>, j: nat, end: int): (k: nat)
    requires j < |sky|
    ensures j <= k < |sky|
    ensures k == |sky| - 1 || end < sky[k + 1].x
    ensures forall m :: j < m <= k ==> sky[m].x <= end
    decreases |sky| - j
  {
    if j + 1 < |sky| && sky[j + 1].x <= end then Keep(sky, j + 1, end) else j
  }

  /** The skyline after a box [x, x + w) with the given top is put on segment i: covered segments go,
      and the last one that reaches beyond the box loses its covered part. */
  function Place(sky: seq<Seg>, i: nat, x: int, w: int, top: int): seq<Seg>
    requires i < |sky| - 1
  {
    var first := if sky[i].x < x then i + 1 else i;
    var k := Keep(sky, first, x + w);
    sky[..first] + [Seg(x, top)] + [Seg(Max(sky[k].x, x + w), sky[k].y)] + sky[k + 1..]
  }

  function PlaceSize(sky: seq<Seg>, i: nat, x: int, w: int): int
    requires i < |sky| - 1
  {
    var first := if sky[i].x < x then i + 1 else i;
    first + 1 + |sky| - Keep(sky, first, x + w)
  }

  /** The new skyline, element by element. */
  lemma PlaceAt(sky: seq<Seg>, i: nat, x: int, w: int, top: int, a: nat)
    requires i < |sky| - 1 && a < |Place(sky, i, x, w, top)|
    ensures |Place(sky, i, x, w, top)| == PlaceSize(sky, i, x, w)
    ensures var first := if sky[i].x < x then i + 1 else i;
      var k := Keep(sky, first, x + w);
      Place(sky, i, x, w, top)[a] ==
        if a < first then sky[a]
        else if a == first then Seg(x, top)
        else if a == first + 1 then Seg(Max(sky[k].x, x + w), sky[k].y)
        else sky[k + (a - first - 1)]
  {
  }

  lemma PlaceLength(sky: seq<Seg>, i: nat, x: int, w: int, top: int)
    requires i < |sky| - 1
    ensures |Place(sky, i, x, w, top)| == PlaceSize(sky, i, x, w)
  {
  }

  /** Two segments of the new skyline are in order. */
  lemma PlaceOrdered(sky: seq<Seg>, width: int, i: nat, x: int, w: int, top: int, a: nat, b: nat)
    requires WellFormed(sky, width) && i < |sky| - 1
    requires sky[i].x <= x < sky[i + 1].x && w > 0 && x + w <= width
    requires a < b < |Place(sky, i, x, w, top)|
    ensures Place(sky, i, x, w, top)[a].x < Place(sky, i, x, w, top)[b].x
  {
    hide Place, WellFormed;
    var first := if sky[i].x < x then i + 1 else i;
    var k := Keep(sky, first, x + w);
    PlaceAt(sky, i, x, w, top, a);
    PlaceAt(sky, i, x, w, top, b);
    if b < first {
      Increasing(sky, width, a, b);
    } else if a < i {
      Increasing(sky, width, a, i);
    }
    if first + 1 < b {
      KeptBefore(sky, width, k, x + w, k + (b - first - 1));
      if first + 1 < a {
        Increasing(sky, width, k + (a - first - 1), k + (b - first - 1));
      }
    }
  }

  /** What follows the last segment the box reaches starts behind the box. */
  lemma KeptBefore(sky: seq<Seg>, width: int, k: int, end: int, m: int)
    requires WellFormed(sky, width) && 0 <= k < m < |sky| && end < sky[k + 1].x
    ensures sky[k].x < sky[m].x && end < sky[m].x
  {
    hide WellFormed;
    Increasing(sky, width, k, m);
    if k + 1 < m {
      Increasing(sky, width, k + 1, m);
    }
  }

  lemma PlaceWellFormed(sky: seq<Seg>, width: int, i: nat, x: int, w: int, top: int)
    requires WellFormed(sky, width) && i < |sky| - 1
    requires sky[i].x <= x < sky[i + 1].x && w > 0 && x + w <= width && top >= 0
    ensures WellFormed(Place(sky, i, x, w, top), width)
  {
    var sky' := Place(sky, i, x, w, top);
    forall a, b | 0 <= a < b < |sky'|
      ensures sky'[a].x < sky'[b].x
    {
      PlaceOrdered(sky, width, i, x, w, top, a, b);
    }
    PlaceEnds(sky, width, i, x, w, top);
  }

  lemma PlaceEnds(sky: seq<Seg>, width: int, i: nat, x: int, w: int, top: int)
    requires WellFormed(sky, width) && i < |sky| - 1
    requires sky[i].x <= x < sky[i + 1].x && w > 0 && x + w <= width && top >= 0
    ensures var sky' := Place(sky, i, x, w, top);
      && |sky'| >= 2 && sky'[0].x == 0 && sky'[|sky'| - 1].x == width
      && forall a :: 0 <= a < |sky'| ==> 0 <= sky'[a].y
  {
    var sky' := Place(sky, i, x, w, top);
    forall a | 0 <= a < |sky'|
      ensures 0 <= sky'[a].y
    {
      PlaceAt(sky, i, x, w, top, a);
    }
    PlaceAt(sky, i, x, w, top, 0);
    PlaceAt(sky, i, x, w, top, |sky'| - 1);
  }

  /** The columns of the new segment that the box itself does not reach lie over segment i. */
  lemma NewSegmentEnd(sky: seq<Seg>, width: int, i: nat, x: int, w: int, top: int)
    requires WellFormed(sky, width) && i < |sky| - 1
    requires sky[i].x <= x < sky[i + 1].x && w > 0 && x + w <= width
    ensures var first := if sky[i].x < x then i + 1 else i;
      var sky' := Place(sky, i, x, w, top);
      && first + 1 < |sky'| && sky'[first].x == x
      && sky'[first + 1].x == (if sky[i].x < x && x + w < sky[i + 1].x then sky[i + 1].x else x + w)
  {
    var first := if sky[i].x < x then i + 1 else i;
    var k := Keep(sky, first, x + w);
    PlaceAt(sky, i, x, w, top, first);
    PlaceAt(sky, i, x, w, top, first + 1);
    if k > first {
      assert sky[k].x <= x + w;
    }
  }

  /** Segment j of sky' is a part of an old segment, at the same height. */
  ghost predicate PartOf(sky: seq<Seg>, sky': seq<Seg>, j: nat)
    requires j < |sky'| - 1
  {
    exists k :: 0 <= k < |sky| - 1
      && sky[k].x <= sky'[j].x && sky'[j + 1].x <= sky[k + 1].x && sky'[j].y == sky[k].y
  }

  lemma PlacePart(sky: seq<Seg>, width: int, i: nat, x: int, w: int, top: int, j: nat)
    requires WellFormed(sky, width) && i < |sky| - 1
    requires sky[i].x <= x < sky[i + 1].x && w > 0 && x + w <= width
    requires j < |Place(sky, i, x, w, top)| - 1 && j != (if sky[i].x < x then i + 1 else i)
    ensures PartOf(sky, Place(sky, i, x, w, top), j)
  {
    hide Place, WellFormed;
    var first := if sky[i].x < x then i + 1 else i;
    var k := Keep(sky, first, x + w);
    var sky' := Place(sky, i, x, w, top);
    PlaceAt(sky, i, x, w, top, j);
    PlaceAt(sky, i, x, w, top, j + 1);
    var m := if j < first then j else k + (j - first - 1);
    assert sky[m].x <= sky'[j].x && sky'[j + 1].x <= sky[m + 1].x && sky'[j].y == sky[m].y;
  }

  lemma PlaceParts(sky: seq<Seg>, width: int, i: nat, x: int, w: int, top: int)
    requires WellFormed(sky, width) && i < |sky| - 1
    requires sky[i].x <= x < sky[i + 1].x && w > 0 && x + w <= width
    ensures var sky' := Place(sky, i, x, w, top);
      forall j :: 0 <= j < |sky'| - 1 && j != (if sky[i].x < x then i + 1 else i) ==> PartOf(sky, sky', j)
  {
    forall j | 0 <= j < |Place(sky, i, x, w, top)| - 1 && j != (if sky[i].x < x then i + 1 else i)
      ensures PartOf(sky, Place(sky, i, x, w, top), j)
    {
      PlacePart(sky, width, i, x, w, top, j);
    }
  }

  /** What placing does, whatever the list looks like: one new segment at the box's top, that may stretch
      to the end of the segment the box starts on, and otherwise only parts of old segments. */
  ghost predicate Covers(sky: seq<Seg>, sky': seq<Seg>, width: int, i: nat, x: int, w: int, top: int, n: nat)
    requires i < |sky| - 1
  {
    && WellFormed(sky', width)
    && n < |sky'| - 1
    && sky'[n] == Seg(x, top)
    && sky'[n + 1].x == (if sky[i].x < x && x + w < sky[i + 1].x then sky[i + 1].x else x + w)
    && forall j :: 0 <= j < |sky'| - 1 && j != n ==> PartOf(sky, sky', j)
  }

  lemma PlaceCovers(sky: seq<Seg>, width: int, i: nat, x: int, w: int, top: int)
    requires WellFormed(sky, width) && i < |sky| - 1 && sky[i].x <= x < sky[i + 1].x
    requires w > 0 && x + w <= width && top >= 0
    ensures Covers(sky, Place(sky, i, x, w, top), width, i, x, w, top, if sky[i].x < x then i + 1 else i)
  {
    PlaceWellFormed(sky, width, i, x, w, top);
    NewSegmentEnd(sky, width, i, x, w, top);
    PlaceAt(sky, i, x, w, top, if sky[i].x < x then i + 1 else i);
    PlaceParts(sky, width, i, x, w, top);
  }

  /** Main step: a box put down at its resting height overlaps no earlier box, and the new skyline
      is above all of them again. */
  lemma PlaceKeepsPacked(boxes: seq<Box>, sky: seq<Seg>, sky': seq<Seg>, width: int, height: int, i: nat, b: Box, n: nat)
    requires WellFormed(sky, width) && Packed(boxes, width, height) && Below(boxes, sky)
    requires i < |sky| - 1 && sky[i].x <= b.x < sky[i + 1].x
    requires Inside(b, width, height) && Rests(b, sky)
    requires Covers(sky, sky', width, i, b.x, b.w, b.y + b.h, n)
    ensures Packed(boxes + [b], width, height)
    ensures Below(boxes + [b], sky')
  {
    forall a | 0 <= a < |boxes|
      ensures Disjoint(boxes[a], b) && Under(boxes[a], sky')
    {
      NewBoxApart(boxes[a], sky, width, height, b);
      OldBoxBelow(boxes[a], sky, sky', width, height, i, b, n);
    }
    NewBoxBelow(sky', width, n, b);
  }

  lemma NewBoxApart(a: Box, sky: seq<Seg>, width: int, height: int, b: Box)
    requires WellFormed(sky, width) && Inside(a, width, height) && Under(a, sky)
    requires Inside(b, width, height) && Rests(b, sky)
    ensures Disjoint(a, b)
  {
    var x := Max(a.x, b.x);
    if x < a.x + a.w && x < b.x + b.w {
      var k := SegmentAt(sky, width, x, |sky| - 1);
      assert Meets(sky, k, b.x, b.x + b.w);
      assert Meets(sky, k, a.x, a.x + a.w);
    }
  }

  lemma NewBoxBelow(sky: seq<Seg>, width: int, n: nat, b: Box)
    requires WellFormed(sky, width) && n < |sky| - 1
    requires sky[n] == Seg(b.x, b.y + b.h) && b.x + b.w <= sky[n + 1].x
    ensures Under(b, sky)
  {
    forall j | 0 <= j < |sky| - 1 && Meets(sky, j, b.x, b.x + b.w)
      ensures sky[j].y == b.y + b.h
    {
      assert j == n;
    }
  }

  lemma OldBoxBelow(a: Box, sky: seq<Seg>, sky': seq<Seg>, width: int, height: int, i: nat, b: Box, n: nat)
    requires WellFormed(sky, width) && Inside(a, width, height) && Under(a, sky)
    requires i < |sky| - 1 && sky[i].x <= b.x < sky[i + 1].x
    requires Inside(b, width, height) && Rests(b, sky)
    requires Covers(sky, sky', width, i, b.x, b.w, b.y + b.h, n)
    ensures Under(a, sky')
  {
    forall j | 0 <= j < |sky'| - 1 && Meets(sky', j, a.x, a.x + a.w)
      ensures a.y + a.h <= sky'[j].y
    {
      if j == n {
        UnderNewSegment(a, sky, width, height, i, b, sky'[n + 1].x);
      } else {
        assert PartOf(sky, sky', j);
        var k :| 0 <= k < |sky| - 1
          && sky[k].x <= sky'[j].x && sky'[j + 1].x <= sky[k + 1].x && sky'[j].y == sky[k].y;
        assert Meets(sky, k, a.x, a.x + a.w);
      }
    }
  }

  /** A box that shares a column with the new segment stays below the new box's bottom. */
  lemma UnderNewSegment(a: Box, sky: seq<Seg>, width: int, height: int, i: nat, b: Box, end: int)
    requires WellFormed(sky, width) && Inside(a, width, height) && Under(a, sky)
    requires i < |sky| - 1 && sky[i].x <= b.x < sky[i + 1].x
    requires Inside(b, width, height) && Rests(b, sky)
    requires a.x < end && b.x < a.x + a.w
    requires end == b.x + b.w || b.x + b.w < end == sky[i + 1].x
    ensures a.y + a.h <= b.y
  {
    var x := Max(a.x, b.x);
    var m := SegmentAt(sky, width, x, |sky| - 1);
    assert Meets(sky, m, a.x, a.x + a.w);
    if x >= b.x + b.w {
      SegmentUnique(sky, width, x, m, i);
    }
    assert Meets(sky, m, b.x, b.x + b.w);
  }

  // --------------------------------------------------------------------------
  // Gaps on the floor
  // --------------------------------------------------------------------------

  /** Between any two segments on the floor there is a higher one. */
  ghost predicate Separated(sky: seq<Seg>) {
    forall k :: 0 <= k < |sky| - 1 ==> sky[k].y > 0 || sky[k + 1].y > 0
  }

  lemma PlaceSeparated(sky: seq<Seg>, i: nat, x: int, w: int, top: int)
    requires Separated(sky) && i < |sky| - 1 && top > 0
    ensures Separated(Place(sky, i, x, w, top))
  {
    hide Place;
    var sky' := Place(sky, i, x, w, top);
    forall k | 0 <= k < |sky'| - 1
      ensures sky'[k].y > 0 || sky'[k + 1].y > 0
    {
      PlaceAt(sky, i, x, w, top, k);
      PlaceAt(sky, i, x, w, top, k + 1);
    }
  }

  /** Segment starts are distinct columns, so a skyline has at most one segment per column. */
  lemma {:induction false} SegmentsCounted(sky: seq<Seg>, width: int, k: nat)
    requires WellFormed(sky, width) && k < |sky|
    ensures k <= sky[k].x
  {
    if k > 0 {
      SegmentsCounted(sky, width, k - 1);
    }
  }

  lemma {:induction false} SegmentsBehind(sky: seq<Seg>, width: int, k: nat)
    requires WellFormed(sky, width) && k < |sky|
    ensures sky[k].x + |sky| - 1 - k <= width
    decreases |sky| - k
  {
    if k < |sky| - 1 {
      SegmentsBehind(sky, width, k + 1);
    }
  }

  lemma WithinOne(sky: seq<Seg>, width: int, i: int, x: int, w: int)
    requires WellFormed(sky, width) && Separated(sky) && 0 <= i < |sky| - 1 && sky[i].x <= x < sky[i + 1].x
    requires w > 0 && x + w <= width && RestingHeight(sky, x, x + w, 0)
    ensures x + w <= sky[i + 1].x
  {
    hide RestingHeight, Separated;
    if sky[i + 1].x < x + w {
      NotBelow(sky, x, x + w, 0, i);
      NotBelow(sky, x, x + w, 0, i + 1);
      NotBoth(sky, i);
    }
  }

  lemma NotBoth(sky: seq<Seg>, i: int)
    requires Separated(sky) && 0 <= i < |sky| - 1
    ensures sky[i].y > 0 || sky[i + 1].y > 0
  {
  }

  /** A box on the floor lies within one segment, beside which every other segment takes a column. */
  lemma FloorGap(sky: seq<Seg>, width: int, x: int, w: int)
    requires WellFormed(sky, width) && Separated(sky) && 0 <= x && w > 0 && x + w <= width
    requires RestingHeight(sky, x, x + w, 0)
    ensures w + |sky| - 2 <= width
  {
    var i := SegmentAt(sky, width, x, |sky| - 1);
    WithinOne(sky, width, i, x, w);
    SegmentsCounted(sky, width, i);
    SegmentsBehind(sky, width, i + 1);
  }
}
