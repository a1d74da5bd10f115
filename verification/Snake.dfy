/** The snake game: a 40 by 40 grid whose body cells point along the snake, and an apple placed at random. */
module Snake {
  const EMPTY := 0
  const APPLE := 1
  const WALL := 2
  const BODYU := 3
  const BODYR := 4
  const BODYD := 5
  const BODYL := 6

  datatype Pnt = Pnt(x: int, y: int)

  datatype Key = W | A | S | D | Q | Other | NoKey

  /** The grid is kept row by row. */
  function At(p: Pnt): int {
    40 * p.y + p.x
  }

  predicate Border(p: int) {
    p < 40 || p >= 1560 || p % 40 == 0 || p % 40 == 39
  }

  predicate IsBody(c: int) {
    BODYU <= c <= BODYL
  }

  /** How far the direction of a body cell leads. */
  function Lead(c: int): int
    requires IsBody(c)
  {
    if c == BODYU then -40 else if c == BODYR then 1 else if c == BODYD then 40 else -1
  }

  function Count(s: seq<int>, v: int): nat {
    if s == [] then 0 else Count(s[..|s| - 1], v) + if s[|s| - 1] == v then 1 else 0
  }

  lemma {:induction false} CountUpdate(s: seq<int>, v: int, i: int, c: int)
    requires 0 <= i < |s|
    ensures Count(s[i := c], v) == Count(s, v) - (if s[i] == v then 1 else 0) + (if c == v then 1 else 0)
  {
    var n := |s| - 1;
    if i == n {
      assert s[i := c][..n] == s[..n];
    } else {
      assert s[i := c][..n] == s[..n][i := c];
      CountUpdate(s[..n], v, i, c);
    }
  }

  lemma CountStep(s: seq<int>, v: int, n: nat)
    requires n < |s|
    ensures Count(s[..n + 1], v) == Count(s[..n], v) + if s[n] == v then 1 else 0
  {
    assert s[..n + 1][..n] == s[..n];
  }

  lemma {:induction false} CountPrefix(s: seq<int>, v: int, n: nat)
    requires n <= |s|
    ensures Count(s[..n], v) <= Count(s, v)
    decreases |s|
  {
    if n == |s| {
      assert s[..n] == s;
    } else {
      assert s[..|s| - 1][..n] == s[..n];
      CountPrefix(s[..|s| - 1], v, n);
    }
  }

  // --------------------------------------------------------------------------
  // The invariant
  // --------------------------------------------------------------------------

  ghost predicate Leads(grid: seq<int>, path: seq<int>, k: int) {
    && 0 <= k && k + 1 < |path| && 0 <= path[k] < |grid| && IsBody(grid[path[k]])
    && path[k + 1] == path[k] + Lead(grid[path[k]])
  }

  /** The snake: its cells from tail to head, each leading to the next, all different, and no other body cells. */
  ghost predicate Snaking(grid: seq<int>, path: seq<int>) {
    && |path| >= 2
    && (forall k :: 0 <= k < |path| ==> 0 <= path[k] < |grid|)
    && (forall k :: 0 <= k < |path| - 1 ==> Leads(grid, path, k))
    && (forall j, k :: 0 <= j < k < |path| ==> path[j] != path[k])
    && (forall p :: 0 <= p < |grid| ==> (IsBody(grid[p]) <==> p in path))
  }

  ghost predicate Walled(grid: seq<int>) {
    && |grid| == 1600
    && (forall p :: 0 <= p < |grid| ==> EMPTY <= grid[p] <= BODYL && (grid[p] == WALL <==> Border(p)))
  }

  ghost predicate Inv(grid: seq<int>, path: seq<int>, emptyCnt: int, score: int) {
    && Walled(grid) && Snaking(grid, path)
    && |path| == score + 2 && emptyCnt == Count(grid, EMPTY) && Count(grid, APPLE) == 1 && emptyCnt == 1441 - score
  }

  /** The cell in front of the head is free for the head. */
  lemma Grow(grid: seq<int>, path: seq<int>, next: int)
    requires Walled(grid) && Snaking(grid, path)
    requires var head := path[|path| - 1]; next == head + Lead(grid[head])
    requires 0 <= next < 1600 && (grid[next] == EMPTY || grid[next] == APPLE)
    ensures var grid' := grid[next := grid[path[|path| - 1]]];
      Walled(grid') && Snaking(grid', path + [next])
  {
    var head := path[|path| - 1];
    var grid', path' := grid[next := grid[head]], path + [next];
    forall k | 0 <= k < |path'| - 1
      ensures Leads(grid', path', k)
    {
      if k < |path| - 1 {
        assert Leads(grid, path, k);
      }
    }
  }

  /** The tail gives up its cell. */
  lemma DropTail(grid: seq<int>, path: seq<int>)
    requires Walled(grid) && Snaking(grid, path) && |path| >= 3
    ensures path[1] == path[0] + Lead(grid[path[0]])
    ensures Walled(grid[path[0] := EMPTY]) && Snaking(grid[path[0] := EMPTY], path[1..])
  {
    assert Leads(grid, path, 0);
    var grid', path' := grid[path[0] := EMPTY], path[1..];
    forall k | 0 <= k < |path'| - 1
      ensures Leads(grid', path', k)
    {
      assert Leads(grid, path, k + 1);
    }
    forall p | 0 <= p < |grid'|
      ensures IsBody(grid'[p]) <==> p in path'
    {
      if p != path[0] {
        assert p in path <==> p in path';
      }
    }
  }

  /** From the head the snake can only look at cells of the grid. */
  lemma NextInside(grid: seq<int>, p: int)
    requires Walled(grid) && 0 <= p < 1600 && IsBody(grid[p])
    ensures 0 <= p + Lead(grid[p]) < 1600
  {
    assert grid[p] != WALL;
  }

  /** Turning the head leaves the snake as it is. */
  lemma Turn(grid: seq<int>, path: seq<int>, c: int)
    requires Walled(grid) && Snaking(grid, path) && IsBody(c)
    ensures Walled(grid[path[|path| - 1] := c]) && Snaking(grid[path[|path| - 1] := c], path)
  {
    var n, grid' := |path| - 1, grid[path[|path| - 1] := c];
    forall k | 0 <= k < n
      ensures Leads(grid', path, k)
    {
      assert Leads(grid, path, k);
    }
  }

  // --------------------------------------------------------------------------
  // The first grid
  // --------------------------------------------------------------------------

  function InitCell(p: int): int {
    if Border(p) then WALL else EMPTY
  }

  /** Empty cells among the first 40 * i + j of the walled grid. */
  function InitCount(i: int, j: int): int {
    if i == 0 || i == 39 then (if i == 0 then 0 else 1444)
    else 38 * (i - 1) + (if j == 0 then 0 else if j == 40 then 38 else j - 1)
  }

  lemma {:induction false} InitCounts(s: seq<int>, i: nat, j: nat)
    requires |s| == 1600 && forall p :: 0 <= p < 1600 ==> s[p] == InitCell(p)
    requires i < 40 && j <= 40
    ensures Count(s[..40 * i + j], EMPTY) == InitCount(i, j)
    decreases i, j
  {
    if j > 0 {
      InitCounts(s, i, j - 1);
      CountStep(s, EMPTY, 40 * i + (j - 1));
      Remainder(i, j - 1);
    } else if i > 0 {
      InitCounts(s, i - 1, 40);
    }
  }

  lemma Remainder(i: nat, j: nat)
    requires j < 40
    ensures (40 * i + j) % 40 == j
  {
  }

  // --------------------------------------------------------------------------
  // The game
  // --------------------------------------------------------------------------

  /** The grid after an apple has been put on the empty cell that has `rank` empty cells before it. */
  ghost predicate ApplePut(grid: seq<int>, grid': seq<int>, rank: int) {
    exists p :: 0 <= p < |grid| && EmptyAt(grid, p, rank) && grid' == grid[p := APPLE]
  }

  ghost predicate EmptyAt(grid: seq<int>, p: int, rank: int) {
    0 <= p < |grid| && grid[p] == EMPTY && Count(grid[..p], EMPTY) == rank
  }

  /** The grid after eating: the new apple is on the cell of that rank, and the head has gone on in its direction. */
  ghost predicate Eaten(g: seq<int>, g': seq<int>, rank: int, head: int, next: int) {
    && 0 <= head < |g| && 0 <= next < |g|
    && exists a :: 0 <= a < |g| && EmptyAt(g, a, rank) && g' == g[a := APPLE][next := g[head]]
  }

  /** The grid after moving: the head has gone on in its direction, and the tail has given up its cell. */
  ghost predicate Moved(g: seq<int>, g': seq<int>, head: int, next: int, tail: int) {
    && 0 <= head < |g| && 0 <= next < |g| && 0 <= tail < |g|
    && g' == g[next := g[head]][tail := EMPTY]
  }

  lemma EatenIs(g: seq<int>, g1: seq<int>, rank: int, head: int, next: int)
    requires ApplePut(g, g1, rank) && 0 <= head < |g| == |g1| && 0 <= next < |g| && g1[head] == g[head]
    ensures Eaten(g, g1[next := g1[head]], rank, head, next)
  {
    var a :| 0 <= a < |g| && EmptyAt(g, a, rank) && g1 == g[a := APPLE];
  }

  lemma AppleThere(g: seq<int>, g': seq<int>, rank: int)
    requires ApplePut(g, g', rank)
    ensures exists a :: 0 <= a < |g'| && g'[a] == APPLE && EmptyAt(g'[a := EMPTY], a, rank)
  {
    var a :| 0 <= a < |g| && EmptyAt(g, a, rank) && g' == g[a := APPLE];
    assert g'[a := EMPTY] == g;
    assert g'[a] == APPLE && EmptyAt(g'[a := EMPTY], a, rank);
  }

  /** Every empty cell is drawn by some number, and numbers draw the cells in turn. */
  lemma EveryCellDrawn(g: seq<int>, p: int) returns (rand: nat)
    requires 0 <= p < |g| && g[p] == EMPTY
    ensures rand < Count(g, EMPTY) && Pick(rand, Count(g, EMPTY)) == rand && EmptyAt(g, p, rand)
    ensures forall n: nat, r: nat :: n > 0 ==> Pick(r + n, n) == Pick(r, n)
  {
    hide Pick;
    rand := Count(g[..p], EMPTY);
    CountStep(g, EMPTY, p);
    CountPrefix(g, EMPTY, p + 1);
    PickSmall(rand, Count(g, EMPTY));
    forall n: nat, r: nat | n > 0
      ensures Pick(r + n, n) == Pick(r, n)
    {
      PickAgain(r, n);
    }
  }

  lemma PickSmall(r: nat, n: nat)
    requires r < n
    ensures Pick(r, n) == r
  {
  }

  lemma PickAgain(r: nat, n: nat)
    requires n > 0
    ensures Pick(r + n, n) == Pick(r, n)
  {
    var q := r / n;
    assert r == n * q + r % n;
    assert r + n == n * (q + 1) + r % n;
    QuotientUnique(r + n, n, q + 1, r % n);
  }

  lemma QuotientUnique(x: nat, n: nat, q: nat, r: nat)
    requires x == n * q + r && r < n
    ensures x % n == r
  {
    var d := q - x / n;
    assert x == n * (x / n) + x % n;
    assert n * d == x % n - r;
    if d >= 1 {
      TimesAtLeast(n, d);
    } else if d <= -1 {
      TimesAtLeast(n, -d);
    }
  }

  lemma TimesAtLeast(n: nat, d: int)
    requires d >= 1
    ensures n * d >= n && n * -d == -(n * d)
  {
  }

  /** A new apple changes only the counts. */
  lemma AppleKeeps(grid: seq<int>, grid': seq<int>, path: seq<int>, rank: int)
    requires Walled(grid) && ApplePut(grid, grid', rank)
    ensures Walled(grid') && (Snaking(grid, path) ==> Snaking(grid', path))
    ensures Count(grid', EMPTY) == Count(grid, EMPTY) - 1 && Count(grid', APPLE) == Count(grid, APPLE) + 1
    ensures forall p :: 0 <= p < |grid| && grid[p] != EMPTY ==> grid'[p] == grid[p]
  {
    var p :| 0 <= p < |grid| && EmptyAt(grid, p, rank) && grid' == grid[p := APPLE];
    CountUpdate(grid, EMPTY, p, APPLE);
    CountUpdate(grid, APPLE, p, APPLE);
    if Snaking(grid, path) {
      forall k | 0 <= k < |path| - 1
        ensures Leads(grid', path, k)
      {
        assert Leads(grid, path, k);
      }
    }
  }

  class Game {
    const grid: array<int>
    var emptyCnt: int
    var head: Pnt
    var tail: Pnt
    var score: int
    /** The cells of the snake from tail to head. */
    ghost var path: seq<int>

    ghost predicate Placed()
      reads this
    {
      && path != [] && At(head) == path[|path| - 1] && At(tail) == path[0]
      && 0 <= head.x < 40 && 0 <= head.y < 40 && 0 <= tail.x < 40 && 0 <= tail.y < 40
    }

    ghost predicate Valid()
      reads this, grid
    {
      grid.Length == 1600 && Placed() && Inv(grid[..], path, emptyCnt, score)
    }

    /** gen_apple, with the result of rand(). */
    method GenApple(rand: nat)
      requires grid.Length == 1600 && emptyCnt == Count(grid[..], EMPTY) && emptyCnt > 0
      modifies grid, this`emptyCnt
      ensures ApplePut(old(grid[..]), grid[..], Pick(rand, old(emptyCnt))) && emptyCnt == old(emptyCnt) - 1
    {
      hide Count, EmptyAt, Pick;
      ghost var g := grid[..];
      var index := Pick(rand, emptyCnt) + 1;
      ghost var rank := index - 1;
      var i := 0;
      CountNone(g, EMPTY);
      assert g[..1600] == g;
      while i < 40
        invariant 0 <= i <= 40 && grid[..] == g && index == rank + 1 - Count(g[..40 * i], EMPTY) && index >= 1
        invariant emptyCnt == old(emptyCnt)
      {
        var j := 0;
        while j < 40
          invariant 0 <= j <= 40 && grid[..] == g && index == rank + 1 - Count(g[..40 * i + j], EMPTY) && index >= 1
          invariant emptyCnt == old(emptyCnt)
        {
          ghost var p := 40 * i + j;
          CountStep(g, EMPTY, p);
          if grid[40 * i + j] == EMPTY {
            index := index - 1;
          }
          if index == 0 {
            ThisOne(g, p, rank);
            grid[40 * i + j] := APPLE;
            assert grid[..] == g[p := APPLE];
            emptyCnt := emptyCnt - 1;
            return;
          }
          j := j + 1;
        }
        i := i + 1;
      }
      assert false;
    }

    /** init_game, with the result of rand(). */
    constructor (rand: nat)
      ensures Valid() && score == 0 && path == [819, 820] && fresh(grid) && grid[820] == BODYR
      ensures exists a :: 0 <= a < 1600 && grid[a] == APPLE && EmptyAt(grid[..][a := EMPTY], a, Pick(rand, 1442))
    {
      grid := new int[1600](p => InitCell(p));
      head := Pnt(20, 20);
      tail := Pnt(19, 20);
      score, emptyCnt := 0, 0;
      path := [819, 820];
      new;
      ghost var g0 := grid[..];
      grid[At(head)] := BODYR;
      grid[At(tail)] := BODYR;
      ghost var g := grid[..];
      assert g == g0[820 := BODYR][819 := BODYR];
      FirstCounts(g0, g);
      CountEmpty();
      GenApple(rand);
      AppleKeeps(g, grid[..], path, Pick(rand, 1442));
      AppleThere(g, grid[..], Pick(rand, 1442));
    }

    /** Counting the empty cells (lines 62-68). */
    method CountEmpty()
      requires grid.Length == 1600 && emptyCnt == 0
      modifies this`emptyCnt
      ensures emptyCnt == Count(grid[..], EMPTY)
    {
      ghost var g := grid[..];
      assert g[..0] == [];
      var i := 0;
      while i < 40
        invariant 0 <= i <= 40 && emptyCnt == Count(g[..40 * i], EMPTY)
      {
        var j := 0;
        while j < 40
          invariant 0 <= j <= 40 && emptyCnt == Count(g[..40 * i + j], EMPTY)
        {
          CountStep(g, EMPTY, 40 * i + j);
          if grid[40 * i + j] == EMPTY {
            emptyCnt := emptyCnt + 1;
          }
          j := j + 1;
        }
        i := i + 1;
      }
      assert g[..1600] == g;
    }

    /** step_game_do, with the result of rand(). Eating the apple with 1441 points divides by zero: there is no empty
        cell left for another one. */
    method StepGameDo(rand: nat) returns (verdict: Verdict)
      requires Valid()
      modifies this, grid
      ensures Valid()
      ensures Outcome(old(grid[..]), old(path), old(score), rand, verdict, grid[..], path, score)
    {
      hide Count, Snaking, Lead, Border, Walled, Inv, Eaten, Moved, Pick;
      InvFacts(grid[..], path, emptyCnt, score);
      InFront(grid[..], head);
      InFront(grid[..], tail);
      var dx, dy := Direction(grid[At(head)]);
      var tx, ty := Direction(grid[At(tail)]);
      var next := At(Pnt(head.x + dx, head.y + dy));
      if grid[next] != EMPTY && grid[next] != APPLE {
        return Over;
      } else if grid[next] == APPLE {
        if emptyCnt == 0 {
          return DividesByZero;
        }
        Eat(rand, dx, dy);
      } else {
        Move(dx, dy, tx, ty);
      }
      verdict := GoesOn;
    }

    /** The direction tables of lines 78-85. */
    method Direction(c: int) returns (dx: int, dy: int)
      requires IsBody(c)
      ensures dx == Dx(c) && dy == Dy(c)
    {
      var x, y := [0, 1, 0, -1], [-1, 0, 1, 0];
      dx, dy := x[c - BODYU], y[c - BODYU];
    }

    /** Eating the apple (lines 93-101). */
    method Eat(rand: nat, dx: int, dy: int)
      requires Valid() && score != 1441
      requires 0 <= head.x + dx < 40 && 0 <= head.y + dy < 40 && IsBody(grid[At(head)])
      requires At(Pnt(head.x + dx, head.y + dy)) == At(head) + Lead(grid[At(head)])
      requires grid[At(Pnt(head.x + dx, head.y + dy))] == APPLE
      modifies this, grid
      ensures Valid() && path == old(path) + [old(At(head) + Lead(grid[At(head)]))] && score == old(score) + 1
      ensures Eaten(old(grid[..]), grid[..], Pick(rand, old(emptyCnt)), old(At(head)), old(At(head) + Lead(grid[At(head)])))
    {
      hide Count, Snaking, Walled, Lead, ApplePut, Pick, Inv, Eaten;
      ghost var g := grid[..];
      var next := At(Pnt(head.x + dx, head.y + dy));
      InvFacts(g, path, emptyCnt, score);
      ghost var rank := Pick(rand, emptyCnt);
      GenApple(rand);
      EatInv(g, grid[..], path, emptyCnt + 1, score, rank, next);
      ghost var g1 := grid[..];
      EatenIs(g, g1, rank, At(head), next);
      grid[next] := grid[At(head)];
      assert grid[..] == g1[next := g1[At(head)]];
      head := Pnt(head.x + dx, head.y + dy);
      score := score + 1;
      path := path + [next];
    }

    /** Moving on (lines 102-113). */
    method Move(dx: int, dy: int, tx: int, ty: int)
      requires Valid()
      requires 0 <= head.x + dx < 40 && 0 <= head.y + dy < 40 && IsBody(grid[At(head)]) && IsBody(grid[At(tail)])
      requires At(Pnt(head.x + dx, head.y + dy)) == At(head) + Lead(grid[At(head)])
      requires 0 <= tail.x + tx < 40 && 0 <= tail.y + ty < 40
      requires At(Pnt(tail.x + tx, tail.y + ty)) == At(tail) + Lead(grid[At(tail)])
      requires grid[At(Pnt(head.x + dx, head.y + dy))] == EMPTY
      modifies this, grid
      ensures Valid() && path == (old(path) + [old(At(head) + Lead(grid[At(head)]))])[1..] && score == old(score)
      ensures Moved(old(grid[..]), grid[..], old(At(head)), old(At(head) + Lead(grid[At(head)])), old(At(tail)))
    {
      hide Count, Snaking, Walled, Lead, Inv;
      ghost var g := grid[..];
      InvFacts(g, path, emptyCnt, score);
      var next := At(Pnt(head.x + dx, head.y + dy));
      MoveInv(g, path, emptyCnt, score, next);
      grid[next] := grid[At(head)];
      head := Pnt(head.x + dx, head.y + dy);
      grid[At(tail)] := EMPTY;
      assert grid[..] == g[next := g[path[|path| - 1]]][path[0] := EMPTY];
      tail := Pnt(tail.x + tx, tail.y + ty);
      path := (path + [next])[1..];
    }

    /** step_game: a key turns the head, unless it would turn it back on itself; then the game makes a step. */
    method StepGame(key: Key, rand: nat) returns (verdict: Verdict)
      requires Valid()
      modifies this, grid
      ensures Valid()
      ensures key == Q ==> verdict == Over && path == old(path) && score == old(score) && grid[..] == old(grid[..])
      ensures key != Q ==>
        var g := old(grid[..][At(head) := Turned(grid[At(head)], key)]);
        Outcome(g, old(path), old(score), rand, verdict, grid[..], path, score)
    {
      hide Count, Snaking, Walled, Lead, Outcome, Inv, Eaten, Moved, Pick, Turned;
      InvFacts(grid[..], path, emptyCnt, score);
      if key == Q {
        return Over;
      }
      TurnHead(key);
      InvFacts(grid[..], path, emptyCnt, score);
      NotItself(grid[At(head)], grid[..], At(head));
      verdict := StepGameDo(rand);
    }

    /** The keys that turn the head (lines 212-215). */
    method TurnHead(key: Key)
      requires Valid() && IsBody(grid[At(head)]) && key != Q
      modifies grid
      ensures Valid() && IsBody(Turned(old(grid[At(head)]), key))
      ensures grid[..] == old(grid[..])[At(head) := Turned(old(grid[At(head)]), key)]
    {
      hide Count, Snaking, Walled, Lead, Inv;
      ghost var g := grid[..];
      InvFacts(g, path, emptyCnt, score);
      match key {
        case W =>
          if grid[At(head)] != BODYD { SetDirection(BODYU); }
        case D =>
          if grid[At(head)] != BODYL { SetDirection(BODYR); }
        case S =>
          if grid[At(head)] != BODYU { SetDirection(BODYD); }
        case A =>
          if grid[At(head)] != BODYR { SetDirection(BODYL); }
        case Other =>
        case NoKey =>
      }
      assert grid[..] == g[At(head) := Turned(g[At(head)], key)];
    }

    method SetDirection(c: int)
      requires Valid() && IsBody(c)
      modifies grid
      ensures Valid() && grid[..] == old(grid[..])[At(head) := c]
    {
      hide Count, Snaking, Walled, Inv;
      InvFacts(grid[..], path, emptyCnt, score);
      ghost var g := grid[..];
      TurnInv(g, path, emptyCnt, score, c);
      grid[At(head)] := c;
      assert grid[..] == g[At(head) := c];
    }
  }

  datatype Verdict = GoesOn | Over | DividesByZero

  /** What a step makes of the grid, the snake and the score. */
  ghost predicate Outcome(g: seq<int>, path0: seq<int>, score0: int, rand: nat, verdict: Verdict,
                          g': seq<int>, path: seq<int>, score: int)
  {
    && path0 != []
    && var h := path0[|path0| - 1];
    && 0 <= h < |g| && IsBody(g[h])
    && var next := h + Lead(g[h]);
    && 0 <= next < |g|
    && if g[next] == EMPTY then
         verdict == GoesOn && path == (path0 + [next])[1..] && score == score0 && Moved(g, g', h, next, path0[0])
       else if g[next] == APPLE && score0 < 1441 then
         && verdict == GoesOn && path == path0 + [next] && score == score0 + 1
         && Eaten(g, g', Pick(rand, 1441 - score0), h, next)
       else
         verdict == (if g[next] == APPLE then DividesByZero else Over) && path == path0 && score == score0 && g' == g
  }

  /** The direction of the head after a key. */
  function Turned(c: int, key: Key): int {
    match key
    case W => if c != BODYD then BODYU else c
    case D => if c != BODYL then BODYR else c
    case S => if c != BODYU then BODYD else c
    case A => if c != BODYR then BODYL else c
    case Q => c
    case Other => c
    case NoKey => c
  }

  /** W turns up, that is to the cell 40 before, S down, A left and D right, but never to the opposite direction. */
  lemma KeyTurns(c: int, key: Key)
    requires IsBody(c)
    ensures IsBody(Turned(c, key)) && Lead(Turned(c, key)) + Lead(c) != 0
    ensures var (d, d0) := (Lead(Turned(c, key)), Lead(c));
      d == if key == W && d0 != 40 then -40 else if key == S && d0 != -40 then 40
           else if key == A && d0 != 1 then -1 else if key == D && d0 != -1 then 1 else d0
  {
  }

  lemma NotItself(c: int, grid: seq<int>, p: int)
    requires Walled(grid) && 0 <= p < 1600 && IsBody(c) && grid[p] == c
    ensures p + Lead(c) != p && 0 <= p + Lead(c) < 1600
  {
    NextInside(grid, p);
  }

  function Pick(rand: nat, n: nat): (r: nat)
    requires n > 0
    ensures r < n
  {
    rand % n
  }

  lemma CountNone(s: seq<int>, v: int)
    ensures Count(s[..0], v) == 0
  {
  }

  lemma ThisOne(g: seq<int>, p: int, rank: int)
    requires 0 <= p < |g| && Count(g[..p + 1], EMPTY) == rank + 1 && Count(g[..p], EMPTY) <= rank
    ensures EmptyAt(g, p, rank)
  {
    CountStep(g, EMPTY, p);
  }

  lemma SnakeEnds(grid: seq<int>, path: seq<int>)
    requires Snaking(grid, path)
    ensures |path| >= 2 && forall k :: 0 <= k < |path| ==> 0 <= path[k] < |grid| && IsBody(grid[path[k]])
  {
    forall k | 0 <= k < |path|
      ensures 0 <= path[k] < |grid| && IsBody(grid[path[k]])
    {
      assert path[k] in path;
    }
  }

  function Dx(c: int): int {
    if c == BODYR then 1 else if c == BODYL then -1 else 0
  }

  function Dy(c: int): int {
    if c == BODYD then 1 else if c == BODYU then -1 else 0
  }

  lemma InvFacts(grid: seq<int>, path: seq<int>, emptyCnt: int, score: int)
    requires Inv(grid, path, emptyCnt, score)
    ensures Walled(grid) && Snaking(grid, path) && |grid| == 1600
    ensures emptyCnt == Count(grid, EMPTY) == 1441 - score
    ensures |path| >= 2 && forall k :: 0 <= k < |path| ==> 0 <= path[k] < |grid| && IsBody(grid[path[k]])
  {
    SnakeEnds(grid, path);
  }

  /** The grid with the first two body cells. */
  lemma FirstCounts(g0: seq<int>, g: seq<int>)
    requires |g0| == 1600 && forall p :: 0 <= p < 1600 ==> g0[p] == InitCell(p)
    requires g == g0[820 := BODYR][819 := BODYR]
    ensures Walled(g) && Snaking(g, [819, 820]) && Count(g, EMPTY) == 1442 && Count(g, APPLE) == 0
  {
    InitCounts(g0, 39, 40);
    assert g0[..1600] == g0;
    NoApple(g0);
    CountUpdate(g0, EMPTY, 820, BODYR);
    CountUpdate(g0[820 := BODYR], EMPTY, 819, BODYR);
    CountUpdate(g0, APPLE, 820, BODYR);
    CountUpdate(g0[820 := BODYR], APPLE, 819, BODYR);
  }

  lemma {:induction false} NoApple(s: seq<int>)
    requires forall p :: 0 <= p < |s| ==> s[p] != APPLE
    ensures Count(s, APPLE) == 0
  {
    if s != [] {
      NoApple(s[..|s| - 1]);
    }
  }

  /** The cell a body cell leads to, in coordinates. */
  lemma InFront(grid: seq<int>, p: Pnt)
    requires Walled(grid) && 0 <= p.x < 40 && 0 <= p.y < 40 && IsBody(grid[At(p)])
    ensures var c := grid[At(p)];
      0 <= p.x + Dx(c) < 40 && 0 <= p.y + Dy(c) < 40 && At(Pnt(p.x + Dx(c), p.y + Dy(c))) == At(p) + Lead(c)
  {
    assert grid[At(p)] != WALL;
    Remainder(p.y, p.x);
  }

  lemma EatInv(grid: seq<int>, grid1: seq<int>, path: seq<int>, emptyCnt: int, score: int, rank: int, next: int)
    requires Inv(grid, path, emptyCnt, score) && ApplePut(grid, grid1, rank)
    requires next == path[|path| - 1] + Lead(grid[path[|path| - 1]]) && 0 <= next < 1600 && grid[next] == APPLE
    ensures |grid1| == 1600 && grid1[path[|path| - 1]] == grid[path[|path| - 1]]
    ensures Inv(grid1[next := grid1[path[|path| - 1]]], path + [next], emptyCnt - 1, score + 1)
  {
    hide Count, Snaking, Lead;
    SnakeEnds(grid, path);
    AppleKeeps(grid, grid1, path, rank);
    Grow(grid1, path, next);
    CountUpdate(grid1, EMPTY, next, grid1[path[|path| - 1]]);
    CountUpdate(grid1, APPLE, next, grid1[path[|path| - 1]]);
  }

  lemma MoveInv(grid: seq<int>, path: seq<int>, emptyCnt: int, score: int, next: int)
    requires Inv(grid, path, emptyCnt, score)
    requires next == path[|path| - 1] + Lead(grid[path[|path| - 1]]) && 0 <= next < 1600 && grid[next] == EMPTY
    ensures next != path[0] && path[1] == path[0] + Lead(grid[path[0]])
    ensures Inv(grid[next := grid[path[|path| - 1]]][path[0] := EMPTY], (path + [next])[1..], emptyCnt, score)
  {
    hide Count, Snaking, Lead;
    SnakeEnds(grid, path);
    var body := grid[path[|path| - 1]];
    var grid1 := grid[next := body];
    Grow(grid, path, next);
    SnakeEnds(grid1, path + [next]);
    assert (path + [next])[0] == path[0] && (path + [next])[1] == path[1];
    DropTail(grid1, path + [next]);
    CountUpdate(grid, EMPTY, next, body);
    CountUpdate(grid, APPLE, next, body);
    CountUpdate(grid1, EMPTY, path[0], EMPTY);
    CountUpdate(grid1, APPLE, path[0], EMPTY);
  }

  lemma TurnInv(grid: seq<int>, path: seq<int>, emptyCnt: int, score: int, c: int)
    requires Inv(grid, path, emptyCnt, score) && IsBody(c)
    ensures 0 <= path[|path| - 1] < |grid| && Inv(grid[path[|path| - 1] := c], path, emptyCnt, score)
  {
    hide Count, Snaking;
    SnakeEnds(grid, path);
    Turn(grid, path, c);
    CountUpdate(grid, EMPTY, path[|path| - 1], c);
    CountUpdate(grid, APPLE, path[|path| - 1], c);
  }
}
