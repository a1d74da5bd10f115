/** The kernel's semaphores and the producer/consumer program as a step machine: any number of tasks, every
    interleaving of single steps. */
module SemMachine {
  import Sequences

  const MAXK := 8

  datatype SemId = Empty | Full | Mutex

  datatype Role = Producer | Consumer

  /** Where a task is inside its current line.
      Enter: about to start. Held: the semaphore's spin lock is taken. Changed: its value has been changed.
      Parked: queued as a waiter, lock still held. Asleep: queued, lock released. Woken: taken off the queue again.
      Popped: has woken a waiter, lock still held. Loaded: has read the counter. */
  datatype Phase = Enter | Held | Changed | Parked | Asleep | Woken | Popped | Loaded

  /** Lines 0 and 1 wait, line 2 changes the counter, lines 3 and 4 signal. `ticket` is when the task last queued. */
  datatype Task = Task(role: Role, line: int, phase: Phase, reg: int, ticket: int)

  /** `lock` is the task holding the spin lock, or -1. */
  datatype Sem = Sem(value: int, lock: int, queue: seq<int>)

  datatype State = State(tasks: seq<Task>, empty: Sem, full: Sem, mutex: Sem, cnt: int, clock: int, halted: bool)

  function Get(s: State, id: SemId): Sem {
    match id
    case Empty => s.empty
    case Full => s.full
    case Mutex => s.mutex
  }

  function Put(s: State, id: SemId, sem: Sem): State {
    match id
    case Empty => s.(empty := sem)
    case Full => s.(full := sem)
    case Mutex => s.(mutex := sem)
  }

  /** The semaphore a task's line is about. */
  function SemOf(t: Task): SemId {
    if t.line == 1 || t.line == 3 then Mutex
    else if (t.role == Producer) == (t.line == 0) then Empty
    else Full
  }

  predicate IsWait(t: Task) {
    t.line == 0 || t.line == 1
  }

  /** The task at the start of its next line. */
  function Advance(t: Task): Task {
    t.(line := if t.line == 4 then 0 else t.line + 1, phase := Enter)
  }

  function SetTask(s: State, i: int, t: Task): State
    requires 0 <= i < |s.tasks|
  {
    s.(tasks := s.tasks[i := t])
  }

  function Update(s: State, i: int, t: Task, id: SemId, sem: Sem): State
    requires 0 <= i < |s.tasks|
  {
    Put(SetTask(s, i, t), id, sem)
  }

  /** Task i can take a step: it does not spin on a lock and is not asleep. */
  predicate Enabled(s: State, i: int) {
    && 0 <= i < |s.tasks| && !s.halted
    && var t := s.tasks[i];
       t.phase != Asleep && (t.line != 2 && t.phase == Enter ==> Get(s, SemOf(t)).lock == -1)
  }

  /** The one step of task i. That a waiter is a task at all is checked only to keep the function total. */
  function Next(s: State, i: int): State
    requires Enabled(s, i)
  {
    var t := s.tasks[i];
    var id := SemOf(t);
    var sem := Get(s, id);
    if t.line == 2 then
      if t.phase == Enter then SetTask(s, i, t.(phase := Loaded, reg := s.cnt))
      else SetTask(s, i, Advance(t)).(cnt := if t.role == Producer then t.reg + 1 else t.reg - 1)
    else
      match t.phase
      case Enter => Update(s, i, t.(phase := Held), id, sem.(lock := i))
      case Held =>
        Update(s, i, t.(phase := Changed), id, sem.(value := if IsWait(t) then sem.value - 1 else sem.value + 1))
      case Changed =>
        if IsWait(t) then
          if sem.value >= 0 then Update(s, i, Advance(t), id, sem.(lock := -1))
          else
            Update(s, i, t.(phase := Parked, ticket := s.clock), id, sem.(queue := sem.queue + [i])).(clock := s.clock + 1)
        else
          if sem.value > 0 then Update(s, i, Advance(t), id, sem.(lock := -1))
          else if sem.queue == [] || !(0 <= sem.queue[0] < |s.tasks|) then s.(halted := true)
          else
            var u := sem.queue[0];
            var s1 := SetTask(s, u, s.tasks[u].(phase := Woken));
            Update(s1, i, t.(phase := Popped), id, sem.(queue := sem.queue[1..]))
      case Parked => Update(s, i, t.(phase := Asleep), id, sem.(lock := -1))
      case Popped => Update(s, i, Advance(t), id, sem.(lock := -1))
      case Woken => SetTask(s, i, Advance(t))
      case Asleep => s
      case Loaded => s
  }

  function Init(roles: seq<Role>): State {
    State(seq(|roles|, i requires 0 <= i < |roles| => Task(roles[i], 0, Enter, 0, 0)),
          Sem(MAXK, -1, []), Sem(0, -1, []), Sem(1, -1, []), 0, 0, false)
  }

  // --------------------------------------------------------------------------
  // The invariant: each semaphore
  // --------------------------------------------------------------------------

  /** A line and a phase that go together. */
  predicate Proper(t: Task) {
    && 0 <= t.line <= 4
    && match t.phase
       case Enter => true
       case Held => t.line != 2
       case Changed => t.line != 2
       case Parked => t.line < 2
       case Asleep => t.line < 2
       case Woken => t.line < 2
       case Popped => t.line > 2
       case Loaded => t.line == 2
  }

  predicate Holds(t: Task, id: SemId) {
    SemOf(t) == id && t.line != 2 && (t.phase == Held || t.phase == Changed || t.phase == Parked || t.phase == Popped)
  }

  predicate Waits(t: Task, id: SemId) {
    SemOf(t) == id && (t.phase == Parked || t.phase == Asleep)
  }

  /** The value without a change that is not resolved yet. */
  function Resolved(tasks: seq<Task>, sem: Sem): int {
    if 0 <= sem.lock < |tasks| && tasks[sem.lock].phase == Changed then
      if IsWait(tasks[sem.lock]) then sem.value + 1 else sem.value - 1
    else sem.value
  }

  function Neg(x: int): nat {
    if x < 0 then -x else 0
  }

  function Pos(x: int): nat {
    if x > 0 then x else 0
  }

  ghost predicate LockInv(tasks: seq<Task>, id: SemId, sem: Sem) {
    && -1 <= sem.lock < |tasks|
    && forall i :: 0 <= i < |tasks| ==> (Holds(tasks[i], id) <==> sem.lock == i)
  }

  ghost predicate QueueInv(tasks: seq<Task>, id: SemId, queue: seq<int>, clock: int) {
    && (forall k :: 0 <= k < |queue| ==> 0 <= queue[k] < |tasks| && tasks[queue[k]].ticket < clock)
    && (forall i :: 0 <= i < |tasks| ==> (Waits(tasks[i], id) <==> i in queue))
    && (forall j, k :: 0 <= j < k < |queue| ==>
          0 <= queue[j] < |tasks| && 0 <= queue[k] < |tasks| && Sooner(tasks, queue[j], queue[k]))
  }

  ghost predicate Sooner(tasks: seq<Task>, i: int, j: int)
    requires 0 <= i < |tasks| && 0 <= j < |tasks|
  {
    tasks[i].ticket < tasks[j].ticket
  }

  /** Waiters are exactly the tasks asleep on it, longest first, and as many as the value is below zero. */
  ghost predicate SemInv(tasks: seq<Task>, id: SemId, sem: Sem, clock: int) {
    LockInv(tasks, id, sem) && QueueInv(tasks, id, sem.queue, clock) && |sem.queue| == Neg(Resolved(tasks, sem))
  }

  // --------------------------------------------------------------------------
  // The invariant: tokens
  // --------------------------------------------------------------------------

  /** Between being granted the mutex and giving it back. */
  function InMutex(t: Task): nat {
    if (t.line == 1 && t.phase == Woken) || t.line == 2
       || (t.line == 3 && (t.phase == Enter || t.phase == Held || t.phase == Changed))
    then 1 else 0
  }

  /** Between being granted the first semaphore and changing the counter. */
  predicate Before(t: Task) {
    (t.line == 0 && t.phase == Woken) || t.line == 1 || t.line == 2
  }

  /** Between changing the counter and signalling the last semaphore. */
  predicate After(t: Task) {
    t.line == 3 || (t.line == 4 && (t.phase == Enter || t.phase == Held || t.phase == Changed))
  }

  /** The task holds a free place of the buffer. */
  function HasPlace(t: Task): nat {
    if (if t.role == Producer then Before(t) else After(t)) then 1 else 0
  }

  /** The task holds an item that is counted. */
  function HasItem(t: Task): nat {
    if (if t.role == Producer then After(t) else Before(t)) then 1 else 0
  }

  function Sum(tasks: seq<Task>, w: Task -> nat): nat {
    if tasks == [] then 0 else Sum(tasks[..|tasks| - 1], w) + w(tasks[|tasks| - 1])
  }

  ghost predicate Tokens(s: State) {
    && Pos(Resolved(s.tasks, s.mutex)) + Sum(s.tasks, InMutex) == 1
    && Pos(Resolved(s.tasks, s.empty)) + Sum(s.tasks, HasPlace) + s.cnt == MAXK
    && Pos(Resolved(s.tasks, s.full)) + Sum(s.tasks, HasItem) == s.cnt
  }

  ghost predicate Tasks(s: State) {
    forall i :: 0 <= i < |s.tasks| ==>
      Proper(s.tasks[i]) && (s.tasks[i].phase == Loaded ==> s.tasks[i].reg == s.cnt)
  }

  ghost predicate Inv(s: State) {
    && !s.halted && Tasks(s) && Tokens(s)
    && SemInv(s.tasks, Empty, s.empty, s.clock) && SemInv(s.tasks, Full, s.full, s.clock)
    && SemInv(s.tasks, Mutex, s.mutex, s.clock)
  }

  // --------------------------------------------------------------------------
  // Sums
  // --------------------------------------------------------------------------

  lemma {:induction false} SumUpdate(tasks: seq<Task>, w: Task -> nat, i: int, t: Task)
    requires 0 <= i < |tasks|
    ensures Sum(tasks[i := t], w) == Sum(tasks, w) - w(tasks[i]) + w(t)
  {
    var n := |tasks| - 1;
    if i == n {
      assert tasks[i := t][..n] == tasks[..n];
    } else {
      assert tasks[i := t][..n] == tasks[..n][i := t];
      SumUpdate(tasks[..n], w, i, t);
    }
  }

  /** Two tasks with a token make a sum of at least two. */
  lemma {:induction false} SumTwo(tasks: seq<Task>, w: Task -> nat, i: int, j: int)
    requires 0 <= i < |tasks| && 0 <= j < |tasks| && i != j
    ensures Sum(tasks, w) >= w(tasks[i]) + w(tasks[j])
  {
    var n := |tasks| - 1;
    if i == n {
      SumOne(tasks[..n], w, j);
    } else if j == n {
      SumOne(tasks[..n], w, i);
    } else {
      SumTwo(tasks[..n], w, i, j);
    }
  }

  lemma {:induction false} SumOne(tasks: seq<Task>, w: Task -> nat, i: int)
    requires 0 <= i < |tasks|
    ensures Sum(tasks, w) >= w(tasks[i])
  {
    if i < |tasks| - 1 {
      SumOne(tasks[..|tasks| - 1], w, i);
    }
  }

  lemma {:induction false} SumZero(tasks: seq<Task>, w: Task -> nat)
    requires forall i :: 0 <= i < |tasks| ==> w(tasks[i]) == 0
    ensures Sum(tasks, w) == 0
  {
    if tasks != [] {
      SumZero(tasks[..|tasks| - 1], w);
    }
  }

  // --------------------------------------------------------------------------
  // Steps and one semaphore
  // --------------------------------------------------------------------------

  /** A task that has nothing to do with a semaphore, before or after, leaves its invariant alone. */
  lemma OtherSem(tasks: seq<Task>, i: int, t: Task, id: SemId, sem: Sem, clock: int, clock': int)
    requires SemInv(tasks, id, sem, clock) && 0 <= i < |tasks| && clock <= clock'
    requires !Holds(tasks[i], id) && !Waits(tasks[i], id) && !Holds(t, id) && !Waits(t, id)
    ensures SemInv(tasks[i := t], id, sem, clock')
  {
    var tasks' := tasks[i := t];
    assert i !in sem.queue;
    forall j, k | 0 <= j < k < |sem.queue|
      ensures 0 <= sem.queue[j] < |tasks'| && 0 <= sem.queue[k] < |tasks'| && Sooner(tasks', sem.queue[j], sem.queue[k])
    {
      assert Sooner(tasks, sem.queue[j], sem.queue[k]);
    }
  }

  /** A task that keeps its place in the queue, if it has one. */
  lemma SameQueue(tasks: seq<Task>, i: int, t: Task, id: SemId, queue: seq<int>, clock: int)
    requires QueueInv(tasks, id, queue, clock) && 0 <= i < |tasks|
    requires (Waits(t, id) <==> Waits(tasks[i], id)) && t.ticket == tasks[i].ticket
    ensures QueueInv(tasks[i := t], id, queue, clock)
  {
    var tasks' := tasks[i := t];
    forall j, k | 0 <= j < k < |queue|
      ensures 0 <= queue[j] < |tasks'| && 0 <= queue[k] < |tasks'| && Sooner(tasks', queue[j], queue[k])
    {
      assert Sooner(tasks, queue[j], queue[k]);
    }
  }

  /** Taking the lock, changing the value and releasing the lock keep the queue; Resolved decides. */
  lemma LockStep(tasks: seq<Task>, i: int, t: Task, id: SemId, sem: Sem, sem': Sem, clock: int)
    requires SemInv(tasks, id, sem, clock) && 0 <= i < |tasks| && sem'.queue == sem.queue
    requires sem.lock == -1 || sem.lock == i
    requires sem'.lock == if Holds(t, id) then i else -1
    requires (Waits(t, id) <==> Waits(tasks[i], id)) && t.ticket == tasks[i].ticket
    requires Neg(Resolved(tasks[i := t], sem')) == Neg(Resolved(tasks, sem))
    ensures SemInv(tasks[i := t], id, sem', clock)
  {
    SameQueue(tasks, i, t, id, sem.queue, clock);
  }

  /** Queueing puts the task behind all others. */
  lemma ParkStep(tasks: seq<Task>, i: int, t: Task, id: SemId, sem: Sem, clock: int)
    requires SemInv(tasks, id, sem, clock) && 0 <= i < |tasks| && sem.lock == i && sem.value < 0
    requires tasks[i].phase == Changed && IsWait(tasks[i]) && !Waits(tasks[i], id)
    requires t == tasks[i].(phase := Parked, ticket := clock)
    ensures SemInv(tasks[i := t], id, sem.(queue := sem.queue + [i]), clock + 1)
  {
    var tasks', queue' := tasks[i := t], sem.queue + [i];
    assert i !in sem.queue;
    forall j, k | 0 <= j < k < |queue'|
      ensures 0 <= queue'[j] < |tasks'| && 0 <= queue'[k] < |tasks'| && Sooner(tasks', queue'[j], queue'[k])
    {
      if k < |sem.queue| {
        assert Sooner(tasks, sem.queue[j], sem.queue[k]);
      }
    }
  }

  lemma HeadOnce(tasks: seq<Task>, id: SemId, queue: seq<int>, clock: int)
    requires QueueInv(tasks, id, queue, clock) && queue != []
    ensures queue[0] !in queue[1..] && 0 <= queue[0] < |tasks| && Waits(tasks[queue[0]], id)
  {
    forall k | 0 <= k < |queue| - 1
      ensures queue[1..][k] != queue[0]
    {
      assert Sooner(tasks, queue[0], queue[k + 1]);
    }
    assert queue[0] in queue;
  }

  lemma PopQueue(tasks: seq<Task>, i: int, t: Task, id: SemId, queue: seq<int>, clock: int)
    requires QueueInv(tasks, id, queue, clock) && queue != [] && 0 <= i < |tasks|
    requires !Waits(tasks[i], id) && !Waits(t, id)
    ensures 0 <= queue[0] < |tasks| && queue[0] != i
    ensures QueueInv(tasks[queue[0] := tasks[queue[0]].(phase := Woken)][i := t], id, queue[1..], clock)
  {
    HeadOnce(tasks, id, queue, clock);
    var u, queue' := queue[0], queue[1..];
    var tasks' := tasks[u := tasks[u].(phase := Woken)][i := t];
    assert i !in queue;
    forall j, k | 0 <= j < k < |queue'|
      ensures 0 <= queue'[j] < |tasks'| && 0 <= queue'[k] < |tasks'| && Sooner(tasks', queue'[j], queue'[k])
    {
      assert Sooner(tasks, queue[j + 1], queue[k + 1]);
      assert queue'[j] in queue' && queue'[k] in queue';
    }
    forall x | 0 <= x < |tasks'|
      ensures Waits(tasks'[x], id) <==> x in queue'
    {
      assert x in queue <==> x == u || x in queue';
    }
  }

  /** Waking takes the longest waiter off the queue; with the invariant there is one. */
  lemma PopStep(tasks: seq<Task>, i: int, t: Task, id: SemId, sem: Sem, clock: int)
    requires SemInv(tasks, id, sem, clock) && 0 <= i < |tasks| && sem.lock == i && sem.value <= 0
    requires forall x :: 0 <= x < |tasks| ==> Proper(tasks[x])
    requires tasks[i].phase == Changed && !IsWait(tasks[i]) && Holds(tasks[i], id)
    requires t == tasks[i].(phase := Popped)
    ensures sem.queue != [] && 0 <= sem.queue[0] < |tasks| && sem.queue[0] != i
    ensures var u := tasks[sem.queue[0]]; u.phase == Asleep && SemOf(u) == id
    ensures SemInv(tasks[sem.queue[0] := tasks[sem.queue[0]].(phase := Woken)][i := t], id, sem.(queue := sem.queue[1..]), clock)
  {
    hide QueueInv;
    var u := sem.queue[0];
    PopQueue(tasks, i, t, id, sem.queue, clock);
    HeadOnce(tasks, id, sem.queue, clock);
    assert !Holds(tasks[u], id);
    var tasks' := tasks[u := tasks[u].(phase := Woken)][i := t];
    forall x | 0 <= x < |tasks'|
      ensures Holds(tasks'[x], id) <==> sem.lock == x
    {
    }
  }

  // --------------------------------------------------------------------------
  // Steps and the whole invariant
  // --------------------------------------------------------------------------

  function Weight(t: Task, id: SemId): nat {
    match id
    case Empty => HasPlace(t)
    case Full => HasItem(t)
    case Mutex => InMutex(t)
  }

  lemma Sums(tasks: seq<Task>, i: int, t: Task)
    requires 0 <= i < |tasks|
    ensures Sum(tasks[i := t], HasPlace) == Sum(tasks, HasPlace) - HasPlace(tasks[i]) + HasPlace(t)
    ensures Sum(tasks[i := t], HasItem) == Sum(tasks, HasItem) - HasItem(tasks[i]) + HasItem(t)
    ensures Sum(tasks[i := t], InMutex) == Sum(tasks, InMutex) - InMutex(tasks[i]) + InMutex(t)
  {
    SumUpdate(tasks, HasPlace, i, t);
    SumUpdate(tasks, HasItem, i, t);
    SumUpdate(tasks, InMutex, i, t);
  }

  lemma ResolvedOther(tasks: seq<Task>, i: int, t: Task, id: SemId, sem: Sem)
    requires LockInv(tasks, id, sem) && 0 <= i < |tasks| && !Holds(tasks[i], id)
    ensures Resolved(tasks[i := t], sem) == Resolved(tasks, sem)
  {
  }

  lemma EachSem(s: State, id: SemId)
    requires Inv(s)
    ensures SemInv(s.tasks, id, Get(s, id), s.clock)
  {
    hide SemInv, Tasks, Tokens;
  }

  /** A task that only looks at another semaphore, or at none. */
  predicate Apart(t: Task, id: SemId) {
    !Holds(t, id) && !Waits(t, id)
  }

  predicate ApartBut(t: Task, id: SemId) {
    (id == Empty || Apart(t, Empty)) && (id == Full || Apart(t, Full)) && (id == Mutex || Apart(t, Mutex))
  }

  predicate SameWeightBut(t: Task, t': Task, id: SemId) {
    && (id == Empty || HasPlace(t) == HasPlace(t')) && (id == Full || HasItem(t) == HasItem(t'))
    && (id == Mutex || InMutex(t) == InMutex(t'))
  }

  lemma OtherKept(s: State, i: int, t: Task, other: SemId, clock: int)
    requires Inv(s) && 0 <= i < |s.tasks| && Apart(s.tasks[i], other) && Apart(t, other) && s.clock <= clock
    ensures SemInv(s.tasks[i := t], other, Get(s, other), clock)
    ensures Resolved(s.tasks[i := t], Get(s, other)) == Resolved(s.tasks, Get(s, other))
  {
    hide LockInv, QueueInv, Resolved, Holds, Waits, Neg;
    EachSem(s, other);
    OtherSem(s.tasks, i, t, other, Get(s, other), s.clock, clock);
    ResolvedOther(s.tasks, i, t, other, Get(s, other));
  }

  /** The step of task i to t on semaphore id, everything about id given. */
  lemma Assemble(s: State, i: int, t: Task, id: SemId, sem: Sem, clock: int)
    requires Inv(s) && 0 <= i < |s.tasks| && Proper(t) && t.phase != Loaded && s.clock <= clock
    requires ApartBut(s.tasks[i], id) && ApartBut(t, id) && SameWeightBut(s.tasks[i], t, id)
    requires SemInv(s.tasks[i := t], id, sem, clock)
    requires Pos(Resolved(s.tasks[i := t], sem)) + Weight(t, id) == Pos(Resolved(s.tasks, Get(s, id))) + Weight(s.tasks[i], id)
    ensures Inv(Update(s, i, t, id, sem).(clock := clock))
  {
    hide SemInv, Resolved, Apart, HasPlace, HasItem, InMutex, Sum, Pos, Proper;
    Sums(s.tasks, i, t);
    if id != Empty {
      OtherKept(s, i, t, Empty, clock);
    }
    if id != Full {
      OtherKept(s, i, t, Full, clock);
    }
    if id != Mutex {
      OtherKept(s, i, t, Mutex, clock);
    }
  }

  /** A step of task i on semaphore id that leaves the queue alone. */
  lemma LockUpdate(s: State, i: int, t: Task, id: SemId, sem: Sem)
    requires Inv(s) && 0 <= i < |s.tasks| && Proper(t) && t.phase != Loaded && t.ticket == s.tasks[i].ticket
    requires ApartBut(s.tasks[i], id) && ApartBut(t, id) && SameWeightBut(s.tasks[i], t, id)
    requires sem.queue == Get(s, id).queue && (Get(s, id).lock == -1 || Get(s, id).lock == i)
    requires sem.lock == if Holds(t, id) then i else -1
    requires Waits(t, id) <==> Waits(s.tasks[i], id)
    requires var r, r' := Resolved(s.tasks, Get(s, id)), Resolved(s.tasks[i := t], sem);
      Neg(r') == Neg(r) && Pos(r') + Weight(t, id) == Pos(r) + Weight(s.tasks[i], id)
    ensures Inv(Update(s, i, t, id, sem))
  {
    hide LockInv, QueueInv, Resolved, Holds, Waits, HasPlace, HasItem, InMutex, Sum, Neg, Pos, Proper, Apart, Tokens, Tasks;
    EachSem(s, id);
    LockStep(s.tasks, i, t, id, Get(s, id), sem, s.clock);
    Assemble(s, i, t, id, sem, s.clock);
  }

  lemma Mine(s: State, i: int)
    requires Inv(s) && 0 <= i < |s.tasks|
    ensures var t := s.tasks[i];
      Proper(t) && (Holds(t, SemOf(t)) <==> Get(s, SemOf(t)).lock == i) && ApartBut(t, SemOf(t))
  {
    EachSem(s, SemOf(s.tasks[i]));
  }

  lemma StepAcquire(s: State, i: int)
    requires Inv(s) && Enabled(s, i) && s.tasks[i].line != 2 && s.tasks[i].phase == Enter
    ensures Inv(Next(s, i))
  {
    hide Inv, SemInv, Sum;
    Mine(s, i);
    var t := s.tasks[i];
    LockUpdate(s, i, t.(phase := Held), SemOf(t), Get(s, SemOf(t)).(lock := i));
  }

  lemma StepHeld(s: State, i: int)
    requires Inv(s) && Enabled(s, i) && s.tasks[i].line != 2 && s.tasks[i].phase == Held
    ensures Inv(Next(s, i))
  {
    hide Inv, SemInv, Sum;
    Mine(s, i);
    var t := s.tasks[i];
    var sem := Get(s, SemOf(t));
    LockUpdate(s, i, t.(phase := Changed), SemOf(t), sem.(value := if IsWait(t) then sem.value - 1 else sem.value + 1));
  }

  lemma StepRelease(s: State, i: int)
    requires Inv(s) && Enabled(s, i) && s.tasks[i].line != 2
    requires var t := s.tasks[i];
      || t.phase == Parked || t.phase == Popped
      || (t.phase == Changed && if IsWait(t) then Get(s, SemOf(t)).value >= 0 else Get(s, SemOf(t)).value > 0)
    ensures Inv(Next(s, i))
  {
    hide Inv, SemInv, Sum;
    Mine(s, i);
    var t := s.tasks[i];
    var t' := if t.phase == Parked then t.(phase := Asleep) else Advance(t);
    LockUpdate(s, i, t', SemOf(t), Get(s, SemOf(t)).(lock := -1));
  }

  lemma StepPark(s: State, i: int)
    requires Inv(s) && Enabled(s, i) && s.tasks[i].line != 2 && s.tasks[i].phase == Changed
    requires IsWait(s.tasks[i]) && Get(s, SemOf(s.tasks[i])).value < 0
    ensures Inv(Next(s, i))
  {
    hide Inv, SemInv, Sum;
    Mine(s, i);
    var t := s.tasks[i];
    var id := SemOf(t);
    EachSem(s, id);
    var t' := t.(phase := Parked, ticket := s.clock);
    ParkStep(s.tasks, i, t', id, Get(s, id), s.clock);
    Assemble(s, i, t', id, Get(s, id).(queue := Get(s, id).queue + [i]), s.clock + 1);
  }

  lemma StepPop(s: State, i: int)
    requires Inv(s) && Enabled(s, i) && s.tasks[i].line != 2 && s.tasks[i].phase == Changed
    requires !IsWait(s.tasks[i]) && Get(s, SemOf(s.tasks[i])).value <= 0
    ensures Inv(Next(s, i))
  {
    hide SemInv, Sum, Proper;
    Mine(s, i);
    var t := s.tasks[i];
    var id := SemOf(t);
    var sem := Get(s, id);
    EachSem(s, id);
    SignalProper(t);
    PopStep(s.tasks, i, t.(phase := Popped), id, sem, s.clock);
    PopTwo(s, i, sem.queue[0], id);
  }

  lemma SignalProper(t: Task)
    requires Proper(t) && t.phase == Changed && !IsWait(t)
    ensures Holds(t, SemOf(t)) && Proper(t.(phase := Popped)) && t.line > 2
  {
  }

  /** A signal that wakes u: both tasks change, and the token passes from one to the other. */
  lemma PopTwo(s: State, i: int, u: int, id: SemId)
    requires Inv(s) && 0 <= i < |s.tasks| && 0 <= u < |s.tasks| && u != i
    requires var t, sem := s.tasks[i], Get(s, id);
      && t.phase == Changed && t.line > 2 && Proper(t) && SemOf(t) == id && sem.lock == i && sem.value <= 0
      && sem.queue != [] && sem.queue[0] == u && s.tasks[u].phase == Asleep && SemOf(s.tasks[u]) == id
      && SemInv(s.tasks[u := s.tasks[u].(phase := Woken)][i := t.(phase := Popped)], id, sem.(queue := sem.queue[1..]), s.clock)
    ensures Inv(Next(s, i))
  {
    hide SemInv, Sum, LockInv, QueueInv;
    var t, w, sem := s.tasks[i].(phase := Popped), s.tasks[u].(phase := Woken), Get(s, id);
    assert Proper(s.tasks[u]);
    var tasks1 := s.tasks[u := w];
    Sums(s.tasks, u, w);
    Sums(tasks1, i, t);
    if id != Empty {
      BothApart(s, u, w, i, t, Empty);
    }
    if id != Full {
      BothApart(s, u, w, i, t, Full);
    }
    if id != Mutex {
      BothApart(s, u, w, i, t, Mutex);
    }
  }

  lemma BothApart(s: State, u: int, w: Task, i: int, t: Task, other: SemId)
    requires Inv(s) && 0 <= i < |s.tasks| && 0 <= u < |s.tasks| && u != i
    requires SemOf(s.tasks[i]) != other && SemOf(s.tasks[u]) != other && SemOf(w) != other && SemOf(t) != other
    ensures SemInv(s.tasks[u := w][i := t], other, Get(s, other), s.clock)
    ensures Resolved(s.tasks[u := w][i := t], Get(s, other)) == Resolved(s.tasks, Get(s, other))
  {
    hide LockInv, QueueInv, Resolved;
    EachSem(s, other);
    OtherSem(s.tasks, u, w, other, Get(s, other), s.clock, s.clock);
    ResolvedOther(s.tasks, u, w, other, Get(s, other));
    OtherSem(s.tasks[u := w], i, t, other, Get(s, other), s.clock, s.clock);
    ResolvedOther(s.tasks[u := w], i, t, other, Get(s, other));
  }

  /** Steps away from the semaphores: resuming after a wake-up and reading the counter. */
  lemma StepFree(s: State, i: int)
    requires Inv(s) && Enabled(s, i)
    requires s.tasks[i].phase == Woken || (s.tasks[i].line == 2 && s.tasks[i].phase == Enter)
    ensures Inv(Next(s, i))
  {
    hide SemInv, Sum, Resolved;
    var t := s.tasks[i];
    var t' := if t.phase == Woken then Advance(t) else t.(phase := Loaded, reg := s.cnt);
    Sums(s.tasks, i, t');
    OtherKept(s, i, t', Empty, s.clock);
    OtherKept(s, i, t', Full, s.clock);
    OtherKept(s, i, t', Mutex, s.clock);
  }

  /** Mutual exclusion: no two tasks are inside the critical section. */
  lemma MutualExclusion(s: State, i: int, j: int)
    requires Inv(s) && 0 <= i < |s.tasks| && 0 <= j < |s.tasks| && i != j
    requires s.tasks[i].line == 2
    ensures s.tasks[j].line != 2
  {
    SumTwo(s.tasks, InMutex, i, j);
  }

  lemma StepWrite(s: State, i: int)
    requires Inv(s) && Enabled(s, i) && s.tasks[i].line == 2 && s.tasks[i].phase == Loaded
    ensures Inv(Next(s, i))
  {
    hide SemInv, Sum, Resolved;
    var t := s.tasks[i];
    var t' := Advance(t);
    Sums(s.tasks, i, t');
    OtherKept(s, i, t', Empty, s.clock);
    OtherKept(s, i, t', Full, s.clock);
    OtherKept(s, i, t', Mutex, s.clock);
    forall j | 0 <= j < |s.tasks| && j != i
      ensures s.tasks[j].phase != Loaded
    {
      MutualExclusion(s, i, j);
      assert Proper(s.tasks[j]);
    }
  }

  /** Every step of every task keeps the invariant. */
  lemma StepInv(s: State, i: int)
    requires Inv(s) && Enabled(s, i)
    ensures Inv(Next(s, i))
  {
    hide SemInv, Sum, Tokens, Next;
    var t := s.tasks[i];
    assert Proper(t);
    if t.phase == Woken || (t.line == 2 && t.phase == Enter) {
      StepFree(s, i);
    } else if t.line == 2 {
      StepWrite(s, i);
    } else if t.phase == Enter {
      StepAcquire(s, i);
    } else if t.phase == Held {
      StepHeld(s, i);
    } else if t.phase == Changed && IsWait(t) && Get(s, SemOf(t)).value < 0 {
      StepPark(s, i);
    } else if t.phase == Changed && !IsWait(t) && Get(s, SemOf(t)).value <= 0 {
      StepPop(s, i);
    } else {
      StepRelease(s, i);
    }
  }

  // --------------------------------------------------------------------------
  // Runs
  // --------------------------------------------------------------------------

  lemma InitSem(tasks: seq<Task>, id: SemId, value: nat)
    requires forall i :: 0 <= i < |tasks| ==> tasks[i].phase == Enter
    ensures SemInv(tasks, id, Sem(value, -1, []), 0) && Resolved(tasks, Sem(value, -1, [])) == value
  {
  }

  lemma InitInv(roles: seq<Role>)
    ensures Inv(Init(roles))
  {
    hide SemInv, Sum, Resolved;
    var s := Init(roles);
    InitSem(s.tasks, Empty, MAXK);
    InitSem(s.tasks, Full, 0);
    InitSem(s.tasks, Mutex, 1);
    SumZero(s.tasks, InMutex);
    SumZero(s.tasks, HasPlace);
    SumZero(s.tasks, HasItem);
  }

  /** A schedule: which task takes the next step, each enabled when its turn comes. */
  predicate Schedules(s: State, sched: seq<int>)
    decreases |sched|
  {
    sched == [] || (Enabled(s, sched[0]) && Schedules(Next(s, sched[0]), sched[1..]))
  }

  function Run(s: State, sched: seq<int>): State
    requires Schedules(s, sched)
    decreases |sched|
  {
    if sched == [] then s else Run(Next(s, sched[0]), sched[1..])
  }

  lemma {:induction false} RunInv(s: State, sched: seq<int>)
    requires Inv(s) && Schedules(s, sched)
    ensures Inv(Run(s, sched))
    decreases |sched|
  {
    if sched != [] {
      StepInv(s, sched[0]);
      RunInv(Next(s, sched[0]), sched[1..]);
    }
  }

  /** Whatever the number of tasks and however they interleave: the buffer neither overflows nor underflows, the
      halt of wakeup is not reached, and a semaphore whose lock is free has exactly max(0, -value) waiters. */
  lemma Safety(roles: seq<Role>, sched: seq<int>, id: SemId)
    requires Schedules(Init(roles), sched)
    ensures var s := Run(Init(roles), sched);
      && 0 <= s.cnt <= MAXK && !s.halted
      && (Get(s, id).lock == -1 ==> |Get(s, id).queue| == Neg(Get(s, id).value))
      && forall k :: 0 <= k < |Get(s, id).queue| ==> 0 <= Get(s, id).queue[k] < |s.tasks|
  {
    InitInv(roles);
    RunInv(Init(roles), sched);
    EachSem(Run(Init(roles), sched), id);
  }

  /** The step of task i wakes task u, which sleeps on the semaphore i signals. */
  predicate WokenBy(s: State, i: int, u: int)
    requires Enabled(s, i) && 0 <= u < |s.tasks| && u < |Next(s, i).tasks|
  {
    && s.tasks[u].phase == Asleep && SemOf(s.tasks[u]) == SemOf(s.tasks[i]) && Next(s, i).tasks[u].phase == Woken
  }

  /** A signal wakes the task that has waited longest on the semaphore. */
  lemma WakesLongest(s: State, i: int, j: int)
    requires Inv(s) && Enabled(s, i) && s.tasks[i].phase == Changed && s.tasks[i].line > 2
    requires Get(s, SemOf(s.tasks[i])).value <= 0
    requires 0 <= j < |s.tasks| && Waits(s.tasks[j], SemOf(s.tasks[i]))
    ensures exists u :: 0 <= u < |s.tasks| && WokenBy(s, i, u) && (u == j || s.tasks[u].ticket < s.tasks[j].ticket)
  {
    var id := SemOf(s.tasks[i]);
    var sem := Get(s, id);
    EachSem(s, id);
    SignalProper(s.tasks[i]);
    PopStep(s.tasks, i, s.tasks[i].(phase := Popped), id, sem, s.clock);
    var u := sem.queue[0];
    assert j in sem.queue;
    var k :| 0 <= k < |sem.queue| && sem.queue[k] == j;
    if k > 0 {
      assert Sooner(s.tasks, sem.queue[0], sem.queue[k]);
    }
    assert WokenBy(s, i, u);
  }

  /** Task i is about to decide a signal on the semaphore: whether there is anybody to wake. */
  predicate Signals(s: State, i: int, id: SemId) {
    0 <= i < |s.tasks| && s.tasks[i].phase == Changed && s.tasks[i].line > 2 && SemOf(s.tasks[i]) == id
  }

  /** How many signals on the semaphore a schedule decides. */
  function SignalCount(s: State, sched: seq<int>, id: SemId): nat
    requires Schedules(s, sched)
    decreases |sched|
  {
    if sched == [] then 0
    else (if Signals(s, sched[0], id) then 1 else 0) + SignalCount(Next(s, sched[0]), sched[1..], id)
  }

  /** A signal moves every waiter up one place, or wakes it at the front; no other step moves a waiter. */
  lemma PlaceInQueue(s: State, i: int, id: SemId, k: nat)
    requires Inv(s) && Enabled(s, i) && k < |Get(s, id).queue|
    ensures var q, q' := Get(s, id).queue, Get(Next(s, i), id).queue;
      && 0 <= q[k] < |s.tasks| == |Next(s, i).tasks|
      && (!Signals(s, i, id) ==> k < |q'| && q'[k] == q[k])
      && (Signals(s, i, id) && k > 0 ==> k <= |q'| && q'[k - 1] == q[k])
      && (Signals(s, i, id) && k == 0 ==> Next(s, i).tasks[q[k]].phase == Woken)
  {
    hide Inv, Next, QueueInv, LockInv, Resolved;
    EachSem(s, id);
    QueueInside(s.tasks, id, Get(s, id).queue, s.clock, k);
    Mine(s, i);
    if Signals(s, i, id) {
      SignalMoves(s, i, id);
    } else {
      QueueGrows(s, i, id);
    }
  }

  lemma QueueInside(tasks: seq<Task>, id: SemId, queue: seq<int>, clock: int, k: nat)
    requires QueueInv(tasks, id, queue, clock) && k < |queue|
    ensures 0 <= queue[k] < |tasks|
  {
  }

  lemma QueueGrows(s: State, i: int, id: SemId)
    requires Enabled(s, i) && Proper(s.tasks[i]) && !Signals(s, i, id)
    ensures Get(s, id).queue <= Get(Next(s, i), id).queue && |Next(s, i).tasks| == |s.tasks|
  {
  }

  lemma SignalMoves(s: State, i: int, id: SemId)
    requires Inv(s) && Enabled(s, i) && Signals(s, i, id) && Get(s, id).queue != []
    ensures Get(Next(s, i), id).queue == Get(s, id).queue[1..] && |Next(s, i).tasks| == |s.tasks|
    ensures var u := Get(s, id).queue[0]; 0 <= u < |s.tasks| && Next(s, i).tasks[u].phase == Woken
  {
    hide Inv, SemInv;
    PendingSignal(s, i, id);
    SignalReady(s, i);
  }

  /** While somebody waits a signal finds the value at or below zero. */
  lemma PendingSignal(s: State, i: int, id: SemId)
    requires Inv(s) && Signals(s, i, id) && Get(s, id).queue != []
    ensures Get(s, id).value <= 0 && Get(s, id).lock == i
  {
    EachSem(s, id);
    Mine(s, i);
  }

  /** Bounded waiting: a waiter with k others in front of it keeps its turn, and the signal k + 1 wakes it. */
  lemma {:induction false} BoundedWaiting(s: State, sched: seq<int>, id: SemId, k: nat) returns (n: nat)
    requires Inv(s) && Schedules(s, sched) && k < |Get(s, id).queue|
    ensures var x, c := Get(s, id).queue[k], SignalCount(s, sched, id);
      && (c <= k ==> k - c < |Get(Run(s, sched), id).queue| && Get(Run(s, sched), id).queue[k - c] == x)
      && (c > k ==> && n <= |sched| && Schedules(s, sched[..n]) && SignalCount(s, sched[..n], id) == k + 1
                    && 0 <= x < |Run(s, sched[..n]).tasks| && Run(s, sched[..n]).tasks[x].phase == Woken)
    decreases |sched|
  {
    hide Inv, Next, Enabled, Signals;
    n := 0;
    if sched != [] {
      var i := sched[0];
      StepInv(s, i);
      PlaceInQueue(s, i, id, k);
      if Signals(s, i, id) && k == 0 {
        n := 1;
        assert sched[..1] == [i] && [i][1..] == [];
      } else {
        var m := BoundedWaiting(Next(s, i), sched[1..], id, if Signals(s, i, id) then k - 1 else k);
        n := m + 1;
        if m < |sched| {
          assert sched[..n][0] == i && sched[..n][1..] == sched[1..][..m];
        }
      }
    }
  }

  /** With a producer and a consumer some task can always take a step. */
  lemma NoDeadlock(s: State, p: int, c: int) returns (i: int)
    requires Inv(s) && 0 <= p < |s.tasks| && 0 <= c < |s.tasks|
    requires s.tasks[p].role == Producer && s.tasks[c].role == Consumer
    ensures Enabled(s, i)
  {
    if j :| 0 <= j < |s.tasks| && s.tasks[j].phase != Asleep {
      var id := SemOf(s.tasks[j]);
      EachSem(s, id);
      if Enabled(s, j) {
        i := j;
      } else {
        i := Get(s, id).lock;
        assert Holds(s.tasks[i], id);
      }
    } else {
      NotAllAsleep(s, p, c);
      i := 0;
    }
  }

  lemma AllAtFirst(s: State)
    requires Inv(s) && forall j :: 0 <= j < |s.tasks| ==> s.tasks[j].phase == Asleep
    ensures forall j :: 0 <= j < |s.tasks| ==> s.tasks[j].line == 0
  {
    hide LockInv, Sum, Resolved;
    forall j | 0 <= j < |s.tasks|
      ensures InMutex(s.tasks[j]) == 0
    {
      assert Proper(s.tasks[j]);
    }
    SumZero(s.tasks, InMutex);
    forall j | 0 <= j < |s.tasks|
      ensures s.tasks[j].line == 0
    {
      assert Proper(s.tasks[j]);
      assert !Waits(s.tasks[j], Mutex);
    }
  }

  lemma NoneLeft(s: State, j: int, id: SemId)
    requires Inv(s) && 0 <= j < |s.tasks| && Waits(s.tasks[j], id)
    ensures Pos(Resolved(s.tasks, Get(s, id))) == 0
  {
    EachSem(s, id);
    assert j in Get(s, id).queue;
  }

  lemma NotAllAsleep(s: State, p: int, c: int)
    requires Inv(s) && 0 <= p < |s.tasks| && 0 <= c < |s.tasks|
    requires s.tasks[p].role == Producer && s.tasks[c].role == Consumer
    ensures exists j :: 0 <= j < |s.tasks| && s.tasks[j].phase != Asleep
  {
    hide SemInv, Sum, Resolved;
    if forall j :: 0 <= j < |s.tasks| ==> s.tasks[j].phase == Asleep {
      AllAtFirst(s);
      SumZero(s.tasks, HasPlace);
      SumZero(s.tasks, HasItem);
      NoneLeft(s, p, Empty);
      NoneLeft(s, c, Full);
    }
  }

  // --------------------------------------------------------------------------
  // Progress
  // --------------------------------------------------------------------------

  /** The steps a task can still take on its line. */
  function OnLine(t: Task): nat {
    match t.phase
    case Enter => if t.line == 2 then 1 else if IsWait(t) then 5 else 4
    case Held => if IsWait(t) then 4 else 3
    case Changed => if IsWait(t) then 3 else 2
    case Parked => 2
    case Asleep => 1
    case Woken => 1
    case Popped => 1
    case Loaded => 0
  }

  /** The steps a task can still take before it writes the counter. */
  function Left(t: Task): (n: nat)
    ensures Proper(t) ==> n <= 19
  {
    OnLine(t) + if t.line == 3 then 15 else if t.line == 4 then 11 else if t.line == 0 then 6 else if t.line == 1 then 1 else 0
  }

  /** The step of task i writes the counter. */
  predicate Writes(s: State, i: int) {
    0 <= i < |s.tasks| && s.tasks[i].line == 2 && s.tasks[i].phase == Loaded
  }

  /** Every other step uses up one of the steps that are left. */
  lemma StepUsesUp(s: State, i: int)
    requires Inv(s) && Enabled(s, i) && !Writes(s, i)
    ensures Sum(Next(s, i).tasks, Left) < Sum(s.tasks, Left) && |Next(s, i).tasks| == |s.tasks|
  {
    hide Inv, SemInv, Sum;
    Mine(s, i);
    var t := s.tasks[i];
    if t.phase == Changed && !IsWait(t) && Get(s, SemOf(t)).value <= 0 {
      PopUsesUp(s, i);
    } else {
      var t' := OneTask(s, i);
      SumUpdate(s.tasks, Left, i, t');
    }
  }

  /** All steps but a waking one change the task that takes them only. */
  lemma OneTask(s: State, i: int) returns (t': Task)
    requires Enabled(s, i) && Proper(s.tasks[i]) && !Writes(s, i)
    requires var t := s.tasks[i]; !(t.phase == Changed && !IsWait(t) && t.line != 2 && Get(s, SemOf(t)).value <= 0)
    ensures Next(s, i).tasks == s.tasks[i := t'] && Left(t') < Left(s.tasks[i])
  {
    t' := Next(s, i).tasks[i];
  }

  lemma PopUsesUp(s: State, i: int)
    requires Inv(s) && Enabled(s, i) && s.tasks[i].line != 2 && s.tasks[i].phase == Changed
    requires !IsWait(s.tasks[i]) && Get(s, SemOf(s.tasks[i])).value <= 0
    ensures Sum(Next(s, i).tasks, Left) < Sum(s.tasks, Left) && |Next(s, i).tasks| == |s.tasks|
  {
    hide Inv, SemInv, Sum;
    var t := s.tasks[i];
    var sem := Get(s, SemOf(t));
    Mine(s, i);
    EachSem(s, SemOf(t));
    SignalProper(t);
    AllProper(s);
    PopStep(s.tasks, i, t.(phase := Popped), SemOf(t), sem, s.clock);
    var u := sem.queue[0];
    var w := s.tasks[u].(phase := Woken);
    SumUpdate(s.tasks, Left, u, w);
    SumUpdate(s.tasks[u := w], Left, i, t.(phase := Popped));
  }

  lemma AllProper(s: State)
    requires Inv(s)
    ensures forall x :: 0 <= x < |s.tasks| ==> Proper(s.tasks[x])
  {
  }

  lemma {:induction false} SumBound(tasks: seq<Task>, n: nat)
    requires n <= |tasks| && forall x :: 0 <= x < |tasks| ==> Proper(tasks[x])
    ensures Sum(tasks[..n], Left) <= 19 * n
  {
    if n > 0 {
      SumBound(tasks, n - 1);
      assert tasks[..n][..n - 1] == tasks[..n - 1];
    }
  }

  lemma {:induction false} WriteComes(s: State, sched: seq<int>) returns (n: nat)
    requires Inv(s) && Schedules(s, sched) && |sched| > Sum(s.tasks, Left)
    ensures n < |sched| && Schedules(s, sched[..n]) && Writes(Run(s, sched[..n]), sched[n])
    decreases |sched|
  {
    hide Inv, Next, Enabled, Writes, Sum;
    n := 0;
    var i := sched[0];
    assert sched[..0] == [];
    if !Writes(s, i) {
      StepInv(s, i);
      StepUsesUp(s, i);
      var m := WriteComes(Next(s, i), sched[1..]);
      n := m + 1;
      assert sched[..n][0] == i && sched[..n][1..] == sched[1..][..m];
    }
  }

  /** No livelock: however the tasks are scheduled, of any 19 steps per task and one more, one writes the counter, and
      changes it by one. */
  lemma Progress(s: State, sched: seq<int>) returns (n: nat)
    requires Inv(s) && Schedules(s, sched) && |sched| > 19 * |s.tasks|
    ensures n < |sched| && Schedules(s, sched[..n]) && Writes(Run(s, sched[..n]), sched[n])
    ensures var s' := Run(s, sched[..n]);
      Enabled(s', sched[n]) && Next(s', sched[n]).cnt == if s'.tasks[sched[n]].role == Producer then s'.cnt + 1 else s'.cnt - 1
  {
    hide SemInv, Sum;
    SumBound(s.tasks, |s.tasks|);
    assert s.tasks[..|s.tasks|] == s.tasks;
    n := WriteComes(s, sched);
    RunInv(s, sched[..n]);
  }

  // --------------------------------------------------------------------------
  // Critical sections
  // --------------------------------------------------------------------------

  /** What a whole wait of task i does to a semaphore. */
  function AfterWait(sem: Sem, i: int): Sem {
    Sem(sem.value - 1, -1, if sem.value - 1 < 0 then sem.queue + [i] else sem.queue)
  }

  /** What a whole signal does to a semaphore. */
  function AfterSignal(sem: Sem): Sem {
    Sem(sem.value + 1, -1, if sem.value + 1 <= 0 && sem.queue != [] then sem.queue[1..] else sem.queue)
  }

  /** The steps of task i alone, from before its lock to after its unlock. */
  function Section(s: State, i: int, steps: nat): State
    decreases steps
  {
    if steps == 0 || !Enabled(s, i) then s else Section(Next(s, i), i, steps - 1)
  }

  /** Taken together, the steps of a wait or a signal have the effect of one operation on the semaphore. */
  lemma SectionEffect(s: State, i: int)
    requires Inv(s) && Enabled(s, i) && s.tasks[i].line != 2 && s.tasks[i].phase == Enter
    ensures var t := s.tasks[i];
      var sem, sem' := Get(s, SemOf(t)), Get(Section(s, i, if Parks(s, i) then 4 else 3), SemOf(t));
      sem' == if IsWait(t) then AfterWait(sem, i) else AfterSignal(sem)
  {
    hide Inv, SemInv, Proper, Next, Update;
    var t := s.tasks[i];
    StepInv(s, i);
    Chain(s, i);
    var s1 := Next(s, i);
    StepInv(s1, i);
    var s2 := Next(s1, i);
    assert 0 <= i < |s2.tasks| && SemOf(s2.tasks[i]) == SemOf(t);
    var s3 := Next(s2, i);
    assert Section(s, i, 3) == Section(s2, i, 1) == s3;
    if Parks(s, i) {
      if !IsWait(t) {
        SignalReady(s2, i);
      }
      ParkedEffect(s2, i);
      assert Section(s, i, 4) == Section(s2, i, 2) == Section(s3, i, 1) == Next(s3, i);
    } else {
      UnparkedEffect(s2, i);
    }
  }

  lemma UnparkedEffect(s: State, i: int)
    requires Enabled(s, i) && s.tasks[i].line != 2 && s.tasks[i].phase == Changed
    requires var (t, sem) := (s.tasks[i], Get(s, SemOf(s.tasks[i]))); if IsWait(t) then sem.value >= 0 else sem.value > 0
    ensures var (id, sem) := (SemOf(s.tasks[i]), Get(s, SemOf(s.tasks[i]))); Get(Next(s, i), id) == sem.(lock := -1)
  {
  }

  lemma ParkedEffect(s: State, i: int)
    requires Enabled(s, i) && s.tasks[i].line != 2 && s.tasks[i].phase == Changed
    requires var (t, sem) := (s.tasks[i], Get(s, SemOf(s.tasks[i])));
      if IsWait(t) then sem.value < 0 else sem.value <= 0 && sem.queue != [] && 0 <= sem.queue[0] < |s.tasks|
    ensures Enabled(Next(s, i), i)
    ensures var (t, sem) := (s.tasks[i], Get(s, SemOf(s.tasks[i])));
      Get(Next(Next(s, i), i), SemOf(t)) == Sem(sem.value, -1, if IsWait(t) then sem.queue + [i] else sem.queue[1..])
  {
    var t, s1 := s.tasks[i], Next(s, i);
    assert s1.tasks[i].phase == (if IsWait(t) then Parked else Popped) && SemOf(s1.tasks[i]) == SemOf(t);
  }

  /** The section has an extra step that unlocks: the waiter has queued, or the signaller has woken somebody. */
  predicate Parks(s: State, i: int)
    requires 0 <= i < |s.tasks|
  {
    var t := s.tasks[i];
    if IsWait(t) then Get(s, SemOf(t)).value - 1 < 0 else Get(s, SemOf(t)).value + 1 <= 0
  }

  lemma Chain(s: State, i: int)
    requires Enabled(s, i) && s.tasks[i].line != 2 && s.tasks[i].phase == Enter
    ensures Enabled(Next(s, i), i) && Enabled(Next(Next(s, i), i), i) && |Next(Next(s, i), i).tasks| == |s.tasks|
    ensures var s2, t := Next(Next(s, i), i), s.tasks[i];
      && s2.tasks[i] == t.(phase := Changed)
      && Get(s2, SemOf(t)) ==
           Sem(if IsWait(t) then Get(s, SemOf(t)).value - 1 else Get(s, SemOf(t)).value + 1, i, Get(s, SemOf(t)).queue)
    ensures forall k: nat :: Section(s, i, k + 2) == Section(Next(Next(s, i), i), i, k)
  {
    var s1 := Next(s, i);
    assert s1.tasks[i] == s.tasks[i].(phase := Held);
    forall k: nat
      ensures Section(s, i, k + 2) == Section(Next(s1, i), i, k)
    {
      assert Section(s, i, k + 2) == Section(s1, i, k + 1);
    }
  }

  lemma SignalReady(s: State, i: int)
    requires Inv(s) && 0 <= i < |s.tasks| && s.tasks[i].phase == Changed && !IsWait(s.tasks[i])
    requires Get(s, SemOf(s.tasks[i])).value <= 0
    ensures var sem := Get(s, SemOf(s.tasks[i])); sem.queue != [] && 0 <= sem.queue[0] < |s.tasks| && sem.queue[0] != i
  {
    var id := SemOf(s.tasks[i]);
    EachSem(s, id);
    SignalProper(s.tasks[i]);
    PopStep(s.tasks, i, s.tasks[i].(phase := Popped), id, Get(s, id), s.clock);
  }

  /** No more waiters than tasks, so with fewer than 32 tasks the ring of waiters does not fill up. */
  lemma QueueFits(s: State, id: SemId)
    requires Inv(s)
    ensures |Get(s, id).queue| <= |s.tasks|
  {
    hide Inv, QueueInv, LockInv;
    EachSem(s, id);
    QueueOfTasks(s.tasks, id, Get(s, id).queue, s.clock);
    Sequences.DistinctBelow(Get(s, id).queue, |s.tasks|);
  }

  lemma QueueOfTasks(tasks: seq<Task>, id: SemId, queue: seq<int>, clock: int)
    requires QueueInv(tasks, id, queue, clock)
    ensures Sequences.Distinct(queue) && forall k :: 0 <= k < |queue| ==> 0 <= queue[k] < |tasks|
  {
    hide Waits;
    forall j, k | 0 <= j < k < |queue|
      ensures queue[j] != queue[k]
    {
      assert Sooner(tasks, queue[j], queue[k]);
    }
  }

  // --------------------------------------------------------------------------
  // The whole buffer is used
  // --------------------------------------------------------------------------

  /** Every task is at the start of its loop and k items are in the buffer. */
  ghost predicate Idle(s: State, k: int) {
    && (forall j :: 0 <= j < |s.tasks| ==> s.tasks[j].line == 0 && s.tasks[j].phase == Enter)
    && s.empty == Sem(8 - k, -1, []) && s.full == Sem(k, -1, []) && s.mutex == Sem(1, -1, [])
    && s.cnt == k && !s.halted
  }

  ghost predicate SameRoles(s: State, s': State) {
    |s'.tasks| == |s.tasks| && forall j :: 0 <= j < |s.tasks| ==> s'.tasks[j].role == s.tasks[j].role
  }

  lemma {:induction false} RunOn(s: State, a: seq<int>, b: seq<int>)
    requires Schedules(s, a) && Schedules(Run(s, a), b)
    ensures Schedules(s, a + b) && Run(s, a + b) == Run(Run(s, a), b)
    decreases |a|
  {
    if a == [] {
      assert a + b == b;
    } else {
      assert (a + b)[1..] == a[1..] + b;
      RunOn(Next(s, a[0]), a[1..], b);
    }
  }

  lemma TwoSteps(s: State, i: int)
    requires Enabled(s, i) && Enabled(Next(s, i), i)
    ensures Schedules(s, [i, i]) && Run(s, [i, i]) == Next(Next(s, i), i)
  {
    var s1 := Next(s, i);
    assert [i, i][1..] == [i] && [i][1..] == [];
    assert Run(s1, [i]) == Next(s1, i);
  }

  lemma ThreeSteps(s: State, i: int)
    requires Enabled(s, i) && Enabled(Next(s, i), i) && Enabled(Next(Next(s, i), i), i)
    ensures Schedules(s, [i, i, i]) && Run(s, [i, i, i]) == Next(Next(Next(s, i), i), i)
  {
    hide Next;
    TwoSteps(Next(s, i), i);
    assert [i, i, i][1..] == [i, i];
  }

  /** A wait that does not sleep, and a signal that wakes nobody. */
  lemma FreePass(s: State, i: int)
    requires 0 <= i < |s.tasks| && !s.halted && s.tasks[i].line != 2 && s.tasks[i].phase == Enter
    requires var sem := Get(s, SemOf(s.tasks[i]));
      sem.lock == -1 && (if IsWait(s.tasks[i]) then sem.value > 0 else sem.value >= 0)
    ensures Schedules(s, [i, i, i])
    ensures var (t, sem) := (s.tasks[i], Get(s, SemOf(s.tasks[i])));
      Run(s, [i, i, i]) == Update(s, i, Advance(t), SemOf(t), sem.(value := if IsWait(t) then sem.value - 1 else sem.value + 1))
  {
    hide Update, Next, Enabled;
    EnterStep(s, i);
    HeldStep(s, i);
    ChangedStep(s, i);
    ThreeSteps(s, i);
  }

  lemma EnterStep(s: State, i: int)
    requires 0 <= i < |s.tasks| && !s.halted && s.tasks[i].line != 2 && s.tasks[i].phase == Enter
    requires Get(s, SemOf(s.tasks[i])).lock == -1
    ensures var t := s.tasks[i];
      Enabled(s, i) && Next(s, i) == Update(s, i, t.(phase := Held), SemOf(t), Get(s, SemOf(t)).(lock := i))
  {
  }

  lemma HeldStep(s: State, i: int)
    requires 0 <= i < |s.tasks| && !s.halted && s.tasks[i].line != 2
    ensures var (t, sem) := (s.tasks[i], Get(s, SemOf(s.tasks[i])));
      var s1 := Update(s, i, t.(phase := Held), SemOf(t), sem.(lock := i));
      var v := if IsWait(t) then sem.value - 1 else sem.value + 1;
      Enabled(s1, i) && Next(s1, i) == Update(s, i, t.(phase := Changed), SemOf(t), sem.(lock := i, value := v))
  {
    var t := s.tasks[i];
    assert SemOf(t.(phase := Held)) == SemOf(t);
  }

  lemma ChangedStep(s: State, i: int)
    requires 0 <= i < |s.tasks| && !s.halted && s.tasks[i].line != 2
    requires var sem := Get(s, SemOf(s.tasks[i]));
      sem.lock == -1 && (if IsWait(s.tasks[i]) then sem.value > 0 else sem.value >= 0)
    ensures var (t, sem) := (s.tasks[i], Get(s, SemOf(s.tasks[i])));
      var v := if IsWait(t) then sem.value - 1 else sem.value + 1;
      var s2 := Update(s, i, t.(phase := Changed), SemOf(t), sem.(lock := i, value := v));
      Enabled(s2, i) && Next(s2, i) == Update(s, i, Advance(t), SemOf(t), sem.(value := v))
  {
    var t := s.tasks[i];
    assert SemOf(t.(phase := Changed)) == SemOf(t);
  }

  lemma CounterPass(s: State, i: int)
    requires 0 <= i < |s.tasks| && !s.halted && s.tasks[i].line == 2 && s.tasks[i].phase == Enter
    ensures Schedules(s, [i, i])
    ensures var t := s.tasks[i];
      Run(s, [i, i]) == SetTask(s, i, Advance(t.(reg := s.cnt))).(cnt := if t.role == Producer then s.cnt + 1 else s.cnt - 1)
  {
    TwoSteps(s, i);
    assert Next(s, i).tasks[i] == s.tasks[i].(phase := Loaded, reg := s.cnt);
  }

  /** A producer alone adds an item to a buffer that is not full, a consumer takes one out of one that is not empty. */
  lemma RoundAlone(s: State, i: int, k: int) returns (sched: seq<int>)
    requires Idle(s, k) && 0 <= i < |s.tasks| && (if s.tasks[i].role == Producer then 0 <= k < 8 else 0 < k <= 8)
    ensures Schedules(s, sched) && SameRoles(s, Run(s, sched))
    ensures Idle(Run(s, sched), if s.tasks[i].role == Producer then k + 1 else k - 1)
  {
    hide Next, Enabled, Schedules, Run;
    FreePass(s, i);
    var a := [i, i, i];
    var s1 := Run(s, a);
    FreePass(s1, i);
    var s2 := Run(s1, a);
    CounterPass(s2, i);
    var s3 := Run(s2, [i, i]);
    FreePass(s3, i);
    var s4 := Run(s3, a);
    FreePass(s4, i);
    RunOn(s3, a, a);
    RunOn(s2, [i, i], a + a);
    RunOn(s1, a, [i, i] + (a + a));
    RunOn(s, a, a + ([i, i] + (a + a)));
    sched := a + (a + ([i, i] + (a + a)));
  }

  /** The buffer can be filled to all its eight places and emptied again. */
  lemma {:induction false} FillsUp(roles: seq<Role>, p: int, k: nat) returns (sched: seq<int>)
    requires 0 <= p < |roles| && roles[p] == Producer && k <= 8
    ensures Schedules(Init(roles), sched) && Idle(Run(Init(roles), sched), k) && SameRoles(Init(roles), Run(Init(roles), sched))
  {
    hide Next;
    if k == 0 {
      sched := [];
    } else {
      var before := FillsUp(roles, p, k - 1);
      var more := RoundAlone(Run(Init(roles), before), p, k - 1);
      RunOn(Init(roles), before, more);
      sched := before + more;
    }
  }

  lemma {:induction false} EmptiesAgain(s: State, c: int, k: nat) returns (sched: seq<int>)
    requires Idle(s, k) && k <= 8 && 0 <= c < |s.tasks| && s.tasks[c].role == Consumer
    ensures Schedules(s, sched) && Idle(Run(s, sched), 0)
    decreases k
  {
    hide Next;
    if k == 0 {
      sched := [];
    } else {
      var first := RoundAlone(s, c, k);
      var more := EmptiesAgain(Run(s, first), c, k - 1);
      RunOn(s, first, more);
      sched := first + more;
    }
  }
}
