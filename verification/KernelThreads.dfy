/** The kernel's task table with its scheduler, and the semaphore as it lies in memory, its waiters in a ring of
    32 entries. Tasks are slots of the table. The semaphore refines the one of the step machine. */
module KernelThreads {
  import opened Ring
  import opened SemMachine

  const MAX_TASK := 32

  datatype TaskState = NIL | STARTED | RUNNABLE | RUNNING | YIELD | KILLED

  predicate Ready(t: TaskState) {
    t == STARTED || t == RUNNABLE
  }

  // --------------------------------------------------------------------------
  // Scanning the table
  // --------------------------------------------------------------------------

  /** The d-th slot of a scan is empty or holds a task that is not ready. */
  predicate Skipped(start: int, d: int, size: int, present: seq<bool>, state: seq<TaskState>) {
    var x := Slot(start, d, size);
    0 <= x < |present| && x < |state| && (!present[x] || !Ready(state[x]))
  }

  /** A CPU without a current task scans from slot 0. */
  function ScanStart(mine: int): int {
    if mine < 0 then 0 else mine
  }

  /** A running task that is taken off its CPU becomes runnable. */
  function Preempted(state: seq<TaskState>, mine: int): seq<TaskState> {
    if 0 <= mine < |state| && state[mine] == RUNNING then state[mine := RUNNABLE] else state
  }

  /** Going on round the table from `start`, c comes before w or is w. */
  predicate Approaches(start: int, c: int, w: int, size: int) {
    c == w || Distance(c, w, size) < Distance(start, w, size)
  }

  /** A scan does not run past a task that is ready. */
  lemma NotPassed(start: int, probes: int, w: int, size: int, present: seq<bool>, state: seq<TaskState>)
    requires 0 <= start < size <= |present| == |state| && 1 <= probes <= size && 0 <= w < size
    requires present[w] && Ready(state[w])
    requires forall d :: 1 <= d < probes ==> Skipped(start, d, size, present, state)
    ensures Approaches(start, Slot(start, probes, size), w, size)
  {
    SlotAt(start, w, size);
    assert !Skipped(start, Distance(start, w, size), size, present, state);
  }

  /** The tasks a CPU runs one after the other: one that stays ready has its turn within a round of the table. */
  lemma TakenInTurn(cs: seq<int>, w: int, size: int)
    requires size < |cs| && 0 <= w < size && forall i :: 0 <= i < |cs| ==> 0 <= cs[i] < size
    requires forall i :: 0 <= i < size ==> Approaches(cs[i], cs[i + 1], w, size)
    ensures w in cs[1..size + 1]
  {
    CloserBy(cs, w, size, size);
    SlotAt(cs[size], w, size);
  }

  lemma {:induction false} CloserBy(cs: seq<int>, w: int, size: int, n: nat)
    requires n <= size < |cs| && 0 <= w < size && forall i :: 0 <= i < |cs| ==> 0 <= cs[i] < size
    requires forall i :: 0 <= i < size ==> Approaches(cs[i], cs[i + 1], w, size)
    ensures w in cs[1..n + 1] || Distance(cs[n], w, size) <= size - n
  {
    if n == 0 {
      SlotAt(cs[0], w, size);
    } else {
      CloserBy(cs, w, size, n - 1);
      assert cs[1..n + 1] == cs[1..n] + [cs[n]];
      assert Approaches(cs[n - 1], cs[n - 1 + 1], w, size);
    }
  }

  // --------------------------------------------------------------------------
  // Counting CPUs
  // --------------------------------------------------------------------------

  /** The tasks that are current on CPUs below n, leaving one CPU out. */
  function OnOthers(current: seq<int>, cpu: int, n: nat): set<int>
    requires n <= |current|
  {
    if n == 0 then {}
    else OnOthers(current, cpu, n - 1) + if n - 1 == cpu then {} else {current[n - 1]}
  }

  lemma {:induction false} FewOnOthers(current: seq<int>, cpu: int, n: nat)
    requires n <= |current|
    ensures |OnOthers(current, cpu, n)| <= if 0 <= cpu < n then n - 1 else n
    ensures forall c :: 0 <= c < n && c != cpu ==> current[c] in OnOthers(current, cpu, n)
  {
    if n > 0 {
      FewOnOthers(current, cpu, n - 1);
    }
  }

  /** A set with more elements than another has one that the other lacks. */
  lemma OneMore(a: set<int>, b: set<int>) returns (x: int)
    requires |a| > |b|
    ensures x in a && x !in b
  {
    if forall y :: y in a ==> y in b {
      SubsetCount(a, b);
      assert false;
    } else {
      x :| x in a && x !in b;
    }
  }

  lemma {:induction false} SubsetCount(a: set<int>, b: set<int>)
    requires a <= b
    ensures |a| <= |b|
  {
    if forall x :: x !in a {
      assert a == {};
    } else {
      var x :| x in a;
      SubsetCount(a - {x}, b - {x});
    }
  }

  // --------------------------------------------------------------------------
  // The task table
  // --------------------------------------------------------------------------

  class Scheduler {
    const present: array<bool>
    const state: array<TaskState>
    /** Per CPU its current task, or -1. */
    const current: array<int>
    var size: int
    /** The tasks created by kmt_create_wait, which never wait for anything. */
    ghost var waits: set<int>

    ghost predicate Valid()
      reads this, present, state, current
    {
      && present.Length == MAX_TASK && state.Length == MAX_TASK && current.Length > 0 && 0 <= size <= MAX_TASK
      && (forall c :: 0 <= c < current.Length ==> -1 <= current[c] < size)
      && (forall x :: 0 <= x < size && state[x] == RUNNING ==> OnSomeCpu(x))
      && (forall w :: w in waits ==> 0 <= w < size && present[w] && (Ready(state[w]) || state[w] == RUNNING))
    }

    /** The task is current on a CPU; nothing says it is so on one only. */
    ghost predicate OnSomeCpu(x: int)
      reads current
    {
      exists c :: 0 <= c < current.Length && current[c] == x
    }

    /** One wait task per CPU. */
    ghost predicate Staffed()
      reads this, current
    {
      |waits| >= current.Length
    }

    constructor (ncpu: int)
      requires ncpu > 0
      ensures Valid() && waits == {} && size == 0 && current.Length == ncpu
      ensures fresh(present) && fresh(state) && fresh(current)
    {
      present := new bool[MAX_TASK](_ => false);
      state := new TaskState[MAX_TASK](_ => NIL);
      current := new int[ncpu](_ => -1);
      size := 0;
      waits := {};
    }

    /** The last free slot, or the end of the table (lines 48-53). */
    method GetTasksIdx() returns (ret: int)
      requires Valid()
      ensures 0 <= ret <= size && (ret < size ==> !present[ret])
      ensures forall i :: (ret < i < size || (ret == size && 0 <= i < size)) ==> present[i]
    {
      ret := size;
      var idx := 0;
      while idx < size
        invariant 0 <= idx <= size && 0 <= ret <= size && (ret < size ==> !present[ret])
        invariant forall i :: (ret < i < idx || (ret == size && 0 <= i < idx)) ==> present[i]
      {
        if !present[idx] {
          ret := idx;
        }
        idx := idx + 1;
      }
    }

    /** kmt_create: a new task in the table (lines 55-61, 71). There has to be room for it. */
    method Create() returns (x: int)
      requires Valid() && (size < MAX_TASK || exists i :: 0 <= i < size && !present[i])
      modifies this`size, present, state
      ensures Valid() && x !in waits && 0 <= x < size && present[x] && state[x] == STARTED
      ensures x == old(size) || !old(present[x])
      ensures forall i :: 0 <= i < old(size) && (x < i || x == old(size)) ==> old(present[i])
      ensures size == if x == old(size) then old(size) + 1 else old(size)
      ensures forall i :: 0 <= i < MAX_TASK && i != x ==> present[i] == old(present[i]) && state[i] == old(state[i])
    {
      x := GetTasksIdx();
      state[x] := STARTED;
      if x == size {
        size := size + 1;
      }
      present[x] := true;
    }

    /** kmt_create_wait: one wait task per CPU (lines 91-97). */
    method CreateWait()
      requires Valid() && size == 0 && waits == {} && current.Length <= MAX_TASK
      modifies this, present, state
      ensures Valid() && Staffed() && |waits| == current.Length == size
    {
      var i := 0;
      while i < current.Length
        invariant 0 <= i <= current.Length && Valid() && size == i && |waits| == i
        invariant forall x :: 0 <= x < size ==> present[x]
      {
        var x := Create();
        waits := waits + {x};
        i := i + 1;
      }
    }

    /** kmt_teardown (lines 63-67). */
    method Remove(x: int)
      requires Valid() && 0 <= x < size && x !in waits
      modifies present
      ensures Valid() && !present[x]
      ensures forall i :: 0 <= i < MAX_TASK && i != x ==> present[i] == old(present[i])
    {
      present[x] := false;
    }

    /** The state change of sleep: the current task of a CPU will not be scheduled until woken. */
    method MarkYield(cpu: int)
      requires Valid() && 0 <= cpu < current.Length && current[cpu] >= 0 && current[cpu] !in waits
      modifies state
      ensures Valid() && state[current[cpu]] == YIELD
      ensures forall i :: 0 <= i < MAX_TASK && i != current[cpu] ==> state[i] == old(state[i])
    {
      state[current[cpu]] := YIELD;
    }

    /** The state change of wakeup. */
    method MarkRunnable(x: int)
      requires Valid() && 0 <= x < size
      modifies state
      ensures Valid() && state[x] == RUNNABLE
      ensures forall i :: 0 <= i < MAX_TASK && i != x ==> state[i] == old(state[i])
    {
      state[x] := RUNNABLE;
    }

    /** While other CPUs run, one of the wait tasks is ready. */
    lemma SomeWaitTaskReady(cpu: int) returns (w: int)
      requires Valid() && Staffed() && 0 <= cpu < current.Length
      requires current[cpu] >= 0 ==> state[current[cpu]] != RUNNING
      ensures 0 <= w < size && present[w] && Ready(state[w])
    {
      var n := current.Length;
      FewOnOthers(current[..], cpu, n);
      w := OneMore(waits, OnOthers(current[..], cpu, n));
      if state[w] == RUNNING {
        RunningElsewhere(w, cpu);
      }
    }

    lemma RunningElsewhere(x: int, cpu: int)
      requires Valid() && 0 <= x < size && state[x] == RUNNING && 0 <= cpu < current.Length
      requires current[cpu] >= 0 ==> state[current[cpu]] != RUNNING
      ensures x in OnOthers(current[..], cpu, current.Length)
    {
      assert OnSomeCpu(x);
      var c :| 0 <= c < current.Length && current[c] == x;
      FewOnOthers(current[..], cpu, current.Length);
      assert current[..][c] in OnOthers(current[..], cpu, current.Length);
    }

    /** The scan of lines 33-37. With a ready task in the table it ends within one round. */
    method Scan(start: int, ghost w: int) returns (idx: int, probes: int)
      requires present.Length == MAX_TASK && state.Length == MAX_TASK && 0 <= start < size <= MAX_TASK
      requires 0 <= w < size && present[w] && Ready(state[w])
      ensures 1 <= probes <= size && idx == Slot(start, probes, size) && 0 <= idx < size
      ensures present[idx] && Ready(state[idx])
      ensures forall d :: 1 <= d < probes ==> Skipped(start, d, size, present[..], state[..])
    {
      idx, probes := start, 0;
      SlotAt(start, w, size);
      while true
        invariant 0 <= probes < Distance(start, w, size) && idx == Slot(start, probes, size)
        invariant forall d :: 1 <= d <= probes ==> Skipped(start, d, size, present[..], state[..])
        decreases Distance(start, w, size) - probes
      {
        NextSlot(start, probes, size);
        idx := (idx + 1) % size;
        probes := probes + 1;
        assert probes == Distance(start, w, size) ==> idx == w;
        if !present[idx] {
          continue;
        }
        if Ready(state[idx]) {
          break;
        }
      }
    }

    /** Switching a CPU to the next ready task in the circle (lines 30-39). With a wait task per CPU there is
        always one. */
    method Switch(cpu: int) returns (probes: int)
      requires Valid() && Staffed() && 0 <= cpu < current.Length
      modifies state, current
      ensures Valid() && Staffed() && 1 <= probes <= size
      ensures current[cpu] == Slot(ScanStart(old(current[cpu])), probes, size)
      ensures 0 <= current[cpu] < size && present[current[cpu]] && state[current[cpu]] == RUNNING
      ensures forall d :: 1 <= d < probes ==>
        Skipped(ScanStart(old(current[cpu])), d, size, present[..], Preempted(old(state[..]), old(current[cpu])))
      ensures forall w :: 0 <= w < size && present[w] && Ready(Preempted(old(state[..]), old(current[cpu]))[w]) ==>
        Approaches(ScanStart(old(current[cpu])), current[cpu], w, size)
      ensures forall c :: 0 <= c < current.Length && c != cpu ==> current[c] == old(current[c])
      ensures state[..] == Preempted(old(state[..]), old(current[cpu]))[current[cpu] := RUNNING]
    {
      if current[cpu] >= 0 && state[current[cpu]] == RUNNING {
        state[current[cpu]] := RUNNABLE;
      }
      assert state[..] == Preempted(old(state[..]), current[cpu]);
      ghost var w := SomeWaitTaskReady(cpu);
      var idx := ScanStart(current[cpu]);
      ghost var start := idx;
      idx, probes := Scan(idx, w);
      forall x | 0 <= x < size && present[x] && Ready(state[x])
        ensures Approaches(start, idx, x, size)
      {
        NotPassed(start, probes, x, size, present[..], state[..]);
      }
      Install(cpu, idx);
    }

    /** A CPU that switches alone reaches any ready task within a round of the table. */
    method SwitchTo(cpu: int, w: int) returns (switches: int)
      requires Valid() && Staffed() && 0 <= cpu < current.Length && 0 <= w < size && present[w] && Ready(state[w])
      modifies state, current
      ensures Valid() && Staffed() && 1 <= switches <= size && current[cpu] == w && state[w] == RUNNING
    {
      var probes := Switch(cpu);
      switches := 1;
      SlotAt(current[cpu], w, size);
      ghost var start := ScanStart(old(current[cpu]));
      SlotAt(start, w, size);
      while current[cpu] != w
        invariant Valid() && Staffed() && 1 <= switches && present[w] && 0 <= current[cpu] < size
        invariant state[current[cpu]] == RUNNING && (current[cpu] != w ==> Ready(state[w]))
        invariant 1 <= Distance(current[cpu], w, size) <= size
        invariant current[cpu] != w ==> switches + Distance(current[cpu], w, size) <= size
        invariant switches <= size
        decreases size - switches
      {
        SlotAt(current[cpu], w, size);
        probes := Switch(cpu);
        switches := switches + 1;
        SlotAt(current[cpu], w, size);
      }
    }

    method Install(cpu: int, idx: int)
      requires 0 <= cpu < current.Length && Preemptible(cpu) && 0 <= idx < size && present[idx]
      modifies state, current
      ensures Valid() && current[..] == old(current[..])[cpu := idx] && state[..] == old(state[..])[idx := RUNNING]
    {
      current[cpu] := idx;
      state[idx] := RUNNING;
      forall x | 0 <= x < size && state[x] == RUNNING
        ensures OnSomeCpu(x)
      {
        if x == idx {
          assert current[cpu] == x;
        } else {
          assert old(OnSomeCpu(x));
          var c :| 0 <= c < current.Length && old(current[c]) == x;
          assert current[c] == x;
        }
      }
    }

    /** The state in which a CPU may take up another task: its own is not running. */
    ghost predicate Preemptible(cpu: int)
      reads this, present, state, current
    {
      Valid() && 0 <= cpu < current.Length && (current[cpu] >= 0 ==> state[current[cpu]] != RUNNING)
    }
  }

  // --------------------------------------------------------------------------
  // The semaphore in memory
  // --------------------------------------------------------------------------

  class Semaphore {
    var value: int
    var locked: bool
    const que: array<int>
    var head: int
    var tail: int
    /** The waiters, longest first. */
    ghost var queue: seq<int>

    /** The ring holds the waiters; one entry always stays free, since head == tail means empty. */
    ghost predicate InRing()
      reads this, que
    {
      && que.Length == MAX_TASK && 0 <= head < MAX_TASK && 0 <= tail < MAX_TASK
      && |queue| < MAX_TASK && tail == Slot(head, |queue|, MAX_TASK)
      && forall k :: 0 <= k < |queue| ==> que[Slot(head, k, MAX_TASK)] == queue[k]
    }

    /** Between operations: unlocked, and as many waiters as the value is below zero. */
    ghost predicate Valid()
      reads this, que
    {
      InRing() && !locked && |queue| == Neg(value)
    }

    /** The semaphore of the step machine this one stands for. */
    ghost function Abstract(): Sem
      reads this
    {
      Sem(value, -1, queue)
    }

    /** sem_init. */
    constructor (v: nat)
      ensures Valid() && Abstract() == Sem(v, -1, []) && fresh(que)
    {
      value, locked := v, false;
      que := new int[MAX_TASK];
      head, tail := 0, 0;
      queue := [];
    }

    method Push(task: int)
      requires InRing() && locked && |queue| < MAX_TASK - 1
      modifies this`tail, this`queue, que
      ensures InRing() && queue == old(queue) + [task]
    {
      que[tail] := task;
      NextSlot(head, |queue|, MAX_TASK);
      tail := (tail + 1) % MAX_TASK;
      queue := queue + [task];
    }

    method Pop() returns (task: int)
      requires InRing() && locked && queue != []
      modifies this`head, this`queue
      ensures InRing() && task == old(queue[0]) && queue == old(queue[1..])
    {
      var h := head;
      NextSlot(head, 0, MAX_TASK);
      head := (head + 1) % MAX_TASK;
      queue := queue[1..];
      return que[h];
    }

    /** kmt_sem_wait by the current task of a CPU. It sleeps when the value falls below zero. */
    method Wait(k: Scheduler, cpu: int) returns (sleeps: bool)
      requires Valid() && k.Valid() && 0 <= cpu < k.current.Length && k.current[cpu] >= 0 && k.current[cpu] !in k.waits
      requires |queue| < MAX_TASK - 1 && que != k.current
      modifies this, que, k.state
      ensures Valid() && k.Valid()
      ensures Abstract() == AfterWait(old(Abstract()), k.current[cpu])
      ensures sleeps <==> value < 0
      ensures sleeps ==> k.state[k.current[cpu]] == YIELD
      ensures forall x :: 0 <= x < MAX_TASK && !(sleeps && x == k.current[cpu]) ==> k.state[x] == old(k.state[x])
    {
      locked := true;
      value := value - 1;
      sleeps := value < 0;
      if value < 0 {
        k.MarkYield(cpu);
        Push(k.current[cpu]);
        locked := false;
      } else {
        locked := false;
      }
    }

    /** kmt_sem_signal: wakes the longest waiter, if there is one. The halt of line 161 is not reached. */
    method Signal(k: Scheduler) returns (woken: int)
      requires Valid() && k.Valid() && forall j :: 0 <= j < |queue| ==> 0 <= queue[j] < k.size
      modifies this, k.state
      ensures Valid() && k.Valid()
      ensures Abstract() == AfterSignal(old(Abstract()))
      ensures if old(queue) == [] then woken == -1 else woken == old(queue[0]) && k.state[woken] == RUNNABLE
      ensures forall x :: 0 <= x < MAX_TASK && x != woken ==> k.state[x] == old(k.state[x])
    {
      woken := -1;
      locked := true;
      value := value + 1;
      if value <= 0 {
        if head == tail {
          assert false;
        }
        woken := Pop();
        k.MarkRunnable(woken);
        locked := false;
      } else {
        locked := false;
      }
    }
  }
}
