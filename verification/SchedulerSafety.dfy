/** Exclusive ownership and conservation of tasks over every run of the coordinator. */
module SchedulerSafety {
  import opened Common
  import opened RunQueue
  import opened SchedulerModel
  import opened BoundedWait

  // ---------------------------------------------------------------------
  // Selection
  // ---------------------------------------------------------------------

  /** Assignment picks a least-loaded CPU, and the first such one in rotation order. */
  lemma {:induction false} LeastLoadedIsFirstMinimum(s: Sched, offsets: nat) returns (o: nat)
    requires Shape(s) && 1 <= offsets <= s.cpuCount
    ensures o < offsets && LeastLoaded(s, offsets) == Candidate(s, o)
    ensures forall p: nat :: p < o ==> Load(s, Candidate(s, p)) > Load(s, Candidate(s, o))
    ensures forall p: nat :: p < offsets ==> Load(s, Candidate(s, p)) >= Load(s, Candidate(s, o))
  {
    if offsets == 1 {
      o := 0;
    } else {
      o := LeastLoadedIsFirstMinimum(s, offsets - 1);
      if Load(s, Candidate(s, offsets - 1)) < Load(s, Candidate(s, o)) { o := offsets - 1; }
    }
  }

  /** The rotation reaches every active CPU. */
  function OffsetOf(s: Sched, c: nat): (o: nat)
    requires Shape(s) && c < s.cpuCount
    ensures o < s.cpuCount && Candidate(s, o) == c
  {
    if c >= s.nextAssignment then c - s.nextAssignment else c + s.cpuCount - s.nextAssignment
  }

  lemma LeastLoadedIsMinimal(s: Sched, c: nat)
    requires Shape(s) && c < s.cpuCount
    ensures Load(s, LeastLoaded(s, s.cpuCount)) <= Load(s, c)
  {
    var o := LeastLoadedIsFirstMinimum(s, s.cpuCount);
    assert Candidate(s, OffsetOf(s, c)) == c;
  }

  /** The victim is a busiest peer, the lowest-numbered one, and exists when any peer has work. */
  lemma {:induction false} BusiestIsFirstMaximum(s: Sched, thief: nat, n: nat)
    requires Shape(s) && n <= s.cpuCount
    ensures var v := Busiest(s, thief, n);
            forall c :: 0 <= c < n && c != thief && Load(s, c) > 0 ==>
                          && v.Some?
                          && Load(s, c) <= Load(s, v.value)
                          && (c < v.value ==> Load(s, c) < Load(s, v.value))
  {
    if n > 0 { BusiestIsFirstMaximum(s, thief, n - 1); }
  }

  // ---------------------------------------------------------------------
  // Step by step
  // ---------------------------------------------------------------------

  lemma ActiveOwnsAll(s: Sched, t: TaskId)
    requires Inv(s)
    ensures OwnedByActive(s, t) <==> Owns(s, t)
  {
    if Owns(s, t) {
      var c :| Queued(s, c, t) || Running(s, c, t);
      assert 0 <= c < s.cpuCount;
    }
  }

  lemma EnqueueKeeps(s: Sched, t: TaskId)
    requires Inv(s)
    ensures var (s', r) := EnqueueStep(s, t);
            && Inv(s')
            && (r.Err? ==> s' == s)
            && (r == Err(InvalidTask) <==> t == 0)
            && (r == Err(Duplicate) <==> t != 0 && Owns(s, t))
            && (r == Err(Full) ==> forall c :: 0 <= c < s.cpuCount ==> Load(s, c) == MAX_RUN_QUEUE_TASKS)
            && (r.Ok? ==> !Owns(s, t) && Queued(s', r.value, t)
                          && forall u :: Owns(s', u) <==> Owns(s, u) || u == t)
  {
    ActiveOwnsAll(s, t);
    if t != 0 && !Owns(s, t) {
      var c := LeastLoaded(s, s.cpuCount);
      assert !Queued(s, c, t);
      if EnqueueQ(s.queues[c], t).1.Ok? {
        AddQueued(s, c, t);
        Renumber(s.(queues := s.queues[c := EnqueueQ(s.queues[c], t).0]), if c + 1 == s.cpuCount then 0 else c + 1);
      } else {
        forall d | 0 <= d < s.cpuCount ensures Load(s, d) == MAX_RUN_QUEUE_TASKS {
          LeastLoadedIsMinimal(s, d);
        }
      }
    }
  }

  lemma Renumber(s: Sched, next: nat)
    requires Inv(s) && next < s.cpuCount
    ensures Inv(s.(nextAssignment := next)) && SameOwned(s, s.(nextAssignment := next))
  {
    var s' := s.(nextAssignment := next);
    assert forall d, u :: Queued(s', d, u) <==> Queued(s, d, u);
    assert forall d, u :: Running(s', d, u) <==> Running(s, d, u);
  }

  lemma EnqueueOnCpuKeeps(s: Sched, c: nat, t: TaskId)
    requires Inv(s)
    ensures var (s', r) := EnqueueOnCpuStep(s, c, t);
            && Inv(s')
            && (r.Err? ==> s' == s)
            && (r.Ok? ==> !Owns(s, t) && Queued(s', c, t)
                          && forall u :: Owns(s', u) <==> Owns(s, u) || u == t)
  {
    ActiveOwnsAll(s, t);
    if c < s.cpuCount && t != 0 && !Owns(s, t) {
      assert !Queued(s, c, t);
      if EnqueueQ(s.queues[c], t).1.Ok? { AddQueued(s, c, t); } else {
        assert s.queues[c := s.queues[c]] == s.queues;
      }
    }
  }

  lemma RemovePops(q: Queue, t: TaskId)
    requires WellFormed(q) && t in q.tasks
    ensures Popped(q, RemoveQ(q, t).0, t)
  {
    RemoveKeepsWellFormed(q, t);
  }

  lemma DequeueKeeps(s: Sched, c: nat, t: TaskId)
    requires Inv(s)
    ensures var (s', r) := DequeueStep(s, c, t);
            && Inv(s')
            && (r == Ok(true) ==> Owns(s, t) && forall u :: Owns(s', u) <==> Owns(s, u) && u != t)
            && (r != Ok(true) ==> s' == s)
            && (r == Ok(true) <==> c < s.cpuCount && (Queued(s, c, t) || Running(s, c, t)))
  {
    if c < s.cpuCount {
      if Running(s, c, t) {
        StopRunning(s, c);
      } else if Queued(s, c, t) {
        RemovePops(s.queues[c], t);
        DropQueued(s, c, RemoveQ(s.queues[c], t).0, t);
      } else {
        assert s.queues[c := s.queues[c]] == s.queues;
      }
    }
  }

  lemma PickNextKeeps(s: Sched, c: nat)
    requires Inv(s)
    ensures Inv(PickNextStep(s, c).0) && SameOwned(s, PickNextStep(s, c).0)
  {
    if c < s.cpuCount {
      TurnCursor(s, c, NextQ(s.queues[c]).0);
    }
  }

  /** A steal never panics, takes the oldest task of the victim, and changes no ownership. */
  lemma StealKeeps(s: Sched, thief: nat)
    requires Inv(s)
    ensures var (s', r) := StealStep(s, thief);
            && Inv(s') && SameOwned(s, s') && r != Panic
            && s'.current == s.current && s'.cpuCount == s.cpuCount
            && (!r.Stolen? ==> s' == s)
            && (r.Stolen? ==> thief < s.cpuCount
                              && var v := Busiest(s, thief, s.cpuCount);
                                 v.Some? && r.task == s.queues[v.value].tasks[0]
                                 && s'.queues[thief].tasks == s.queues[thief].tasks + [r.task]
                                 && s'.queues[thief].cursor == s.queues[thief].cursor)
            && (r == Nothing ==> forall c :: 0 <= c < s.cpuCount && c != thief ==> Load(s, c) == 0)
  {
    if thief < s.cpuCount && Load(s, thief) < MAX_RUN_QUEUE_TASKS {
      var v := Busiest(s, thief, s.cpuCount);
      BusiestIsFirstMaximum(s, thief, s.cpuCount);
      if v.Some? {
        var t := s.queues[v.value].tasks[0];
        assert Queued(s, v.value, t) && !Queued(s, thief, t);
        RemovePops(s.queues[v.value], t);
        var robbed := RemoveQ(s.queues[v.value], t).0;
        DropQueued(s, v.value, robbed, t);
        AddQueued(s.(queues := s.queues[v.value := robbed]), thief, t);
      }
    }
  }

  /** Dispatch picks the local task under the cursor, or else the task a steal brings; it is
      idle only when every active queue is empty, and it changes no ownership. */
  lemma DispatchKeeps(s: Sched, c: nat, allowSteal: bool)
    requires Inv(s)
    ensures var (s', r) := DispatchStep(s, c, None, allowSteal);
            && Inv(s') && SameOwned(s, s')
            && (r.Dispatched? ==> c < s.cpuCount && Load(s, c) > 0
                                  && r.task == s.queues[c].tasks[s.queues[c].cursor] && Running(s', c, r.task))
            && (r.Stole? ==> allowSteal && c < s.cpuCount && Load(s, c) == 0 && Running(s', c, r.task)
                             && var v := Busiest(s, c, s.cpuCount);
                                v.Some? && r.task == s.queues[v.value].tasks[0])
            && (r == Idle ==> c < s.cpuCount && Load(s, c) == 0 && s' == s
                              && (allowSteal ==> forall d :: 0 <= d < s.cpuCount ==> Load(s, d) == 0))
            && (r.Busy? || r.BadCpu? ==> s' == s)
  {
    if c < s.cpuCount && s.current[c] == None {
      var q := s.queues[c];
      if q.tasks != [] {
        PopUnderCursor(q);
        PopOne(q);
        PopFinds(q, None);
        MoveToRunning(s, c, PopQ(q, None, |q.tasks|).0, q.tasks[q.cursor]);
      } else {
        assert s.(queues := s.queues[c := q]) == s;
        if allowSteal { StealThenDispatch(s, c); }
      }
    }
  }

  lemma MoveToRunning(s: Sched, c: nat, q: Queue, t: TaskId)
    requires Inv(s) && c < s.cpuCount && s.current[c] == None && Popped(s.queues[c], q, t)
    ensures var s' := s.(queues := s.queues[c := q], current := s.current[c := Some(t)]);
            Inv(s') && SameOwned(s, s')
  {
    assert Queued(s, c, t);
    DropQueued(s, c, q, t);
    StartRunning(s.(queues := s.queues[c := q]), c, t);
  }

  lemma StealThenDispatch(s: Sched, c: nat)
    requires Inv(s) && c < s.cpuCount && s.current[c] == None && s.queues[c] == EMPTY
    ensures var (s', r) := DispatchStep(s, c, None, true);
            && Inv(s') && SameOwned(s, s') && (r.Stole? || (r == Idle && s' == s))
            && (r.Stole? ==> Running(s', c, r.task) && Busiest(s, c, s.cpuCount).Some?
                             && r.task == s.queues[Busiest(s, c, s.cpuCount).value].tasks[0])
            && (r == Idle ==> forall d :: 0 <= d < s.cpuCount ==> Load(s, d) == 0)
  {
    assert s.(queues := s.queues[c := EMPTY]) == s;
    StealKeeps(s, c);
    var (robbed, stolen) := StealStep(s, c);
    if stolen.Stolen? {
      var q := robbed.queues[c];
      assert q == Queue([stolen.task], 0);
      PopUnderCursor(q);
      PopOne(q);
      MoveToRunning(robbed, c, PopQ(q, None, 1).0, stolen.task);
    }
  }

  /** `complete` gives the task back unless the queue filled up while it ran; then it is lost. */
  lemma CompleteKeeps(s: Sched, c: nat)
    requires Inv(s)
    ensures var (s', r) := CompleteStep(s, c);
            && Inv(s')
            && (r == Err(InvalidCpu) <==> c >= s.cpuCount)
            && (r == Err(Full) <==> Overfull(s, c))
            && (r.Err? ==> r.error in {InvalidCpu, Full})
            && (Overfull(s, c) ==> forall u :: Owns(s', u) <==> Owns(s, u) && !Running(s, c, u))
            && (!Overfull(s, c) ==> SameOwned(s, s'))
  {
    if c < s.cpuCount && s.current[c].Some? {
      var t := s.current[c].value;
      assert Running(s, c, t) && !Queued(s, c, t);
      StopRunning(s, c);
      var stopped := s.(current := s.current[c := None]);
      if Overfull(s, c) {
        assert CompleteStep(s, c).0 == stopped by { assert s.queues[c := s.queues[c]] == s.queues; }
      } else {
        AddQueued(stopped, c, t);
      }
    }
  }

  /** The guard under which `complete` loses the running task. */
  predicate Overfull(s: Sched, c: nat)
    requires Shape(s)
  {
    c < s.cpuCount && s.current[c].Some? && Load(s, c) == MAX_RUN_QUEUE_TASKS
  }

  // ---------------------------------------------------------------------
  // Whole runs
  // ---------------------------------------------------------------------

  datatype Op =
    | Configure(cpus: nat)
    | Enqueue(task: TaskId)
    | EnqueueOnCpu(cpu: nat, task: TaskId)
    | Dequeue(cpu: nat, task: TaskId)
    | PickNext(cpu: nat)
    | Steal(cpu: nat)
    | Dispatch(cpu: nat)
    | Handoff(cpu: nat, allowSteal: bool)
    | Complete(cpu: nat)

  function Step(s: Sched, op: Op): (r: Sched)
    requires Shape(s)
    ensures Shape(r)
  {
    match op
    case Configure(n) => ConfigureStep(n)
    case Enqueue(t) => EnqueueStep(s, t).0
    case EnqueueOnCpu(c, t) => EnqueueOnCpuStep(s, c, t).0
    case Dequeue(c, t) => DequeueStep(s, c, t).0
    case PickNext(c) => PickNextStep(s, c).0
    case Steal(c) => StealStep(s, c).0
    case Dispatch(c) => DispatchStep(s, c, None, true).0
    case Handoff(c, allow) => HandoffStep(s, c, allow).0
    case Complete(c) => CompleteStep(s, c).0
  }

  /** What a caller that only watches the results of enqueue and dequeue believes is owned. */
  function Ledger(owned: set<TaskId>, s: Sched, op: Op): set<TaskId>
    requires Shape(s)
  {
    match op
    case Configure(_) => {}
    case Enqueue(t) => if EnqueueStep(s, t).1.Ok? then owned + {t} else owned
    case EnqueueOnCpu(c, t) => if EnqueueOnCpuStep(s, c, t).1.Ok? then owned + {t} else owned
    case Dequeue(c, t) => if DequeueStep(s, c, t).1 == Ok(true) then owned - {t} else owned
    case _ => owned
  }

  /** The steps that hand a running task back to a queue with no room for it. */
  predicate Loses(s: Sched, op: Op)
    requires Shape(s)
  {
    (op.Complete? || op.Handoff?) && Overfull(s, op.cpu)
  }

  ghost function OwnedSet(s: Sched): (owned: set<TaskId>)
    ensures forall t :: t in owned <==> Owns(s, t)
  {
    var queued := set c, i | 0 <= c < |s.queues| && 0 <= i < |s.queues[c].tasks| :: s.queues[c].tasks[i];
    var running := set c | 0 <= c < |s.current| && s.current[c].Some? :: s.current[c].value;
    assert forall t, c :: Queued(s, c, t) ==> t in queued;
    assert forall t, c :: Running(s, c, t) ==> t in running;
    assert forall t :: t in queued ==> Owns(s, t) by {
      forall t | t in queued ensures Owns(s, t) {
        var c, i :| 0 <= c < |s.queues| && 0 <= i < |s.queues[c].tasks| && s.queues[c].tasks[i] == t;
        assert Queued(s, c, t);
      }
    }
    assert forall t :: t in running ==> Owns(s, t) by {
      forall t | t in running ensures Owns(s, t) {
        var c :| 0 <= c < |s.current| && s.current[c].Some? && s.current[c].value == t;
        assert Running(s, c, t);
      }
    }
    queued + running
  }

  lemma StepKeepsInv(s: Sched, op: Op)
    requires Inv(s)
    ensures Inv(Step(s, op))
  {
    match op
    case Configure(n) => FreshInv(ConfigureStep(n).cpuCount);
    case Enqueue(t) => EnqueueKeeps(s, t);
    case EnqueueOnCpu(c, t) => EnqueueOnCpuKeeps(s, c, t);
    case Dequeue(c, t) => DequeueKeeps(s, c, t);
    case PickNext(c) => PickNextKeeps(s, c);
    case Steal(c) => StealKeeps(s, c);
    case Dispatch(c) => DispatchKeeps(s, c, true);
    case Handoff(c, allow) => CompleteKeeps(s, c); DispatchKeeps(s, c, allow);
    case Complete(c) => CompleteKeeps(s, c);
  }

  /** A step does to the owned set what its result says, exactly when it is not a losing step. */
  lemma StepConserves(s: Sched, op: Op)
    requires Inv(s)
    ensures OwnedSet(Step(s, op)) == Ledger(OwnedSet(s), s, op) <==> !Loses(s, op)
  {
    match op
    case Configure(n) => FreshInv(ConfigureStep(n).cpuCount);
    case Enqueue(t) => EnqueueKeeps(s, t);
    case EnqueueOnCpu(c, t) => EnqueueOnCpuKeeps(s, c, t);
    case Dequeue(c, t) => DequeueKeeps(s, c, t);
    case PickNext(c) => PickNextKeeps(s, c);
    case Steal(c) => StealKeeps(s, c);
    case Dispatch(c) => DispatchKeeps(s, c, true);
    case Handoff(c, allow) => HandoffConserves(s, c, allow);
    case Complete(c) => CompleteConserves(s, c);
  }

  lemma CompleteConserves(s: Sched, c: nat)
    requires Inv(s)
    ensures OwnedSet(CompleteStep(s, c).0) == OwnedSet(s) <==> !Overfull(s, c)
  {
    CompleteKeeps(s, c);
    if Overfull(s, c) {
      assert Running(s, c, s.current[c].value);
      assert s.current[c].value in OwnedSet(s);
    }
  }

  lemma HandoffConserves(s: Sched, c: nat, allow: bool)
    requires Inv(s)
    ensures OwnedSet(HandoffStep(s, c, allow).0) == OwnedSet(s) <==> !Overfull(s, c)
  {
    CompleteConserves(s, c);
    DispatchKeeps(s, c, allow);
  }

  function Run(s: Sched, ops: seq<Op>): (r: Sched)
    requires Shape(s)
    ensures Shape(r)
  {
    if ops == [] then s
    else
      var before := Run(s, ops[..|ops| - 1]);
      Step(before, ops[|ops| - 1])
  }

  function RunLedger(s: Sched, ops: seq<Op>): set<TaskId>
    requires Shape(s)
  {
    if ops == [] then {}
    else Ledger(RunLedger(s, ops[..|ops| - 1]), Run(s, ops[..|ops| - 1]), ops[|ops| - 1])
  }

  /** From boot, whatever is asked of the coordinator, ownership stays exclusive. */
  lemma {:induction false} EveryRunIsExclusive(ops: seq<Op>)
    ensures Inv(Run(Fresh(1), ops))
  {
    if ops == [] {
      FreshInv(1);
    } else {
      EveryRunIsExclusive(ops[..|ops| - 1]);
      StepKeepsInv(Run(Fresh(1), ops[..|ops| - 1]), ops[|ops| - 1]);
    }
  }

  datatype Place = Slot(cpu: nat, index: nat) | Core(cpu: nat)

  predicate Holds(s: Sched, p: Place, t: TaskId) {
    match p
    case Slot(c, i) => c < |s.queues| && i < |s.queues[c].tasks| && s.queues[c].tasks[i] == t
    case Core(c) => Running(s, c, t)
  }

  /** Exclusive ownership in one line: in every reachable state a task is in at most one place. */
  lemma OnePlaceOnly(ops: seq<Op>, t: TaskId, p: Place, p': Place)
    requires var s := Run(Fresh(1), ops); Holds(s, p, t) && Holds(s, p', t)
    ensures p == p'
  {
    EveryRunIsExclusive(ops);
    var s := Run(Fresh(1), ops);
    if p.Slot? { assert Queued(s, p.cpu, t); }
    if p'.Slot? { assert Queued(s, p'.cpu, t); }
  }

  // ---------------------------------------------------------------------
  // At most 64 owned tasks: nothing is ever lost
  // ---------------------------------------------------------------------

  /** Pigeonhole: a running task leaves at most 63 of the 64 for its own queue. */
  lemma RoomForRunning(s: Sched, c: nat)
    requires Inv(s) && |OwnedSet(s)| <= MAX_RUN_QUEUE_TASKS
    ensures !Overfull(s, c)
  {
    if Overfull(s, c) {
      var t := s.current[c].value;
      assert Running(s, c, t);
      forall u | u in s.queues[c].tasks ensures u in OwnedSet(s) - {t} { assert Queued(s, c, u); }
      DistinctFits(s.queues[c].tasks, OwnedSet(s) - {t});
    }
  }

  ghost predicate AtMost64(ops: seq<Op>) {
    forall k :: 0 <= k <= |ops| ==> |OwnedSet(Run(Fresh(1), ops[..k]))| <= MAX_RUN_QUEUE_TASKS
  }

  /** Only enqueue and dequeue (and reconfiguration) change what is owned. */
  lemma {:induction false} RunConserves(ops: seq<Op>)
    requires AtMost64(ops)
    ensures OwnedSet(Run(Fresh(1), ops)) == RunLedger(Fresh(1), ops)
  {
    if ops == [] {
      FreshInv(1);
    } else {
      var prefix := ops[..|ops| - 1];
      var op := ops[|ops| - 1];
      assert forall k :: 0 <= k <= |prefix| ==> ops[..k] == prefix[..k];
      RunConserves(prefix);
      EveryRunIsExclusive(prefix);
      var s := Run(Fresh(1), prefix);
      assert |OwnedSet(s)| <= MAX_RUN_QUEUE_TASKS by { assert ops[..|prefix|] == prefix; }
      if op.Complete? || op.Handoff? { RoomForRunning(s, op.cpu); }
      StepConserves(s, op);
    }
  }

  /** With at most 64 owned tasks `complete` always succeeds on a configured CPU. */
  lemma CompleteNeverFull(ops: seq<Op>, c: nat)
    requires |OwnedSet(Run(Fresh(1), ops))| <= MAX_RUN_QUEUE_TASKS
    requires c < Run(Fresh(1), ops).cpuCount
    ensures CompleteStep(Run(Fresh(1), ops), c).1.Ok?
  {
    EveryRunIsExclusive(ops);
    RoomForRunning(Run(Fresh(1), ops), c);
    CompleteKeeps(Run(Fresh(1), ops), c);
  }

  /** The bound is needed: 64 tasks, one of them running, and one more arrival. */
  function OverloadRun(): seq<Op> {
    Fill(64) + [Dispatch(0), Enqueue(65)]
  }

  function Fill(k: nat): (ops: seq<Op>)
    ensures |ops| == k
  {
    if k == 0 then [] else Fill(k - 1) + [Enqueue(k)]
  }

  function Numbers(k: nat): (tasks: seq<TaskId>)
    ensures |tasks| == k && forall i :: 0 <= i < k ==> tasks[i] == i + 1
  {
    if k == 0 then [] else Numbers(k - 1) + [k]
  }

  function OneQueue(q: Queue): Sched {
    Fresh(1).(queues := Fresh(1).queues[0 := q])
  }

  lemma EnqueueOnOneQueue(q: Queue, t: TaskId)
    requires t != 0 && t !in q.tasks && |q.tasks| < MAX_RUN_QUEUE_TASKS
    ensures EnqueueStep(OneQueue(q), t).0 == OneQueue(q.(tasks := q.tasks + [t]))
  {
    var s := OneQueue(q);
    assert !OwnedByActive(s, t);
    assert LeastLoaded(s, 1) == 0;
    assert s.queues[0 := q.(tasks := q.tasks + [t])] == OneQueue(q.(tasks := q.tasks + [t])).queues;
  }

  lemma {:induction false} FillRun(k: nat)
    requires k <= 64
    ensures Run(Fresh(1), Fill(k)) == OneQueue(Queue(Numbers(k), 0))
  {
    if k == 0 {
      assert Fresh(1).queues[0 := EMPTY] == Fresh(1).queues;
    } else {
      FillRun(k - 1);
      assert Fill(k)[..k - 1] == Fill(k - 1);
      EnqueueOnOneQueue(Queue(Numbers(k - 1), 0), k);
    }
  }

  lemma DispatchShrinksQueue(s: Sched, c: nat)
    requires Shape(s) && c < s.cpuCount && s.current[c] == None
    requires WellFormed(s.queues[c]) && s.queues[c].tasks != []
    ensures var (s', r) := DispatchStep(s, c, None, true);
            r.Dispatched? && Load(s', c) == Load(s, c) - 1 && s'.cpuCount == s.cpuCount
  {
    PopUnderCursor(s.queues[c]);
  }

  lemma AfterFirstDispatch(s: Sched)
    requires s == OneQueue(Queue(Numbers(64), 0)) && Inv(s)
    ensures var s' := Step(s, Dispatch(0));
            Inv(s') && s'.cpuCount == 1 && Load(s', 0) == 63 && Running(s', 0, 1) && !Owns(s', 65)
  {
    DispatchShrinksQueue(s, 0);
    DispatchKeeps(s, 0, true);
    assert !Owns(s, 65);
    assert Step(s, Dispatch(0)) == DispatchStep(s, 0, None, true).0;
    hide Step, DispatchStep;
  }

  lemma ArrivalFillsQueue(s: Sched)
    requires Inv(s) && s.cpuCount == 1 && Load(s, 0) == 63 && Running(s, 0, 1) && !Owns(s, 65)
    ensures var s' := Step(s, Enqueue(65)); Inv(s') && Overfull(s', 0) && Running(s', 0, 1)
  {
    EnqueueKeeps(s, 65);
    assert LeastLoaded(s, 1) == 0;
  }

  /** On that run `complete` drops task 1, which then sits in no queue and on no CPU. */
  lemma OverloadLosesTask()
    ensures var s := Run(Fresh(1), OverloadRun());
            && Inv(s) && Running(s, 0, 1)
            && CompleteStep(s, 0).1 == Err(Full)
            && Owns(s, 1) && !Owns(CompleteStep(s, 0).0, 1)
  {
    var fill := Fill(64);
    var ops := OverloadRun();
    assert ops[..65] == fill + [Dispatch(0)] && ops[..65][..64] == fill;
    FillRun(64);
    EveryRunIsExclusive(fill);
    AfterFirstDispatch(Run(Fresh(1), fill));
    ArrivalFillsQueue(Run(Fresh(1), ops[..65]));
    CompleteKeeps(Run(Fresh(1), ops), 0);
  }

  // ---------------------------------------------------------------------
  // Bounded wait on the coordinator
  // ---------------------------------------------------------------------

  /** One quantum of CPU `c`: dispatch, run, give the task back. */
  function Quantum(s: Sched, c: nat): (r: Sched)
    requires Shape(s)
    ensures Shape(r)
  {
    var dispatched := DispatchStep(s, c, None, true).0;
    CompleteStep(dispatched, c).0
  }

  /** `k` quanta on CPU `c`, nobody else touching its queue. */
  function Quanta(s: Sched, c: nat, k: nat): (r: Sched)
    requires Shape(s)
    ensures Shape(r)
    decreases k
  {
    if k == 0 then s else Quanta(Quantum(s, c), c, k - 1)
  }

  function WithQueue(s: Sched, c: nat, q: Queue): Sched
    requires c < |s.queues|
  {
    s.(queues := s.queues[c := q])
  }

  lemma QuantumIsRound(s: Sched, c: nat)
    requires Shape(s) && c < s.cpuCount && s.current[c] == None
    requires WellFormed(s.queues[c]) && s.queues[c].tasks != []
    ensures var q := s.queues[c];
            && DispatchStep(s, c, None, true).1 == Dispatched(q.tasks[q.cursor])
            && Quantum(s, c) == WithQueue(s, c, Round(q))
  {
    var q := s.queues[c];
    RoundIsQuantum(q);
    assert Quantum(s, c).queues == s.queues[c := Round(q)];
    assert Quantum(s, c).current == s.current;
  }

  lemma {:induction false} QuantaAreRounds(s: Sched, c: nat, k: nat)
    requires Shape(s) && c < s.cpuCount && s.current[c] == None
    requires WellFormed(s.queues[c]) && s.queues[c].tasks != []
    ensures Quanta(s, c, k) == WithQueue(s, c, Rounds(s.queues[c], k))
    decreases k
  {
    hide Quantum;
    if k == 0 {
      assert s.queues[c := s.queues[c]] == s.queues;
    } else {
      var s' := WithQueue(s, c, Round(s.queues[c]));
      assert Quantum(s, c) == s' by { QuantumIsRound(s, c); }
      assert WellFormed(s'.queues[c]) by { RoundPermutes(s.queues[c]); }
      QuantaAreRounds(s', c, k - 1);
      assert s'.queues[c := Rounds(s'.queues[c], k - 1)] == s.queues[c := Rounds(s.queues[c], k)];
    }
  }

  /** Every task queued on a CPU is dispatched there within 504 quanta. */
  lemma QueuedTaskRuns(s: Sched, c: nat, t: TaskId)
    requires Inv(s) && c < s.cpuCount && s.current[c] == None && Queued(s, c, t)
    ensures exists k: nat :: k <= 504 && DispatchStep(Quanta(s, c, k), c, None, true).1 == Dispatched(t)
  {
    var q := s.queues[c];
    var i :| 0 <= i < |q.tasks| && q.tasks[i] == t;
    NoStarvation(q, i);
    var k: nat :| k <= 504 && DispatchedIn(q, k) == t;
    QuantaAreRounds(s, c, k);
    RoundsWellFormed(q, k);
    QuantumIsRound(Quanta(s, c, k), c);
  }
}
