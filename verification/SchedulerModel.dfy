/** The run-queue coordinator as a state machine on values: every operation is one atomic step. */
module SchedulerModel {
  import opened Common
  import opened RunQueue

  const MAX_CPUS := 32

  /** Queues and running slots of every logical CPU; only the first `cpuCount` are active. */
  datatype Sched = Sched(queues: seq<Queue>, current: seq<Option<TaskId>>, cpuCount: nat, nextAssignment: nat)

  datatype DispatchResult = Dispatched(task: TaskId) | Stole(task: TaskId) | Idle | BadCpu | Busy(task: TaskId)

  /** What a steal reports; `Panic` stands for the failing `expect`. */
  datatype StealResult = Stolen(task: TaskId) | Nothing | Refused(error: RunQueueError) | Panic

  predicate Shape(s: Sched) {
    && |s.queues| == MAX_CPUS && |s.current| == MAX_CPUS
    && 1 <= s.cpuCount <= MAX_CPUS && s.nextAssignment < s.cpuCount
  }

  /** A task sits in one slot of one CPU's queue, or is the one a CPU is running. */
  predicate Queued(s: Sched, c: int, t: TaskId) {
    0 <= c < |s.queues| && t in s.queues[c].tasks
  }

  predicate Running(s: Sched, c: int, t: TaskId) {
    0 <= c < |s.current| && s.current[c] == Some(t)
  }

  ghost predicate Owns(s: Sched, t: TaskId) {
    exists c :: Queued(s, c, t) || Running(s, c, t)
  }

  /** Exclusive ownership, with every queue well-formed and inactive CPUs holding nothing. */
  ghost predicate Inv(s: Sched) {
    && Shape(s)
    && (forall c :: 0 <= c < MAX_CPUS ==> WellFormed(s.queues[c]))
    && (forall c, t :: Queued(s, c, t) || Running(s, c, t) ==> c < s.cpuCount && t != 0)
    && (forall c, d, t :: Queued(s, c, t) && Queued(s, d, t) ==> c == d)
    && (forall c, d, t :: Running(s, c, t) && Running(s, d, t) ==> c == d)
    && (forall c, d, t :: Queued(s, c, t) ==> !Running(s, d, t))
  }

  // ---------------------------------------------------------------------
  // Steps
  // ---------------------------------------------------------------------

  function Fresh(cpuCount: nat): Sched {
    Sched(seq(MAX_CPUS, _ => EMPTY), seq(MAX_CPUS, _ => None), cpuCount, 0)
  }

  function ConfigureStep(cpuCount: nat): Sched {
    Fresh(if cpuCount < 1 then 1 else if cpuCount > MAX_CPUS then MAX_CPUS else cpuCount)
  }

  predicate OwnedByActive(s: Sched, t: TaskId)
    requires Shape(s)
  {
    exists c :: 0 <= c < s.cpuCount && (Queued(s, c, t) || Running(s, c, t))
  }

  function Load(s: Sched, c: nat): nat
    requires c < |s.queues|
  {
    |s.queues[c].tasks|
  }

  /** The rotation that assignment scans: `offset` CPUs after the next one to be assigned. */
  function Candidate(s: Sched, offset: nat): (c: nat)
    requires Shape(s) && offset < s.cpuCount
    ensures c < s.cpuCount
  {
    var c := s.nextAssignment + offset;
    if c < s.cpuCount then c else c - s.cpuCount
  }

  /** The first CPU in rotation order, among the first `offsets`, that carries the least load. */
  function LeastLoaded(s: Sched, offsets: nat): (c: nat)
    requires Shape(s) && 1 <= offsets <= s.cpuCount
    ensures c < s.cpuCount
  {
    if offsets == 1 then Candidate(s, 0)
    else
      var best := LeastLoaded(s, offsets - 1);
      var c := Candidate(s, offsets - 1);
      if Load(s, c) < Load(s, best) then c else best
  }

  function EnqueueStep(s: Sched, t: TaskId): (r: (Sched, QueueResult<nat>))
    requires Shape(s)
    ensures Shape(r.0)
  {
    if t == 0 then (s, Err(InvalidTask))
    else if OwnedByActive(s, t) then (s, Err(Duplicate))
    else
      var c := LeastLoaded(s, s.cpuCount);
      var (q, r) := EnqueueQ(s.queues[c], t);
      if r.Ok?
      then (s.(queues := s.queues[c := q], nextAssignment := if c + 1 == s.cpuCount then 0 else c + 1), Ok(c))
      else (s, Err(r.error))
  }

  function EnqueueOnCpuStep(s: Sched, c: nat, t: TaskId): (r: (Sched, QueueResult<()>))
    requires Shape(s)
    ensures Shape(r.0)
  {
    if c >= s.cpuCount then (s, Err(InvalidCpu))
    else if t == 0 then (s, Err(InvalidTask))
    else if OwnedByActive(s, t) then (s, Err(Duplicate))
    else
      var (q, r) := EnqueueQ(s.queues[c], t);
      (s.(queues := s.queues[c := q]), r)
  }

  function DequeueStep(s: Sched, c: nat, t: TaskId): (r: (Sched, QueueResult<bool>))
    requires Shape(s)
    ensures Shape(r.0)
  {
    if c >= s.cpuCount then (s, Err(InvalidCpu))
    else if s.current[c] == Some(t) then (s.(current := s.current[c := None]), Ok(true))
    else
      var (q, found) := RemoveQ(s.queues[c], t);
      (s.(queues := s.queues[c := q]), Ok(found))
  }

  function PickNextStep(s: Sched, c: nat): (r: (Sched, QueueResult<Option<TaskId>>))
    requires Shape(s)
    ensures Shape(r.0)
  {
    if c >= s.cpuCount then (s, Err(InvalidCpu))
    else
      var (q, t) := NextQ(s.queues[c]);
      (s.(queues := s.queues[c := q]), Ok(t))
  }

  /** The busiest CPU other than the thief among the first `n`; the lowest index wins ties. */
  function Busiest(s: Sched, thief: nat, n: nat): (v: Option<nat>)
    requires Shape(s) && n <= s.cpuCount
    ensures v.Some? ==> v.value < n && v.value != thief && Load(s, v.value) > 0
  {
    if n == 0 then None
    else
      var v := Busiest(s, thief, n - 1);
      var c := n - 1;
      if c != thief && Load(s, c) > 0 && (v == None || Load(s, c) > Load(s, v.value)) then Some(c) else v
  }

  function StealStep(s: Sched, thief: nat): (r: (Sched, StealResult))
    requires Shape(s)
    ensures Shape(r.0)
  {
    if thief >= s.cpuCount then (s, Refused(InvalidCpu))
    else if Load(s, thief) == MAX_RUN_QUEUE_TASKS then (s, Refused(Full))
    else
      match Busiest(s, thief, s.cpuCount)
      case None => (s, Nothing)
      case Some(v) =>
        var t := s.queues[v].tasks[0];
        var robbed := RemoveQ(s.queues[v], t).0;
        var (q, r) := EnqueueQ(s.queues[thief], t);
        if r.Ok? then (s.(queues := s.queues[v := robbed][thief := q]), Stolen(t)) else (s, Panic)
  }

  /** `dispatch_excluding_mode`; both callers pass `excluded == None`. */
  function DispatchStep(s: Sched, c: nat, excluded: Option<TaskId>, allowSteal: bool): (r: (Sched, DispatchResult))
    requires Shape(s)
    ensures Shape(r.0)
  {
    if c >= s.cpuCount then (s, BadCpu)
    else if s.current[c].Some? then (s, Busy(s.current[c].value))
    else
      var (q, t) := PopQ(s.queues[c], excluded, Load(s, c));
      var local := s.(queues := s.queues[c := q]);
      if t.Some? then (local.(current := s.current[c := t]), Dispatched(t.value))
      else if !allowSteal then (local, Idle)
      else
        var (robbed, stolen) := StealStep(local, c);
        if stolen.Stolen? then
          var (q', u) := PopQ(robbed.queues[c], excluded, Load(robbed, c));
          var selected := if u.Some? then u.value else stolen.task;
          (robbed.(queues := robbed.queues[c := q'], current := s.current[c := Some(selected)]), Stole(selected))
        else (local, Idle)
  }

  function CompleteStep(s: Sched, c: nat): (r: (Sched, QueueResult<Option<TaskId>>))
    requires Shape(s)
    ensures Shape(r.0)
  {
    if c >= s.cpuCount then (s, Err(InvalidCpu))
    else
      match s.current[c]
      case None => (s, Ok(None))
      case Some(t) =>
        var (q, r) := EnqueueQ(s.queues[c], t);
        (s.(queues := s.queues[c := q], current := s.current[c := None]),
         if r.Ok? then Ok(Some(t)) else Err(r.error))
  }

  function HandoffStep(s: Sched, c: nat, allowSteal: bool): (r: (Sched, Option<TaskId>, DispatchResult))
    requires Shape(s)
    ensures Shape(r.0)
  {
    if c >= s.cpuCount then (s, None, BadCpu)
    else if s.current[c].Some? then (CompleteStep(s, c).0, s.current[c], Idle)
    else
      var (s', r) := DispatchStep(s, c, None, allowSteal);
      (s', None, r)
  }

  // ---------------------------------------------------------------------
  // Every step keeps exclusive ownership
  // ---------------------------------------------------------------------

  /** `s'` owns exactly what `s` does. */
  ghost predicate SameOwned(s: Sched, s': Sched) {
    forall t :: Owns(s', t) <==> Owns(s, t)
  }

  lemma FreshInv(n: nat)
    requires 1 <= n <= MAX_CPUS
    ensures Inv(Fresh(n)) && forall t :: !Owns(Fresh(n), t)
  {
    forall c, t ensures !Queued(Fresh(n), c, t) && !Running(Fresh(n), c, t) {
    }
  }

  /** Adding an unowned task to one queue. */
  lemma AddQueued(s: Sched, c: nat, t: TaskId)
    requires Inv(s) && c < s.cpuCount && !Owns(s, t)
    requires EnqueueQ(s.queues[c], t).1.Ok?
    ensures var s' := s.(queues := s.queues[c := EnqueueQ(s.queues[c], t).0]);
            Inv(s') && forall u :: Owns(s', u) <==> Owns(s, u) || u == t
  {
    var s' := s.(queues := s.queues[c := EnqueueQ(s.queues[c], t).0]);
    assert forall d, u :: Queued(s', d, u) <==> Queued(s, d, u) || (d == c && u == t);
    assert forall d, u :: Running(s', d, u) <==> Running(s, d, u);
    assert !Queued(s, c, t) && forall d :: !Queued(s, d, t) && !Running(s, d, t);
    forall u ensures Owns(s', u) <==> Owns(s, u) || u == t {
      if u == t { assert Queued(s', c, t); }
      else if Owns(s, u) { var d :| Queued(s, d, u) || Running(s, d, u); assert Queued(s', d, u) || Running(s', d, u); }
    }
  }

  /** Replacing one queue by one that lacks `t` but is otherwise the same set. */
  lemma DropQueued(s: Sched, c: nat, q: Queue, t: TaskId)
    requires Inv(s) && c < s.cpuCount && Popped(s.queues[c], q, t)
    ensures var s' := s.(queues := s.queues[c := q]);
            Inv(s') && (forall u :: Owns(s', u) <==> Owns(s, u) && u != t)
  {
    var s' := s.(queues := s.queues[c := q]);
    assert forall d, u :: Queued(s', d, u) <==> Queued(s, d, u) && !(d == c && u == t);
    assert forall d, u :: Running(s', d, u) <==> Running(s, d, u);
    assert Queued(s, c, t);
    forall u ensures Owns(s', u) <==> Owns(s, u) && u != t {
      if Owns(s, u) && u != t {
        var d :| Queued(s, d, u) || Running(s, d, u);
        assert Queued(s', d, u) || Running(s', d, u);
      }
    }
  }

  /** Rotating one queue's cursor. */
  lemma TurnCursor(s: Sched, c: nat, q: Queue)
    requires Inv(s) && c < s.cpuCount && WellFormed(q) && q.tasks == s.queues[c].tasks
    ensures var s' := s.(queues := s.queues[c := q]); Inv(s') && SameOwned(s, s')
  {
    var s' := s.(queues := s.queues[c := q]);
    assert forall d, u :: Queued(s', d, u) <==> Queued(s, d, u);
    assert forall d, u :: Running(s', d, u) <==> Running(s, d, u);
  }

  /** Starting an unowned task on an idle CPU. */
  lemma StartRunning(s: Sched, c: nat, t: TaskId)
    requires Inv(s) && c < s.cpuCount && !Owns(s, t) && t != 0 && s.current[c] == None
    ensures var s' := s.(current := s.current[c := Some(t)]);
            Inv(s') && forall u :: Owns(s', u) <==> Owns(s, u) || u == t
  {
    var s' := s.(current := s.current[c := Some(t)]);
    assert forall d, u :: Queued(s', d, u) <==> Queued(s, d, u);
    assert forall d, u :: Running(s', d, u) <==> Running(s, d, u) || (d == c && u == t);
    assert forall d :: !Queued(s, d, t) && !Running(s, d, t);
    forall u ensures Owns(s', u) <==> Owns(s, u) || u == t {
      if u == t { assert Running(s', c, t); }
      else if Owns(s, u) { var d :| Queued(s, d, u) || Running(s, d, u); assert Queued(s', d, u) || Running(s', d, u); }
    }
  }

  lemma StopRunning(s: Sched, c: nat)
    requires Inv(s) && c < s.cpuCount && s.current[c].Some?
    ensures var s' := s.(current := s.current[c := None]);
            Inv(s') && forall u :: Owns(s', u) <==> Owns(s, u) && u != s.current[c].value
  {
    var s' := s.(current := s.current[c := None]);
    var t := s.current[c].value;
    assert Running(s, c, t);
    assert forall d, u :: Queued(s', d, u) <==> Queued(s, d, u);
    assert forall d, u :: Running(s', d, u) <==> Running(s, d, u) && !(d == c && u == t);
    forall u ensures Owns(s', u) <==> Owns(s, u) && u != t {
      if Owns(s, u) && u != t {
        var d :| Queued(s, d, u) || Running(s, d, u);
        assert Queued(s', d, u) || Running(s', d, u);
      }
    }
  }
}
