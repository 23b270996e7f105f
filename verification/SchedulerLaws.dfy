/** What every call of the coordinator answers and leaves behind, said of queues and slots alone. */
module SchedulerLaws {
  import opened Common
  import opened RunQueue
  import opened SchedulerModel
  import opened SchedulerSafety

  /** Nothing but the queues of `cpus` and the running slots of `cores` is different. */
  ghost predicate OnlyChanges(s: Sched, s': Sched, cpus: set<nat>, cores: set<nat>)
    requires Shape(s)
  {
    && |s'.queues| == |s.queues| && |s'.current| == |s.current| && s'.cpuCount == s.cpuCount
    && (forall c: nat :: c < MAX_CPUS && c !in cpus ==> s'.queues[c] == s.queues[c])
    && (forall c: nat :: c < MAX_CPUS && c !in cores ==> s'.current[c] == s.current[c])
  }

  /** `q'` has `t` at its back and is otherwise `q`. */
  predicate Appended(q: Queue, q': Queue, t: TaskId) { q' == Queue(q.tasks + [t], q.cursor) }

  /** `q'` is `q` without its slot `i`; the cursor stays on its slot number, modulo the new length. */
  predicate Closed(q: Queue, q': Queue, i: nat) {
    && i < |q.tasks| && q'.tasks == q.tasks[..i] + q.tasks[i + 1..]
    && q'.cursor == if q'.tasks == [] then 0 else q.cursor % |q'.tasks|
  }

  /** Configuring leaves nothing owned, on as many CPUs as asked for within 1 and 32. */
  lemma ConfigureExactly(n: nat)
    ensures var s := ConfigureStep(n);
            && Inv(s) && s.nextAssignment == 0 && (forall t :: !Owns(s, t))
            && (if n == 0 then s.cpuCount == 1 else if n <= 32 then s.cpuCount == n else s.cpuCount == 32)
  {
    FreshInv(ConfigureStep(n).cpuCount);
  }

  // ---------------------------------------------------------------------
  // Assignment
  // ---------------------------------------------------------------------

  /** A least-loaded CPU, the first one in rotation. */
  predicate FirstLeast(s: Sched, c: nat)
    requires Shape(s)
  {
    && c < s.cpuCount
    && forall d: nat :: d < s.cpuCount ==>
         Load(s, c) <= Load(s, d) && (OffsetOf(s, d) < OffsetOf(s, c) ==> Load(s, c) < Load(s, d))
  }

  lemma CandidateOffset(s: Sched, o: nat)
    requires Shape(s) && o < s.cpuCount
    ensures OffsetOf(s, Candidate(s, o)) == o
  {
  }

  lemma ScanFindsFirstLeast(s: Sched)
    requires Shape(s)
    ensures FirstLeast(s, LeastLoaded(s, s.cpuCount))
  {
    var o := LeastLoadedIsFirstMinimum(s, s.cpuCount);
    var c := Candidate(s, o);
    CandidateOffset(s, o);
    forall d: nat | d < s.cpuCount
      ensures Load(s, c) <= Load(s, d) && (OffsetOf(s, d) < OffsetOf(s, c) ==> Load(s, c) < Load(s, d))
    {
      var p := OffsetOf(s, d);
      CandidateOffset(s, p);
      assert d == Candidate(s, p);
    }
  }

  /** Enqueue succeeds exactly for an unowned task when some active queue has room, and puts it at the back of the
      first least-loaded queue in rotation; the rotation then starts after that CPU. */
  lemma EnqueueExactly(s: Sched, t: TaskId)
    requires Inv(s)
    ensures var (s', r) := EnqueueStep(s, t);
            && (r.Ok? <==> t != 0 && !Owns(s, t) && exists c: nat :: c < s.cpuCount && Load(s, c) < MAX_RUN_QUEUE_TASKS)
            && (r.Err? ==> s' == s && r.error == if t == 0 then InvalidTask else if Owns(s, t) then Duplicate else Full)
            && (r.Ok? ==> && FirstLeast(s, r.value) && OnlyChanges(s, s', {r.value}, {})
                          && Appended(s.queues[r.value], s'.queues[r.value], t)
                          && s'.nextAssignment == (r.value + 1) % s.cpuCount)
  {
    ActiveOwnsAll(s, t);
    ScanFindsFirstLeast(s);
    var c := LeastLoaded(s, s.cpuCount);
    if !Owns(s, t) { assert !Queued(s, c, t); }
    WrapIsModulo(c + 1, s.cpuCount);
    hide LeastLoaded, OwnedByActive;
  }

  /** On a named CPU only that queue's room counts. */
  lemma EnqueueOnCpuExactly(s: Sched, c: nat, t: TaskId)
    requires Inv(s)
    ensures var (s', r) := EnqueueOnCpuStep(s, c, t);
            && (r.Ok? <==> c < s.cpuCount && t != 0 && !Owns(s, t) && Load(s, c) < MAX_RUN_QUEUE_TASKS)
            && (r.Err? ==> s' == s && r.error == if c >= s.cpuCount then InvalidCpu else if t == 0 then InvalidTask
                                                 else if Owns(s, t) then Duplicate else Full)
            && (r.Ok? ==> && OnlyChanges(s, s', {c}, {}) && Appended(s.queues[c], s'.queues[c], t)
                          && s'.nextAssignment == s.nextAssignment)
  {
    ActiveOwnsAll(s, t);
    if c < s.cpuCount {
      assert s.queues[c := s.queues[c]] == s.queues;
      if !Owns(s, t) { assert !Queued(s, c, t); }
    }
  }

  // ---------------------------------------------------------------------
  // Leaving a queue
  // ---------------------------------------------------------------------

  lemma RemoveCloses(q: Queue, t: TaskId, i: nat)
    requires WellFormed(q) && i < |q.tasks| && q.tasks[i] == t
    ensures Closed(q, RemoveQ(q, t).0, i)
  {
    IndexOfSlot(q.tasks, i);
    var q' := RemoveQ(q, t).0;
    if q'.tasks != [] { WrapIsModulo(q.cursor, |q'.tasks|); }
  }

  /** Dequeue takes the task out of the CPU's running slot or of its queue, closing the gap. */
  lemma DequeueExactly(s: Sched, c: nat, t: TaskId)
    requires Inv(s)
    ensures var (s', r) := DequeueStep(s, c, t);
            && (r == Err(InvalidCpu) <==> c >= s.cpuCount) && (r.Err? ==> r.error == InvalidCpu)
            && (r == Ok(true) <==> c < s.cpuCount && (Queued(s, c, t) || Running(s, c, t)))
            && s'.nextAssignment == s.nextAssignment
            && (r != Ok(true) ==> s' == s)
            && (r == Ok(true) && Running(s, c, t) ==> OnlyChanges(s, s', {}, {c}) && s'.current[c] == None)
            && (r == Ok(true) && Queued(s, c, t) ==>
                  && OnlyChanges(s, s', {c}, {})
                  && exists i: nat {:trigger s.queues[c].tasks[i]} ::
                       i < Load(s, c) && s.queues[c].tasks[i] == t && Closed(s.queues[c], s'.queues[c], i))
  {
    DequeueKeeps(s, c, t);
    if c < s.cpuCount && Queued(s, c, t) {
      var q := s.queues[c];
      var i: nat :| i < |q.tasks| && q.tasks[i] == t;
      RemoveCloses(q, t, i);
    }
  }

  /** Picking answers the task under the cursor and moves the cursor on, no more. */
  lemma PickNextExactly(s: Sched, c: nat)
    requires Inv(s)
    ensures var (s', r) := PickNextStep(s, c);
            && (c >= s.cpuCount ==> r == Err(InvalidCpu) && s' == s)
            && (c < s.cpuCount && Load(s, c) == 0 ==> r == Ok(None) && s' == s)
            && (c < s.cpuCount && Load(s, c) > 0 ==>
                  var q := s.queues[c];
                  && r == Ok(Some(q.tasks[q.cursor])) && OnlyChanges(s, s', {c}, {})
                  && s'.queues[c] == Queue(q.tasks, (q.cursor + 1) % |q.tasks|)
                  && s'.nextAssignment == s.nextAssignment)
  {
    if c < s.cpuCount {
      var q := s.queues[c];
      if q.tasks == [] { assert s.queues[c := q] == s.queues; } else { WrapIsModulo(q.cursor + 1, |q.tasks|); }
    }
  }

  // ---------------------------------------------------------------------
  // Stealing
  // ---------------------------------------------------------------------

  /** A busiest peer with work, the lowest-numbered one. */
  predicate FirstBusiest(s: Sched, thief: nat, v: nat)
    requires Shape(s)
  {
    && v < s.cpuCount && v != thief && Load(s, v) > 0
    && forall d: nat :: d < s.cpuCount && d != thief ==>
         Load(s, d) <= Load(s, v) && (d < v ==> Load(s, d) < Load(s, v))
  }

  /** Some peer has work. */
  predicate PeerHasWork(s: Sched, thief: nat)
    requires Shape(s)
  {
    exists d: nat :: d < s.cpuCount && d != thief && Load(s, d) > 0
  }

  /** The first task of queue `v` has moved to the back of queue `thief`. */
  ghost predicate Moved(s: Sched, s': Sched, v: nat, thief: nat, t: TaskId)
    requires Shape(s) && v < MAX_CPUS && thief < MAX_CPUS
  {
    && OnlyChanges(s, s', {v, thief}, {}) && Load(s, v) > 0 && t == s.queues[v].tasks[0]
    && Closed(s.queues[v], s'.queues[v], 0) && Appended(s.queues[thief], s'.queues[thief], t)
    && s'.nextAssignment == s.nextAssignment
  }

  /** A steal moves the oldest task of the first busiest peer, exactly when the thief has room and a peer has work. */
  lemma StealExactly(s: Sched, thief: nat)
    requires Inv(s)
    ensures var (s', r) := StealStep(s, thief);
            && (r.Stolen? <==> thief < s.cpuCount && Load(s, thief) < MAX_RUN_QUEUE_TASKS && PeerHasWork(s, thief))
            && (!r.Stolen? ==> s' == s && r == if thief >= s.cpuCount then Refused(InvalidCpu)
                                               else if Load(s, thief) == MAX_RUN_QUEUE_TASKS then Refused(Full)
                                               else Nothing)
            && (r.Stolen? ==> exists v: nat :: FirstBusiest(s, thief, v) && Moved(s, s', v, thief, r.task))
  {
    StealKeeps(s, thief);
    if thief < s.cpuCount && Load(s, thief) < MAX_RUN_QUEUE_TASKS {
      BusiestIsFirstMaximum(s, thief, s.cpuCount);
      var v := Busiest(s, thief, s.cpuCount);
      if v.Some? {
        RemoveCloses(s.queues[v.value], s.queues[v.value].tasks[0], 0);
        assert FirstBusiest(s, thief, v.value);
        assert Moved(s, StealStep(s, thief).0, v.value, thief, s.queues[v.value].tasks[0]);
      }
    }
  }

  // ---------------------------------------------------------------------
  // Running
  // ---------------------------------------------------------------------

  /** The queue after the task under the cursor left: the cursor has moved on before the gap closed. */
  predicate Taken(q: Queue, q': Queue) {
    && q.cursor < |q.tasks| && q'.tasks == q.tasks[..q.cursor] + q.tasks[q.cursor + 1..]
    && q'.cursor == AfterPop(q.cursor, |q.tasks|)
  }

  /** The cursor steps on in the `n` slots, and is then taken modulo the slots that are left. */
  function AfterPop(c: nat, n: nat): nat
    requires n > 0
  {
    if n == 1 then 0 else ((c + 1) % n) % (n - 1)
  }

  lemma PopTakes(q: Queue)
    requires WellFormed(q) && q.tasks != []
    ensures var (q', t) := PopQ(q, None, |q.tasks|); Taken(q, q') && t == Some(q.tasks[q.cursor])
  {
    hide PopQ, Wrap, AfterPop;
    PopUnderCursor(q);
    CursorAfterPop(q.cursor, |q.tasks|);
  }

  lemma CursorAfterPop(c: nat, n: nat)
    requires c < n
    ensures Wrap(Wrap(c + 1, n), n - 1) == AfterPop(c, n)
  {
    WrapIsModulo(c + 1, n);
    if n > 1 { WrapIsModulo(Wrap(c + 1, n), n - 1); }
  }

  lemma PopSingle(t: TaskId)
    ensures PopQ(Queue([t], 0), None, 1) == (EMPTY, Some(t))
  {
    assert RemoveQ(Queue([t], 0), t).0 == EMPTY;
  }

  /** Dispatch on an idle CPU runs the task under its cursor; with nothing queued it runs the first task of the first
      busiest peer if stealing is allowed and there is one; else it is idle. */
  lemma DispatchExactly(s: Sched, c: nat, allowSteal: bool)
    requires Inv(s)
    ensures var (s', r) := DispatchStep(s, c, None, allowSteal);
            && s'.nextAssignment == s.nextAssignment
            && (c >= s.cpuCount ==> r == BadCpu && s' == s)
            && (c < s.cpuCount && s.current[c].Some? ==> r == Busy(s.current[c].value) && s' == s)
            && (c < s.cpuCount && s.current[c] == None && Load(s, c) > 0 ==>
                  var q := s.queues[c];
                  && r == Dispatched(q.tasks[q.cursor]) && OnlyChanges(s, s', {c}, {c})
                  && Taken(q, s'.queues[c]) && s'.current[c] == Some(r.task))
            && (c < s.cpuCount && s.current[c] == None && Load(s, c) == 0 && !(allowSteal && PeerHasWork(s, c)) ==>
                  r == Idle && s' == s)
            && (c < s.cpuCount && s.current[c] == None && Load(s, c) == 0 && allowSteal && PeerHasWork(s, c) ==>
                  exists v: nat :: FirstBusiest(s, c, v) && Robbed(s, s', v, c) && r == Stole(s.queues[v].tasks[0]))
  {
    DispatchKeeps(s, c, allowSteal);
    if c < s.cpuCount && s.current[c] == None {
      var q := s.queues[c];
      if q.tasks != [] {
        PopTakes(q);
      } else {
        assert s.(queues := s.queues[c := q]) == s;
        if allowSteal { DispatchSteals(s, c); }
      }
      hide PopQ, Inv, Taken, StealStep;
    }
  }

  /** The first task of queue `v` runs on `c`. */
  ghost predicate Robbed(s: Sched, s': Sched, v: nat, c: nat)
    requires Shape(s) && v < MAX_CPUS && c < MAX_CPUS
  {
    && OnlyChanges(s, s', {v}, {c}) && Load(s, v) > 0 && Closed(s.queues[v], s'.queues[v], 0)
    && s'.current[c] == Some(s.queues[v].tasks[0])
  }

  lemma DispatchSteals(s: Sched, c: nat)
    requires Inv(s) && c < s.cpuCount && s.current[c] == None && s.queues[c] == EMPTY
    ensures var (s', r) := DispatchStep(s, c, None, true);
            && s'.nextAssignment == s.nextAssignment
            && (!PeerHasWork(s, c) ==> r == Idle && s' == s)
            && (PeerHasWork(s, c) ==>
                  exists v: nat :: FirstBusiest(s, c, v) && Robbed(s, s', v, c) && r == Stole(s.queues[v].tasks[0]))
  {
    StealExactly(s, c);
    DispatchAfterSteal(s, c);
    var (robbed, stolen) := StealStep(s, c);
    hide StealStep, DispatchStep, Inv, FirstBusiest;
    if stolen.Stolen? {
      var v: nat :| FirstBusiest(s, c, v) && Moved(s, robbed, v, c, stolen.task);
      assert v != c by { BusiestIsPeer(s, c, v); }
      MovedRuns(s, robbed, v, c, stolen.task);
    }
  }

  lemma BusiestIsPeer(s: Sched, thief: nat, v: nat)
    requires Shape(s) && FirstBusiest(s, thief, v)
    ensures v != thief && v < s.cpuCount
  {
  }

  /** The state in which the stolen task runs instead of being queued. */
  function Runs(s: Sched, c: nat, t: TaskId): Sched
    requires c < |s.queues| && c < |s.current|
  {
    s.(queues := s.queues[c := EMPTY], current := s.current[c := Some(t)])
  }

  lemma DispatchAfterSteal(s: Sched, c: nat)
    requires Inv(s) && c < s.cpuCount && s.current[c] == None && s.queues[c] == EMPTY
    ensures var (robbed, stolen) := StealStep(s, c);
            DispatchStep(s, c, None, true) == if stolen.Stolen? then (Runs(robbed, c, stolen.task), Stole(stolen.task))
                                              else (s, Idle)
  {
    assert s.(queues := s.queues[c := EMPTY]) == s;
    StealKeeps(s, c);
    var (robbed, stolen) := StealStep(s, c);
    hide StealStep, Inv, Busiest;
    if stolen.Stolen? {
      PopSingle(stolen.task);
      assert robbed.queues[c] == Queue([stolen.task], 0);
      hide PopQ;
    }
  }

  lemma MovedRuns(s: Sched, robbed: Sched, v: nat, c: nat, t: TaskId)
    requires Shape(s) && v < MAX_CPUS && c < MAX_CPUS && v != c && s.queues[c] == EMPTY && Moved(s, robbed, v, c, t)
    ensures |robbed.queues| == |robbed.current| == MAX_CPUS && Robbed(s, Runs(robbed, c, t), v, c)
  {
  }

  /** Complete puts the running task at the back of its CPU's queue and frees the slot; if the queue is full the slot
      is freed all the same. */
  lemma CompleteExactly(s: Sched, c: nat)
    requires Inv(s)
    ensures var (s', r) := CompleteStep(s, c);
            && s'.nextAssignment == s.nextAssignment
            && (c >= s.cpuCount ==> r == Err(InvalidCpu) && s' == s)
            && (c < s.cpuCount && s.current[c] == None ==> r == Ok(None) && s' == s)
            && (c < s.cpuCount && s.current[c].Some? ==>
                  var full := Load(s, c) == MAX_RUN_QUEUE_TASKS;
                  && r == (if full then Err(Full) else Ok(s.current[c])) && s'.current[c] == None
                  && OnlyChanges(s, s', if full then {} else {c}, {c})
                  && (!full ==> Appended(s.queues[c], s'.queues[c], s.current[c].value)))
  {
    if c < s.cpuCount && s.current[c].Some? {
      var t := s.current[c].value;
      assert Running(s, c, t) && !Queued(s, c, t);
      assert s.queues[c := s.queues[c]] == s.queues;
    }
  }

  /** A handoff of a busy CPU gives its task back and starts nothing; of an idle one it dispatches. */
  lemma HandoffExactly(s: Sched, c: nat, allowSteal: bool)
    requires Inv(s)
    ensures var (s', previous, r) := HandoffStep(s, c, allowSteal);
            && (c >= s.cpuCount ==> previous == None && r == BadCpu && s' == s)
            && (c < s.cpuCount && s.current[c].Some? ==>
                  var full := Load(s, c) == MAX_RUN_QUEUE_TASKS;
                  && previous == s.current[c] && r == Idle && s'.current[c] == None
                  && s'.nextAssignment == s.nextAssignment && OnlyChanges(s, s', if full then {} else {c}, {c})
                  && (!full ==> Appended(s.queues[c], s'.queues[c], previous.value)))
            && (c < s.cpuCount && s.current[c] == None ==>
                  previous == None && (s', r) == DispatchStep(s, c, None, allowSteal))
  {
    CompleteExactly(s, c);
  }
}
