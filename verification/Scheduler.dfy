/** The run-queue coordinator as the kernel stores it: 32 queue objects updated in place. */
module Scheduler {
  import opened Common
  import opened RunQueue
  import opened SchedulerModel
  import opened SchedulerSafety

  lemma RotationIsModulo(next: nat, offset: nat, cpuCount: nat)
    requires next < cpuCount && offset < cpuCount
    ensures (next + offset) % cpuCount == if next + offset < cpuCount then next + offset else next + offset - cpuCount
  {
  }

  class MultiCoreScheduler {
    const queues: seq<CpuRunQueue>
    const current: array<Option<TaskId>>
    var cpuCount: nat
    var nextAssignment: nat
    ghost var model: Sched

    /** The fields hold what `model` says, in 32 queues that share no storage. */
    ghost predicate Stored()
      reads this, current, queues, set q | q in queues :: q.tasks
    {
      && |queues| == MAX_CPUS && current.Length == MAX_CPUS && Shape(model)
      && cpuCount == model.cpuCount && nextAssignment == model.nextAssignment && current[..] == model.current
      && (forall c, d :: 0 <= c < d < MAX_CPUS ==> queues[c] != queues[d] && queues[c].tasks != queues[d].tasks)
      && (forall c :: 0 <= c < MAX_CPUS ==> queues[c].Valid() && queues[c].View() == model.queues[c])
    }

    ghost predicate Valid()
      reads this, current, queues, set q | q in queues :: q.tasks
    {
      Stored() && Inv(model)
    }

    constructor ()
      ensures Valid() && model == Fresh(1)
      ensures fresh(current) && forall q :: q in queues ==> fresh(q) && fresh(q.tasks)
    {
      var qs: seq<CpuRunQueue> := [];
      while |qs| < MAX_CPUS
        invariant |qs| <= MAX_CPUS
        invariant forall q :: q in qs ==> fresh(q) && fresh(q.tasks) && q.Valid() && q.View() == EMPTY
        invariant forall c, d :: 0 <= c < d < |qs| ==> qs[c] != qs[d] && qs[c].tasks != qs[d].tasks
      {
        var q := new CpuRunQueue();
        qs := qs + [q];
      }
      queues := qs;
      current := new Option<TaskId>[MAX_CPUS](_ => None);
      cpuCount, nextAssignment, model := 1, 0, Fresh(1);
      FreshInv(1);
    }

    // One queue operation, seen from the whole scheduler.

    method Put(c: nat, t: TaskId) returns (r: QueueResult<()>)
      requires Stored() && c < MAX_CPUS
      modifies `model, queues[c], queues[c].tasks
      ensures Stored()
      ensures model == old(model).(queues := old(model).queues[c := EnqueueQ(old(model).queues[c], t).0])
      ensures r == EnqueueQ(old(model).queues[c], t).1
    {
      r := queues[c].Enqueue(t);
      model := model.(queues := model.queues[c := EnqueueQ(model.queues[c], t).0]);
    }

    method Take(c: nat, t: TaskId) returns (found: bool)
      requires Stored() && c < MAX_CPUS
      modifies `model, queues[c], queues[c].tasks
      ensures Stored()
      ensures model == old(model).(queues := old(model).queues[c := RemoveQ(old(model).queues[c], t).0])
      ensures found == RemoveQ(old(model).queues[c], t).1
    {
      found := queues[c].Remove(t);
      model := model.(queues := model.queues[c := RemoveQ(model.queues[c], t).0]);
    }

    method Pop(c: nat) returns (t: Option<TaskId>)
      requires Stored() && c < MAX_CPUS
      modifies `model, queues[c], queues[c].tasks
      ensures Stored()
      ensures var q := old(model).queues[c];
              model == old(model).(queues := old(model).queues[c := PopQ(q, None, Load(old(model), c)).0])
      ensures t == PopQ(old(model).queues[c], None, Load(old(model), c)).1
    {
      t := queues[c].PopNextExcluding(None);
      model := model.(queues := model.queues[c := PopQ(model.queues[c], None, Load(model, c)).0]);
    }

    method Turn(c: nat) returns (t: Option<TaskId>)
      requires Stored() && c < MAX_CPUS
      modifies `model, queues[c]
      ensures Stored()
      ensures model == old(model).(queues := old(model).queues[c := NextQ(old(model).queues[c]).0])
      ensures t == NextQ(old(model).queues[c]).1
    {
      t := queues[c].Next();
      model := model.(queues := model.queues[c := NextQ(model.queues[c]).0]);
    }

    method SetCurrent(c: nat, t: Option<TaskId>)
      requires Stored() && c < MAX_CPUS
      modifies `model, current
      ensures Stored() && model == old(model).(current := old(model).current[c := t])
    {
      current[c] := t;
      model := model.(current := model.current[c := t]);
    }

    method Clear(c: nat)
      requires Stored() && c < MAX_CPUS
      modifies `model, queues[c], queues[c].tasks
      ensures Stored() && model == old(model).(queues := old(model).queues[c := EMPTY])
    {
      queues[c].Reset();
      model := model.(queues := model.queues[c := EMPTY]);
    }

    method AssignAfter(selected: nat)
      requires Stored() && selected < cpuCount
      modifies `model, `nextAssignment
      ensures Stored()
      ensures model == old(model).(nextAssignment := if selected + 1 == cpuCount then 0 else selected + 1)
    {
      WrapIsModulo(selected + 1, cpuCount);
      nextAssignment := (selected + 1) % cpuCount;
      model := model.(nextAssignment := nextAssignment);
    }

    // The coordinator's operations.

    method Configure(n: nat) returns (configured: nat)
      requires Valid()
      modifies this, current, queues, set q | q in queues :: q.tasks
      ensures Valid() && model == ConfigureStep(n) && configured == cpuCount
    {
      var c := 0;
      while c < MAX_CPUS
        invariant c <= MAX_CPUS && Stored()
        invariant forall d :: 0 <= d < c ==> model.queues[d] == EMPTY && model.current[d] == None
      {
        Clear(c);
        SetCurrent(c, None);
        c := c + 1;
      }
      cpuCount := if n < 1 then 1 else if n > MAX_CPUS then MAX_CPUS else n;
      nextAssignment := 0;
      FreshInv(cpuCount);
      assert model.queues == Fresh(cpuCount).queues && model.current == Fresh(cpuCount).current;
      model := Fresh(cpuCount);
      configured := cpuCount;
    }

    /** Does an active CPU queue or run this task? */
    method IsOwned(t: TaskId) returns (owned: bool)
      requires Stored()
      ensures owned == OwnedByActive(model, t)
    {
      for c := 0 to cpuCount
        invariant forall d :: 0 <= d < c ==> !Queued(model, d, t) && !Running(model, d, t)
      {
        if t in queues[c].tasks[..queues[c].len] || current[c] == Some(t) {
          assert Queued(model, c, t) || Running(model, c, t);
          return true;
        }
      }
      owned := false;
    }

    method CandidateAt(offset: nat) returns (c: nat, load: nat)
      requires Stored() && offset < cpuCount
      ensures c == Candidate(model, offset) && load == Load(model, c)
    {
      RotationIsModulo(nextAssignment, offset, cpuCount);
      c := (nextAssignment + offset) % cpuCount;
      load := queues[c].len;
    }

    method SelectLeastLoaded() returns (selected: nat)
      requires Stored()
      ensures selected == LeastLoaded(model, cpuCount)
    {
      hide Candidate;
      var selectedLoad;
      selected, selectedLoad := CandidateAt(0);
      for offset := 1 to cpuCount
        invariant selected == LeastLoaded(model, offset) && selectedLoad == Load(model, selected)
      {
        var candidate, candidateLoad := CandidateAt(offset);
        if candidateLoad < selectedLoad {
          selected, selectedLoad := candidate, candidateLoad;
        }
      }
    }

    method Assign(t: TaskId) returns (r: QueueResult<nat>)
      requires Stored()
      modifies this, queues, set q | q in queues :: q.tasks
      ensures Stored() && (model, r) == EnqueueStep(old(model), t)
    {
      hide LeastLoaded;
      if t == 0 { return Err(InvalidTask); }
      var owned := IsOwned(t);
      if owned { return Err(Duplicate); }
      var selected := SelectLeastLoaded();
      var e := Put(selected, t);
      if e.Err? {
        assert model.queues == old(model).queues;
        return Err(e.error);
      }
      AssignAfter(selected);
      r := Ok(selected);
    }

    method Enqueue(t: TaskId) returns (r: QueueResult<nat>)
      requires Valid()
      modifies this, queues, set q | q in queues :: q.tasks
      ensures Valid() && (model, r) == EnqueueStep(old(model), t)
    {
      EnqueueKeeps(model, t);
      r := Assign(t);
    }

    method EnqueueOnCpu(c: nat, t: TaskId) returns (r: QueueResult<()>)
      requires Valid()
      modifies this, queues, set q | q in queues :: q.tasks
      ensures Valid() && (model, r) == EnqueueOnCpuStep(old(model), c, t)
    {
      assert Inv(EnqueueOnCpuStep(model, c, t).0) by { EnqueueOnCpuKeeps(model, c, t); }
      if c >= cpuCount { return Err(InvalidCpu); }
      if t == 0 { return Err(InvalidTask); }
      var owned := IsOwned(t);
      if owned { return Err(Duplicate); }
      r := Put(c, t);
    }

    method Dequeue(c: nat, t: TaskId) returns (r: QueueResult<bool>)
      requires Valid()
      modifies this, current, queues, set q | q in queues :: q.tasks
      ensures Valid() && (model, r) == DequeueStep(old(model), c, t)
    {
      assert Inv(DequeueStep(model, c, t).0) by { DequeueKeeps(model, c, t); }
      if c >= cpuCount { return Err(InvalidCpu); }
      if current[c] == Some(t) {
        SetCurrent(c, None);
        return Ok(true);
      }
      var found := Take(c, t);
      r := Ok(found);
    }

    method PickNext(c: nat) returns (r: QueueResult<Option<TaskId>>)
      requires Valid()
      modifies this, queues, set q | q in queues :: q.tasks
      ensures Valid() && (model, r) == PickNextStep(old(model), c)
    {
      assert Inv(PickNextStep(model, c).0) by { PickNextKeeps(model, c); }
      if c >= cpuCount { return Err(InvalidCpu); }
      var t := Turn(c);
      r := Ok(t);
    }

    method SelectVictim(thief: nat) returns (victim: Option<nat>)
      requires Stored() && thief < cpuCount
      ensures victim == Busiest(model, thief, cpuCount)
    {
      victim := None;
      for c := 0 to cpuCount
        invariant victim == Busiest(model, thief, c)
      {
        if c != thief && queues[c].len > 0 && (victim == None || queues[c].len > queues[victim.value].len) {
          victim := Some(c);
        }
      }
    }

    /** The assertion is the kernel's `expect`: the thief's queue always takes the task. */
    method Steal(thief: nat) returns (r: StealResult)
      requires Valid()
      modifies this, queues, set q | q in queues :: q.tasks
      ensures Valid() && (model, r) == StealStep(old(model), thief) && r != Panic
    {
      StealKeeps(model, thief);
      if thief >= cpuCount { return Refused(InvalidCpu); }
      if queues[thief].len == MAX_RUN_QUEUE_TASKS { return Refused(Full); }
      var victim := SelectVictim(thief);
      if victim == None { return Nothing; }
      var t := queues[victim.value].tasks[0];
      assert t == model.queues[victim.value].tasks[0];
      var _ := Take(victim.value, t);
      var e := Put(thief, t);
      assert e.Ok?;
      r := Stolen(t);
    }

    method DispatchMode(c: nat, allowSteal: bool) returns (r: DispatchResult)
      requires Valid()
      modifies this, current, queues, set q | q in queues :: q.tasks
      ensures Valid() && (model, r) == DispatchStep(old(model), c, None, allowSteal)
    {
      DispatchKeeps(model, c, allowSteal);
      if c >= cpuCount { return BadCpu; }
      if current[c].Some? { return Busy(current[c].value); }
      var t := Pop(c);
      if t.Some? {
        SetCurrent(c, t);
        return Dispatched(t.value);
      }
      assert model == old(model);
      if allowSteal {
        var stolen := Steal(c);
        if stolen.Stolen? {
          var u := Pop(c);
          var selected := if u.Some? then u.value else stolen.task;
          SetCurrent(c, Some(selected));
          return Stole(selected);
        }
      }
      r := Idle;
    }

    method Complete(c: nat) returns (r: QueueResult<Option<TaskId>>)
      requires Valid()
      modifies this, current, queues, set q | q in queues :: q.tasks
      ensures Valid() && (model, r) == CompleteStep(old(model), c)
    {
      assert Inv(CompleteStep(model, c).0) by { CompleteKeeps(model, c); }
      if c >= cpuCount { return Err(InvalidCpu); }
      if current[c] == None { return Ok(None); }
      var t := current[c].value;
      SetCurrent(c, None);
      var e := Put(c, t);
      r := if e.Ok? then Ok(Some(t)) else Err(e.error);
    }

    method BoundedHandoff(c: nat, allowSteal: bool) returns (previous: Option<TaskId>, r: DispatchResult)
      requires Valid()
      modifies this, current, queues, set q | q in queues :: q.tasks
      ensures Valid() && (model, previous, r) == HandoffStep(old(model), c, allowSteal)
    {
      if c >= cpuCount { return None, BadCpu; }
      previous := current[c];
      if previous.Some? {
        var _ := Complete(c);
        return previous, Idle;
      }
      r := DispatchMode(c, allowSteal);
    }
  }
}
