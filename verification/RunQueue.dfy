/** The fixed-size cursor queue that each logical CPU owns, and its value-level specification. */
module RunQueue {
  import opened Common

  type TaskId = nat

  const MAX_RUN_QUEUE_TASKS := 64

  datatype RunQueueError = InvalidCpu | InvalidTask | Full | Duplicate

  type QueueResult<+T> = Result<T, RunQueueError>

  // ---------------------------------------------------------------------
  // Specification on values
  // ---------------------------------------------------------------------

  /** The occupied slots of a queue, in slot order, and its rotation cursor. */
  datatype Queue = Queue(tasks: seq<TaskId>, cursor: nat)

  const EMPTY := Queue([], 0)

  /** No null task, no task twice, capacity respected, cursor on an occupied slot. */
  predicate WellFormed(q: Queue) {
    && |q.tasks| <= MAX_RUN_QUEUE_TASKS
    && Distinct(q.tasks)
    && 0 !in q.tasks
    && (if q.tasks == [] then q.cursor == 0 else q.cursor < |q.tasks|)
  }

  function EnqueueQ(q: Queue, t: TaskId): (Queue, QueueResult<()>) {
    if t == 0 then (q, Err(InvalidTask))
    else if t in q.tasks then (q, Err(Duplicate))
    else if |q.tasks| == MAX_RUN_QUEUE_TASKS then (q, Err(Full))
    else (q.(tasks := q.tasks + [t]), Ok(()))
  }

  function IndexOf(s: seq<TaskId>, t: TaskId): (i: nat)
    requires t in s
    ensures i < |s| && s[i] == t && t !in s[..i]
  {
    if s[0] == t then 0 else 1 + IndexOf(s[1..], t)
  }

  /** `c % n` for a cursor at most one past the end, and zero when there is nothing to point at. */
  function Wrap(c: nat, n: nat): nat {
    if c < n then c else 0
  }

  lemma WrapIsModulo(c: nat, n: nat)
    requires 0 < n && c <= n
    ensures c % n == Wrap(c, n)
  {
  }

  function RemoveAt(q: Queue, i: nat): Queue
    requires i < |q.tasks|
  {
    var rest := q.tasks[..i] + q.tasks[i + 1..];
    Queue(rest, Wrap(q.cursor, |rest|))
  }

  function RemoveQ(q: Queue, t: TaskId): (Queue, bool) {
    if t in q.tasks then (RemoveAt(q, IndexOf(q.tasks, t)), true) else (q, false)
  }

  function NextQ(q: Queue): (Queue, Option<TaskId>) {
    if q.tasks == [] then (q, None)
    else (q.(cursor := Wrap(q.cursor + 1, |q.tasks|)), Some(q.tasks[Wrap(q.cursor, |q.tasks|)]))
  }

  /** At most `attempts` rotations looking for a task other than `excluded`. */
  function PopQ(q: Queue, excluded: Option<TaskId>, attempts: nat): (Queue, Option<TaskId>)
    decreases attempts
  {
    if attempts == 0 || q.tasks == [] then (q, None)
    else
      var (rotated, t) := NextQ(q);
      if t != excluded then (RemoveQ(rotated, t.value).0, t)
      else PopQ(rotated, excluded, attempts - 1)
  }

  lemma RemoveKeepsWellFormed(q: Queue, t: TaskId)
    requires WellFormed(q) && t in q.tasks
    ensures WellFormed(RemoveQ(q, t).0)
    ensures forall u :: u in RemoveQ(q, t).0.tasks <==> u in q.tasks && u != t
    ensures |RemoveQ(q, t).0.tasks| == |q.tasks| - 1
  {
    var i := IndexOf(q.tasks, t);
    var rest := RemoveQ(q, t).0.tasks;
    forall u ensures u in rest <==> u in q.tasks && u != t {
      if u in q.tasks && u != t {
        var j :| 0 <= j < |q.tasks| && q.tasks[j] == u;
        assert rest[if j < i then j else j - 1] == u;
      }
    }
  }

  /** In a well-formed queue the index of a slot is recovered from its task. */
  lemma IndexOfSlot(s: seq<TaskId>, i: nat)
    requires Distinct(s) && i < |s|
    ensures IndexOf(s, s[i]) == i
  {
  }

  /** The other tasks, in their order. */
  function Others(s: seq<TaskId>, t: TaskId): seq<TaskId>
    requires t in s
  {
    s[..IndexOf(s, t)] + s[IndexOf(s, t) + 1..]
  }

  /** Removing the task a rotation yields takes out that task alone and keeps the others' order. */
  lemma PopOne(q: Queue)
    requires WellFormed(q) && q.tasks != []
    ensures var (rotated, t) := NextQ(q);
            var q' := RemoveQ(rotated, t.value).0;
            Popped(q, q', t.value) && q'.tasks == Others(q.tasks, t.value)
  {
    var (rotated, t) := NextQ(q);
    RemoveKeepsWellFormed(rotated, t.value);
  }

  /** With nothing excluded, the slot under the cursor is popped at the first attempt. */
  lemma PopUnderCursor(q: Queue)
    requires WellFormed(q) && q.tasks != []
    ensures var n, c := |q.tasks|, q.cursor;
            PopQ(q, None, n) == (Queue(q.tasks[..c] + q.tasks[c + 1..], Wrap(Wrap(c + 1, n), n - 1)), Some(q.tasks[c]))
  {
    IndexOfSlot(q.tasks, q.cursor);
  }

  /** `q'` is `q` after `t`, and nothing else, has left it. */
  ghost predicate Popped(q: Queue, q': Queue, t: TaskId) {
    && WellFormed(q')
    && t in q.tasks
    && |q'.tasks| == |q.tasks| - 1
    && forall u :: u in q'.tasks <==> u in q.tasks && u != t
  }

  /** What the handoff promises: a successor other than `excluded` is found
      exactly when one is queued, and it alone leaves the queue. */
  lemma {:induction false} PopFinds(q: Queue, excluded: Option<TaskId>)
    requires WellFormed(q)
    ensures var (q', t) := PopQ(q, excluded, |q.tasks|);
            if forall u :: u in q.tasks ==> Some(u) == excluded
            then t == None && q'.tasks == q.tasks && WellFormed(q')
            else t.Some? && t != excluded && Popped(q, q', t.value) && q'.tasks == Others(q.tasks, t.value)
  {
    if q.tasks != [] {
      PopOne(q);
      var (rotated, t) := NextQ(q);
      if t != excluded {
        assert t.value in q.tasks;
      } else if |q.tasks| > 1 {
        // The slot after an excluded task holds a different task.
        PopOne(rotated);
        assert rotated.tasks[rotated.cursor] != q.tasks[q.cursor];
        assert PopQ(q, excluded, |q.tasks|) == PopQ(rotated, excluded, |q.tasks| - 1);
      } else {
        assert PopQ(q, excluded, 1) == PopQ(rotated, excluded, 0);
      }
    }
  }

  // ---------------------------------------------------------------------
  // The queue as the kernel stores it
  // ---------------------------------------------------------------------

  class CpuRunQueue {
    const tasks: array<TaskId>
    var len: nat
    var cursor: nat

    ghost predicate Valid()
      reads this, tasks
    {
      tasks.Length == MAX_RUN_QUEUE_TASKS && len <= tasks.Length && WellFormed(View())
    }

    ghost function View(): Queue
      requires len <= tasks.Length
      reads this, tasks
    {
      Queue(tasks[..len], cursor)
    }

    constructor ()
      ensures Valid() && View() == EMPTY && fresh(tasks)
    {
      tasks := new TaskId[MAX_RUN_QUEUE_TASKS](_ => 0);
      len, cursor := 0, 0;
    }

    method Reset()
      requires Valid()
      modifies this, tasks
      ensures Valid() && View() == EMPTY
    {
      forall i | 0 <= i < tasks.Length { tasks[i] := 0; }
      len, cursor := 0, 0;
    }

    method Enqueue(t: TaskId) returns (r: QueueResult<()>)
      requires Valid()
      modifies this, tasks
      ensures Valid() && (View(), r) == EnqueueQ(old(View()), t)
    {
      if t == 0 { return Err(InvalidTask); }
      if t in tasks[..len] { return Err(Duplicate); }
      if len == MAX_RUN_QUEUE_TASKS { return Err(Full); }
      ghost var before := tasks[..len];
      tasks[len] := t;
      len := len + 1;
      assert tasks[..len] == before + [t];
      r := Ok(());
    }

    /** The slot of a task, or `len` when it is not queued. */
    method Position(t: TaskId) returns (index: nat)
      requires Valid()
      ensures if t in View().tasks then index == IndexOf(View().tasks, t) else index == len
    {
      index := 0;
      while index < len && tasks[index] != t
        invariant index <= len
        invariant t !in tasks[..index]
      {
        index := index + 1;
      }
      if index < len { IndexOfSlot(View().tasks, index); }
    }

    method Remove(t: TaskId) returns (found: bool)
      requires Valid()
      modifies this, tasks
      ensures Valid() && (View(), found) == RemoveQ(old(View()), t)
    {
      var index := Position(t);
      if index == len { return false; }
      RemoveKeepsWellFormed(View(), t);
      CloseGap(index);
      found := true;
    }

    method CloseGap(index: nat)
      requires Valid() && index < len
      modifies this, tasks
      ensures len <= tasks.Length && View() == RemoveAt(old(View()), index)
    {
      forall i | index <= i < len - 1 { tasks[i] := tasks[i + 1]; }
      len := len - 1;
      tasks[len] := 0;
      if len > 0 { WrapIsModulo(cursor, len); }
      cursor := if len == 0 then 0 else cursor % len;
      assert tasks[..len] == old(tasks[..len])[..index] + old(tasks[..len])[index + 1..];
    }

    method Next() returns (t: Option<TaskId>)
      requires Valid()
      modifies `cursor
      ensures Valid() && (View(), t) == NextQ(old(View()))
    {
      if len == 0 { return None; }
      WrapIsModulo(cursor, len);
      WrapIsModulo(cursor + 1, len);
      t := Some(tasks[cursor % len]);
      cursor := (cursor + 1) % len;
    }

    method PopNextExcluding(excluded: Option<TaskId>) returns (t: Option<TaskId>)
      requires Valid()
      modifies this, tasks
      ensures Valid() && (View(), t) == PopQ(old(View()), excluded, |old(View()).tasks|)
    {
      var attempts: nat := len;
      while attempts > 0
        invariant Valid() && attempts <= len == old(len)
        invariant PopQ(old(View()), excluded, |old(View()).tasks|) == PopQ(View(), excluded, attempts)
      {
        t := Next();
        if t != excluded {
          var _ := Remove(t.value);
          return;
        }
        attempts := attempts - 1;
      }
      t := None;
    }
  }
}
