/** How long a queued task waits when one CPU keeps dispatching and completing.
    Removing the dispatched task under the cursor makes the rotation skip every
    other slot, so this is not a round-robin; the wait is nevertheless bounded. */
module BoundedWait {
  import opened Common
  import opened RunQueue

  function NextCursor(n: nat, c: nat): (r: nat)
    requires c < n
    ensures r < n
  {
    if c + 2 < n then c + 1 else 0
  }

  /** One quantum slot by slot: the dispatched task moves to the last slot, the slots
      behind it close up, and the cursor wraps one slot early. */
  function Round(q: Queue): (r: Queue)
    requires q.cursor < |q.tasks|
    ensures |r.tasks| == |q.tasks|
  {
    var n, c := |q.tasks|, q.cursor;
    Queue(q.tasks[..c] + q.tasks[c + 1..] + [q.tasks[c]], NextCursor(n, c))
  }

  /** A quantum is what dispatching from a queue and completing into it do. */
  lemma RoundIsQuantum(q: Queue)
    requires WellFormed(q) && q.tasks != []
    ensures var (popped, t) := PopQ(q, None, |q.tasks|);
            && t == Some(q.tasks[q.cursor])
            && EnqueueQ(popped, t.value) == (Round(q), Ok(()))
  {
    PopUnderCursor(q);
    hide PopQ;
    var c := q.cursor;
    assert q.tasks[c] !in q.tasks[..c] + q.tasks[c + 1..];
  }

  function Rounds(q: Queue, k: nat): (r: Queue)
    requires q.cursor < |q.tasks|
    ensures r.cursor < |r.tasks| == |q.tasks|
    decreases k
  {
    if k == 0 then q else Rounds(Round(q), k - 1)
  }

  /** The task that round `k` (counting from zero) dispatches. */
  function DispatchedIn(q: Queue, k: nat): TaskId
    requires q.cursor < |q.tasks|
  {
    var r := Rounds(q, k);
    r.tasks[r.cursor]
  }

  /** Where the task in slot `i` is after a quantum. */
  function Shifted(n: nat, c: nat, i: nat): (j: nat)
    requires c < n && i < n
    ensures j < n
  {
    if i == c then n - 1 else if i < c then i else i - 1
  }

  lemma RoundShifts(q: Queue, i: nat)
    requires q.cursor < |q.tasks| && i < |q.tasks|
    ensures Round(q).tasks[Shifted(|q.tasks|, q.cursor, i)] == q.tasks[i]
  {
  }

  /** Which slot the task now in slot `j` came from. */
  function Origin(n: nat, c: nat, j: nat): (i: nat)
    requires c < n && j < n
    ensures i < n && Shifted(n, c, i) == j
  {
    if j == n - 1 then c else if j < c then j else j + 1
  }

  lemma RoundPermutes(q: Queue)
    requires q.cursor < |q.tasks| && Distinct(q.tasks)
    ensures Distinct(Round(q).tasks)
    ensures forall x :: x in Round(q).tasks <==> x in q.tasks
  {
    var n, c := |q.tasks|, q.cursor;
    forall i: nat | i < n ensures Round(q).tasks[Shifted(n, c, i)] == q.tasks[i] { RoundShifts(q, i); }
    forall j, k | 0 <= j < k < n ensures Round(q).tasks[j] != Round(q).tasks[k] {
      assert Round(q).tasks[j] == q.tasks[Origin(n, c, j)];
      assert Round(q).tasks[k] == q.tasks[Origin(n, c, k)];
    }
    forall j: nat | j < n ensures Round(q).tasks[j] in q.tasks {
      assert Round(q).tasks[j] == q.tasks[Origin(n, c, j)];
    }
  }

  lemma {:induction false} RoundsWellFormed(q: Queue, k: nat)
    requires WellFormed(q) && q.tasks != []
    ensures WellFormed(Rounds(q, k))
    decreases k
  {
    if k > 0 {
      RoundPermutes(q);
      RoundsWellFormed(Round(q), k - 1);
    }
  }

  lemma {:induction false} RoundsPermute(q: Queue, k: nat)
    requires q.cursor < |q.tasks| && Distinct(q.tasks)
    ensures Distinct(Rounds(q, k).tasks)
    ensures forall x :: x in Rounds(q, k).tasks <==> x in q.tasks
    decreases k
  {
    if k > 0 {
      RoundPermutes(q);
      RoundsPermute(Round(q), k - 1);
    }
  }

  /** Rounds before slot `i` of an `n`-task queue with cursor `c` is dispatched. */
  function Wait(n: nat, c: nat, i: nat): nat
    requires c < n && i < n
    decreases i, if i < c then n - c else 0
  {
    if i == c then 0
    else 1 + Wait(n, NextCursor(n, c), Shifted(n, c, i))
  }

  /** The recurrence is exact: the task is dispatched in that round and not before. */
  lemma {:induction false} ExactWait(q: Queue, i: nat)
    requires Distinct(q.tasks) && q.cursor < |q.tasks| && i < |q.tasks|
    ensures var w := Wait(|q.tasks|, q.cursor, i);
            && DispatchedIn(q, w) == q.tasks[i]
            && forall k: nat :: k < w ==> DispatchedIn(q, k) != q.tasks[i]
    decreases i, if i < q.cursor then |q.tasks| - q.cursor else 0
  {
    if i != q.cursor {
      RoundPermutes(q);
      RoundShifts(q, i);
      ExactWait(Round(q), Shifted(|q.tasks|, q.cursor, i));
      var w := Wait(|q.tasks|, q.cursor, i);
      forall k: nat | k < w ensures DispatchedIn(q, k) != q.tasks[i] {
        if k > 0 { assert DispatchedIn(q, k) == DispatchedIn(Round(q), k - 1); }
      }
    }
  }

  // ---------------------------------------------------------------------
  // Closed form: a full pass halves the slot number
  // ---------------------------------------------------------------------

  /** Rounds until the cursor is next at slot zero. */
  function Align(n: nat, c: nat): nat
    requires c < n
  {
    if c + 1 == n then 1 else n - 1 - c
  }

  /** A slot the cursor has passed keeps its place until the cursor wraps. */
  lemma {:induction false} WaitBehindCursor(n: nat, c: nat, i: nat)
    requires i < c < n
    ensures Wait(n, c, i) == Align(n, c) + Wait(n, 0, i)
    decreases n - c
  {
    if c + 2 < n { WaitBehindCursor(n, c + 1, i); }
  }

  /** Ahead of the cursor, an even distance is dispatched in half as many rounds and an
      odd distance survives the pass, ending half as far from where the cursor was. */
  lemma {:induction false} WaitAheadOfCursor(n: nat, c: nat, i: nat)
    requires c <= i < n
    ensures (i - c) % 2 == 0 ==> Wait(n, c, i) == (i - c) / 2
    ensures (i - c) % 2 == 1 ==> Wait(n, c, i) == Align(n, c) + Wait(n, 0, c + (i - c) / 2)
    decreases i - c
  {
    if i == c + 1 {
      if c + 2 < n { WaitBehindCursor(n, c + 1, c); }
    } else if i > c {
      WaitAheadOfCursor(n, c + 1, i - 1);
    }
  }

  function Pow2(p: nat): (r: nat)
    ensures r >= 1
  {
    if p == 0 then 1 else 2 * Pow2(p - 1)
  }

  lemma DoubleProduct(a: nat, b: nat)
    ensures 2 * a * b == 2 * (a * b)
  {
  }

  lemma HalveOdd(i: nat, p: nat, m: nat)
    requires i + 1 == Pow2(p) * (2 * m + 1)
    ensures p == 0 ==> i == 2 * m
    ensures p > 0 ==> i % 2 == 1 && i / 2 + 1 == Pow2(p - 1) * (2 * m + 1)
  {
    if p > 0 {
      var half := Pow2(p - 1) * (2 * m + 1);
      assert i + 1 == 2 * half by { DoubleProduct(Pow2(p - 1), 2 * m + 1); }
      hide Pow2;
    }
  }

  /** Writing i + 1 as 2^p times an odd number 2m + 1, slot i waits p whole passes and m rounds. */
  lemma {:induction false} WaitClosedForm(n: nat, i: nat, p: nat, m: nat)
    requires i < n && i + 1 == Pow2(p) * (2 * m + 1)
    ensures Wait(n, 0, i) == p * (n - 1) + m
    decreases p
  {
    WaitAheadOfCursor(n, 0, i);
    HalveOdd(i, p, m);
    if p > 0 {
      WaitClosedForm(n, i / 2, p - 1, m);
      MulSucc(p - 1, n - 1);
    }
  }

  /** Every slot number has such a decomposition. */
  lemma {:induction false} Decompose(i: nat) returns (p: nat, m: nat)
    ensures i + 1 == Pow2(p) * (2 * m + 1)
  {
    if i % 2 == 0 {
      p, m := 0, i / 2;
    } else {
      var p', m' := Decompose(i / 2);
      p, m := p' + 1, m';
      assert i + 1 == 2 * (i / 2 + 1);
      assert Pow2(p) * (2 * m + 1) == 2 * (Pow2(p') * (2 * m' + 1));
    }
  }

  lemma OddPartFits(p: nat, m: nat)
    ensures Pow2(p) <= Pow2(p) * (2 * m + 1)
    ensures 2 * m + 1 <= Pow2(p) * (2 * m + 1)
  {
    assert Pow2(p) * (2 * m + 1) == Pow2(p) * (2 * m) + Pow2(p);
    assert Pow2(p) * (2 * m + 1) == (Pow2(p) - 1) * (2 * m + 1) + (2 * m + 1);
  }

  /** The slot a task occupies when the cursor next wraps, if it is not dispatched before. */
  function AtWrap(c: nat, i: nat): nat {
    if i < c then i else c + (i - c) / 2
  }

  lemma WaitFromWrap(n: nat, c: nat, i: nat)
    requires c < n && i < n
    ensures Wait(n, c, i) <= n - 1 + Wait(n, 0, AtWrap(c, i))
  {
    if i < c { WaitBehindCursor(n, c, i); } else { WaitAheadOfCursor(n, c, i); }
  }

  /** No starvation: with n tasks every slot is dispatched within (log2 n + 2) passes. */
  lemma WaitBound(n: nat, c: nat, i: nat) returns (p: nat)
    requires c < n && i < n
    ensures Pow2(p) <= n
    ensures Wait(n, c, i) <= (p + 2) * (n - 1)
  {
    var m;
    p, m := Decompose(AtWrap(c, i));
    WaitFromWrap(n, c, i);
    WaitClosedForm(n, AtWrap(c, i), p, m);
    OddPartFits(p, m);
    MulSucc(p, n - 1);
    MulSucc(p + 1, n - 1);
  }

  lemma {:induction false} Pow2Monotone(p: nat, r: nat)
    requires p <= r
    ensures Pow2(p) <= Pow2(r)
  {
    if p < r { Pow2Monotone(p, r - 1); }
  }

  /** On the kernel's 64-slot queues no queued task waits more than 504 quanta. */
  lemma NoStarvation(q: Queue, i: nat)
    requires WellFormed(q) && i < |q.tasks|
    ensures exists k: nat :: k <= 504 && DispatchedIn(q, k) == q.tasks[i]
  {
    var n := |q.tasks|;
    ExactWait(q, i);
    var p := WaitBound(n, q.cursor, i);
    if p > 6 { Pow2Monotone(7, p); assert false; }
    assert (p + 2) * (n - 1) <= (p + 2) * 63;
    assert DispatchedIn(q, Wait(n, q.cursor, i)) == q.tasks[i];
  }

  // ---------------------------------------------------------------------
  // Round-robin fails for three or more tasks
  // ---------------------------------------------------------------------

  /** Every task runs in every window of as many rounds as there are tasks. */
  ghost predicate RoundRobin(q: Queue)
    requires q.cursor < |q.tasks|
  {
    forall k: nat, x :: x in q.tasks ==> RunsWithin(q, k, x)
  }

  ghost predicate RunsWithin(q: Queue, k: nat, x: TaskId)
    requires q.cursor < |q.tasks|
  {
    exists j: nat :: k <= j < k + |q.tasks| && DispatchedIn(q, j) == x
  }

  lemma {:induction false} RoundsAdd(q: Queue, a: nat, b: nat)
    requires q.cursor < |q.tasks|
    ensures Rounds(q, a + b) == Rounds(Rounds(q, a), b)
    decreases a
  {
    if a > 0 {
      assert Rounds(q, a + b) == Rounds(Round(q), a - 1 + b);
      RoundsAdd(Round(q), a - 1, b);
    }
  }

  lemma DispatchedAdd(q: Queue, a: nat, b: nat)
    requires q.cursor < |q.tasks|
    ensures DispatchedIn(q, a + b) == DispatchedIn(Rounds(q, a), b)
  {
    RoundsAdd(q, a, b);
  }

  lemma {:induction false} CursorWraps(q: Queue)
    requires q.cursor < |q.tasks|
    ensures Rounds(q, Align(|q.tasks|, q.cursor)).cursor == 0
    decreases |q.tasks| - q.cursor
  {
    if q.cursor + 2 < |q.tasks| { CursorWraps(Round(q)); }
  }

  lemma WindowBoundsWait(q: Queue, k: nat, i: nat)
    requires Distinct(q.tasks) && q.cursor < |q.tasks| && i < |q.tasks|
    requires RunsWithin(q, k, Rounds(q, k).tasks[i])
    ensures Wait(|q.tasks|, Rounds(q, k).cursor, i) < |q.tasks|
  {
    var r := Rounds(q, k);
    var j: nat :| k <= j < k + |q.tasks| && DispatchedIn(q, j) == r.tasks[i];
    DispatchedAdd(q, k, j - k);
    RoundsPermute(q, k);
    ExactWait(r, i);
  }

  /** A task that waits n rounds or more misses a window. */
  lemma LongWaitMissesWindow(q: Queue, k: nat, i: nat)
    requires Distinct(q.tasks) && q.cursor < |q.tasks| && i < |q.tasks|
    requires Wait(|q.tasks|, Rounds(q, k).cursor, i) >= |q.tasks|
    ensures !RoundRobin(q)
  {
    var x := Rounds(q, k).tasks[i];
    RoundsPermute(q, k);
    if RunsWithin(q, k, x) { WindowBoundsWait(q, k, i); }
    assert x in q.tasks && !RunsWithin(q, k, x);
  }

  lemma RoundRobinIffTwo(q: Queue)
    requires Distinct(q.tasks) && q.cursor < |q.tasks|
    ensures RoundRobin(q) <==> |q.tasks| <= 2
  {
    var n := |q.tasks|;
    if n <= 2 {
      forall k: nat, x | x in q.tasks ensures RunsWithin(q, k, x) {
        var r := Rounds(q, k);
        RoundsPermute(q, k);
        var i :| 0 <= i < |r.tasks| && r.tasks[i] == x;
        ExactWait(r, i);
        var w := Wait(n, r.cursor, i);
        DispatchedAdd(q, k, w);
        assert DispatchedIn(q, k + w) == x;
      }
    } else {
      var a := Align(n, q.cursor);
      CursorWraps(q);
      if n == 3 {
        RoundsAdd(q, a, 1);
        assert Rounds(Rounds(q, a), 1) == Round(Rounds(q, a));
        WaitAheadOfCursor(3, 1, 2);
        WaitClosedForm(3, 1, 1, 0);
        LongWaitMissesWindow(q, a + 1, 2);
      } else {
        WaitClosedForm(n, 3, 2, 0);
        LongWaitMissesWindow(q, a, 3);
      }
    }
  }

  /** Three tasks a, b, c run as a, c, b, c, so c gets every other quantum. */
  lemma ThreeTasks(a: TaskId, b: TaskId, c: TaskId)
    ensures var q := Queue([a, b, c], 0);
            && DispatchedIn(q, 0) == a && DispatchedIn(q, 1) == c
            && DispatchedIn(q, 2) == b && DispatchedIn(q, 3) == c
            && Rounds(q, 4) == q
  {
    var q0 := Queue([a, b, c], 0);
    var q1 := Queue([b, c, a], 1);
    var q2 := Queue([b, a, c], 0);
    var q3 := Queue([a, c, b], 1);
    assert Round(q0) == q1;
    assert Round(q1) == q2;
    assert Round(q2) == q3;
    assert Round(q3) == q0;
    assert Rounds(q0, 1) == Rounds(q1, 0) == q1;
    assert Rounds(q0, 2) == Rounds(q1, 1) == Rounds(q2, 0) == q2;
    assert Rounds(q0, 3) == Rounds(q1, 2) == Rounds(q2, 1) == Rounds(q3, 0) == q3;
    assert Rounds(q0, 4) == Rounds(q1, 3) == Rounds(q2, 2) == Rounds(q3, 1) == q0;
  }
}
