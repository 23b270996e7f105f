/** Signal masks, actions and delivery (section 2.4 of POSIX.1-2017, System Interfaces), over the process table. */
module Signals {
  import opened Common

  type Pid = nat

  datatype Signal = Hup | Int | Quit | Kill | Usr1 | Usr2 | Term | Chld | Cont | Stop

  function Number(s: Signal): nat {
    match s
    case Hup => 1 case Int => 2 case Quit => 3 case Kill => 9 case Usr1 => 10
    case Usr2 => 12 case Term => 15 case Chld => 17 case Cont => 18 case Stop => 19
  }

  function SignalOf(n: nat): (r: Option<Signal>)
    ensures r.Some? ==> Number(r.value) == n
    ensures r == None ==> forall s :: Number(s) != n
  {
    match n
    case 1 => Some(Hup) case 2 => Some(Int) case 3 => Some(Quit) case 9 => Some(Kill) case 10 => Some(Usr1)
    case 12 => Some(Usr2) case 15 => Some(Term) case 17 => Some(Chld) case 18 => Some(Cont) case 19 => Some(Stop)
    case _ => None
  }

  datatype Action = Default | Ignore | Handler(address: nat)

  datatype ProcessState = Creating | Ready | Running | Blocked | Sleeping | Zombie | Terminated

  /** A mask as the signals whose bits are set. */
  type Mask = set<Signal>

  datatype Process = Process(state: ProcessState, exitCode: nat, pending: Mask, blocked: Mask)

  const MAX_PROCESSES := 128

  /** The processes by slot, and one row of 32 actions for every slot there can be. */
  datatype World = World(procs: seq<Process>, tables: seq<seq<Action>>)

  /** Slots are filled in the order of the pids, which start at one, and are never given back. */
  function SlotOf(n: nat, pid: Pid): Option<nat> {
    if 1 <= pid <= n then Some(pid - 1) else None
  }

  function SendStep(w: World, pid: Pid, sig: Signal): (World, bool) {
    match SlotOf(|w.procs|, pid)
    case None => (w, false)
    case Some(i) =>
      var p := w.procs[i];
      if p.state == Terminated then (w, false)
      else (w.(procs := w.procs[i := p.(pending := p.pending + {sig})]), true)
  }

  predicate Shaped(w: World) {
    |w.procs| <= MAX_PROCESSES && |w.tables| == MAX_PROCESSES && forall i :: 0 <= i < |w.tables| ==> |w.tables[i]| == 32
  }

  function SetActionStep(w: World, pid: Pid, sig: Signal, action: Action): (World, bool)
    requires Shaped(w)
  {
    if sig == Kill || sig == Stop then (w, false)
    else match SlotOf(|w.procs|, pid)
         case None => (w, false)
         case Some(i) => (w.(tables := w.tables[i := w.tables[i][Number(sig) := action]]), true)
  }

  datatype How = Block | Unblock | SetMask | BadHow

  datatype MaskError = NotFound | InvalidArgument

  /** `handle_sigprocmask`: the kill and stop bits are cleared again after every change. */
  function MaskStep(w: World, pid: Pid, how: How, mask: Mask): (World, Result<(), MaskError>) {
    match SlotOf(|w.procs|, pid)
    case None => (w, Err(NotFound))
    case Some(i) =>
      var p := w.procs[i];
      if how == BadHow then (w, Err(InvalidArgument))
      else
        var changed := match how case Block => p.blocked + mask case Unblock => p.blocked - mask case _ => mask;
        (w.(procs := w.procs[i := p.(blocked := changed - {Kill, Stop})]), Ok(()))
  }

  function Terminate(w: World, pid: Pid, code: nat): World {
    match SlotOf(|w.procs|, pid)
    case None => w
    case Some(i) => w.(procs := w.procs[i := w.procs[i].(state := Terminated, exitCode := code)])
  }

  function StartStep(w: World, pid: Pid): World {
    match SlotOf(|w.procs|, pid)
    case None => w
    case Some(i) => w.(procs := w.procs[i := w.procs[i].(state := Ready)])
  }

  /** A process takes the first free slot; pids count up from 1 and slots are never given back. */
  function CreateStep(w: World): World {
    if |w.procs| >= MAX_PROCESSES then w
    else w.(procs := w.procs + [Process(Creating, 0, {}, {})])
  }

  function ClearPending(w: World, pid: Pid, sig: Signal): World {
    match SlotOf(|w.procs|, pid)
    case None => w
    case Some(i) => w.(procs := w.procs[i := w.procs[i].(pending := w.procs[i].pending - {sig})])
  }

  function PendingFor(w: World, pid: Pid): Mask {
    match SlotOf(|w.procs|, pid) case None => {} case Some(i) => w.procs[i].pending - w.procs[i].blocked
  }

  function ActionOf(w: World, pid: Pid, sig: Signal): Action
    requires Shaped(w)
  {
    match SlotOf(|w.procs|, pid) case None => Default case Some(i) => w.tables[i][Number(sig)]
  }

  const ORDER := [Kill, Term, Int, Quit, Hup, Usr1, Usr2, Chld, Cont, Stop]

  /** A signal whose delivery changes nothing but the pending mask. */
  predicate Harmless(sig: Signal, action: Action) {
    action == Ignore || (action == Default && (sig == Chld || sig == Cont || sig == Stop))
  }

  // ---------------------------------------------------------------------
  // What a delivery does to the process, stated without the loop
  // ---------------------------------------------------------------------

  /** The signal of the order at position `k` is deliverable and ends the scan. */
  predicate Stops(w: World, pid: Pid, k: nat)
    requires Shaped(w) && k < |ORDER|
  {
    ORDER[k] in PendingFor(w, pid) && !Harmless(ORDER[k], ActionOf(w, pid, ORDER[k]))
  }

  /** The order's first `k` signals. */
  function First(k: nat): Mask
    requires k <= |ORDER|
  {
    if k == 0 then {} else First(k - 1) + {ORDER[k - 1]}
  }

  /** The process's deliverable signals among the first `k` of the order are no longer pending. */
  function After(w: World, pid: Pid, k: nat): World
    requires k <= |ORDER|
  {
    match SlotOf(|w.procs|, pid)
    case None => w
    case Some(i) =>
      w.(procs := w.procs[i := w.procs[i].(pending := w.procs[i].pending - (First(k) * PendingFor(w, pid)))])
  }

  /** The first position from `k` on whose signal ends the scan. */
  function FirstStop(w: World, pid: Pid, k: nat): (f: nat)
    requires Shaped(w) && k <= |ORDER|
    ensures k <= f <= |ORDER| && (f < |ORDER| ==> Stops(w, pid, f)) && forall j :: k <= j < f ==> !Stops(w, pid, j)
    decreases |ORDER| - k
  {
    if k == |ORDER| || Stops(w, pid, k) then k else FirstStop(w, pid, k + 1)
  }

  /** The first deliverable signal that is not harmless decides: it is cleared with all deliverable signals before
      it, and its handler is returned or the process terminated; if there is none, all deliverable signals are
      cleared. */
  function DeliverStep(w: World, pid: Pid): (World, Option<(Signal, nat)>)
    requires Shaped(w)
  {
    var k := FirstStop(w, pid, 0);
    if k == |ORDER| then (After(w, pid, k), None) else EndAt(w, pid, k)
  }

  /** The scan ends with the order's `k`-th signal: its handler, or termination. */
  function EndAt(w: World, pid: Pid, k: nat): (World, Option<(Signal, nat)>)
    requires Shaped(w) && k < |ORDER|
  {
    var mid, action := After(w, pid, k + 1), ActionOf(w, pid, ORDER[k]);
    if action.Handler? then (mid, Some((ORDER[k], action.address)))
    else (Terminate(mid, pid, 128 + Number(ORDER[k])), None)
  }

  /** Scanning one more signal. */
  lemma AfterOneMore(w: World, pid: Pid, k: nat)
    requires k < |ORDER|
    ensures After(w, pid, k + 1) == if ORDER[k] in PendingFor(w, pid) then ClearPending(After(w, pid, k), pid, ORDER[k])
                                    else After(w, pid, k)
  {
    var slot := SlotOf(|w.procs|, pid);
    if slot.Some? {
      var p, deliverable := w.procs[slot.value], PendingFor(w, pid);
      var bit := {ORDER[k]};
      assert p.pending - First(k + 1) * deliverable
             == if ORDER[k] in deliverable then p.pending - First(k) * deliverable - bit
                else p.pending - First(k) * deliverable;
    }
  }

  /** Clearing pending signals leaves every action as it was. */
  lemma AfterSameActions(w: World, pid: Pid, k: nat, sig: Signal)
    requires Shaped(w) && k <= |ORDER|
    ensures Shaped(After(w, pid, k)) && ActionOf(After(w, pid, k), pid, sig) == ActionOf(w, pid, sig)
  {
  }

  /** Termination is a matter of the processes alone. */
  lemma TerminateProcs(w: World, pid: Pid, code: nat)
    ensures Terminate(w, pid, code) == w.(procs := Terminate(World(w.procs, []), pid, code).procs)
  {
  }

  lemma AfterNothing(w: World, pid: Pid)
    ensures After(w, pid, 0) == w
  {
    var slot := SlotOf(|w.procs|, pid);
    if slot.Some? {
      var p := w.procs[slot.value];
      assert p.pending - First(0) * PendingFor(w, pid) == p.pending;
      assert w.procs[slot.value := p] == w.procs;
    }
  }

  lemma NothingDeliverable(w: World, pid: Pid)
    requires Shaped(w) && PendingFor(w, pid) == {}
    ensures DeliverStep(w, pid) == (w, None)
  {
    var slot := SlotOf(|w.procs|, pid);
    if slot.Some? {
      var p := w.procs[slot.value];
      assert p.pending - First(|ORDER|) * {} == p.pending;
      assert w.procs[slot.value := p] == w.procs;
    }
  }

  function Boot(): World {
    World([], seq(MAX_PROCESSES, _ => seq(32, _ => Default)))
  }

  // ---------------------------------------------------------------------
  // Every run
  // ---------------------------------------------------------------------

  datatype Op = Create | Start(pid: Pid) | Exit(pid: Pid, code: nat) | SendTo(pid: Pid, sig: Signal)
              | Act(pid: Pid, sig: Signal, action: Action) | ChangeMask(pid: Pid, how: How, mask: Mask)
              | Deliver(pid: Pid)

  function Step(w: World, op: Op): World
    requires Shaped(w)
  {
    match op
    case Create => CreateStep(w)
    case Start(pid) => StartStep(w, pid)
    case Exit(pid, code) => Terminate(w, pid, code)
    case SendTo(pid, sig) => SendStep(w, pid, sig).0
    case Act(pid, sig, action) => SetActionStep(w, pid, sig, action).0
    case ChangeMask(pid, how, mask) => MaskStep(w, pid, how, mask).0
    case Deliver(pid) => DeliverStep(w, pid).0
  }

  predicate Unblockable(p: Process) { Kill !in p.blocked && Stop !in p.blocked }

  predicate Uncatchable(table: seq<Action>) {
    |table| == 32 && table[Number(Kill)] == Default && table[Number(Stop)] == Default
  }

  /** Kill and stop can be neither blocked nor caught. */
  predicate Inv(w: World) {
    && |w.procs| <= MAX_PROCESSES && |w.tables| == MAX_PROCESSES
    && (forall i :: 0 <= i < |w.procs| ==> Unblockable(w.procs[i]))
    && (forall i :: 0 <= i < |w.tables| ==> Uncatchable(w.tables[i]))
  }

  /** Only processes changed; where kill and stop were unblocked, they still are. */
  predicate Touches(w: World, w': World) {
    && w'.tables == w.tables && |w'.procs| == |w.procs|
    && forall i :: 0 <= i < |w.procs| && Unblockable(w.procs[i]) ==> Unblockable(w'.procs[i])
  }

  lemma TouchesKeepsInv(w: World, w': World)
    requires Inv(w) && Touches(w, w')
    ensures Inv(w')
  {
  }

  lemma DeliverTouches(w: World, pid: Pid)
    requires Shaped(w)
    ensures Touches(w, DeliverStep(w, pid).0)
  {
    hide FirstStop;
  }

  lemma StepKeepsInv(w: World, op: Op)
    requires Inv(w)
    ensures Shaped(w) && Inv(Step(w, op))
  {
    match op
    case Create =>
    case Act(pid, sig, action) => ActKeepsInv(w, pid, sig, action);
    case Deliver(pid) => DeliverTouches(w, pid); TouchesKeepsInv(w, Step(w, op));
    case _ => assert Touches(w, Step(w, op)); TouchesKeepsInv(w, Step(w, op));
  }

  lemma ActKeepsInv(w: World, pid: Pid, sig: Signal, action: Action)
    requires Inv(w)
    ensures Shaped(w) && Inv(SetActionStep(w, pid, sig, action).0)
  {
  }

  function Run(ops: seq<Op>): (w: World)
    ensures Inv(w)
  {
    if ops == [] then Boot()
    else
      StepKeepsInv(Run(ops[..|ops| - 1]), ops[|ops| - 1]);
      Step(Run(ops[..|ops| - 1]), ops[|ops| - 1])
  }

  /** In every reachable state kill and stop are unblocked and have the default action in every process. */
  lemma KillAndStopStayDefault(ops: seq<Op>, pid: Pid)
    ensures var w := Run(ops);
            && Shaped(w) && ActionOf(w, pid, Kill) == Default && ActionOf(w, pid, Stop) == Default
            && forall i :: 0 <= i < |w.procs| ==> Kill !in w.procs[i].blocked && Stop !in w.procs[i].blocked
  {
    var w := Run(ops);
    assert forall i :: 0 <= i < |w.procs| ==> Unblockable(w.procs[i]);
    assert forall i :: 0 <= i < |w.tables| ==> Uncatchable(w.tables[i]);
  }

  /** After any run, a process with a pending kill is terminated with code 137 by its next delivery, whatever
      else is pending, blocked or handled; nobody else is affected. */
  lemma PendingKillTerminates(ops: seq<Op>, i: nat)
    requires i < |Run(ops).procs| && Kill in Run(ops).procs[i].pending
    ensures var w := Run(ops);
            && Shaped(w) && var (w', r) := DeliverStep(w, i + 1);
            && r == None && |w'.procs| == |w.procs|
            && w'.procs[i].state == Terminated && w'.procs[i].exitCode == 137
            && forall j :: 0 <= j < |w.procs| && j != i ==> w'.procs[j] == w.procs[j]
  {
    var w := Run(ops);
    KillAndStopStayDefault(ops, i + 1);
    hide Run;
    assert Number(ORDER[0]) == 9 && Stops(w, i + 1, 0);
  }

  /** A returned handler is for a signal that was pending and not blocked and is now cleared; it is that signal's
      registered handler, every deliverable signal ahead of it in the order was harmless, and the process lives on. */
  lemma HandlerWasPending(w: World, pid: Pid)
    requires Shaped(w) && DeliverStep(w, pid).1.Some?
    ensures var (w', r) := DeliverStep(w, pid);
            var (sig, address) := r.value;
            && SlotOf(|w.procs|, pid).Some? && var i := SlotOf(|w.procs|, pid).value;
            && |w'.procs| == |w.procs| && ActionOf(w, pid, sig) == Handler(address)
            && sig in w.procs[i].pending && sig !in w.procs[i].blocked && sig !in w'.procs[i].pending
            && w'.procs[i].state == w.procs[i].state && w'.procs[i].exitCode == w.procs[i].exitCode
            && exists k :: 0 <= k < |ORDER| && ORDER[k] == sig && forall j :: 0 <= j < k ==> !Stops(w, pid, j)
  {
    hide Harmless;
    var k := FirstStop(w, pid, 0);
    assert Stops(w, pid, k);
    assert ORDER[k] in First(k + 1);
  }

  lemma AfterIsContained(w: World, pid: Pid, k: nat, i: nat)
    requires k <= |ORDER| && i < |w.procs|
    ensures var w' := After(w, pid, k);
            && w'.tables == w.tables && |w'.procs| == |w.procs|
            && w'.procs[i].blocked == w.procs[i].blocked
            && w'.procs[i].pending <= w.procs[i].pending
            && w.procs[i].pending * w.procs[i].blocked <= w'.procs[i].pending
            && (SlotOf(|w.procs|, pid) != Some(i) ==> w'.procs[i] == w.procs[i])
  {
    hide First;
  }

  /** Delivery only ever removes deliverable signals, and touches no other process and no action. */
  lemma DeliveryIsContained(w: World, pid: Pid, i: nat)
    requires Shaped(w) && i < |w.procs|
    ensures var w' := DeliverStep(w, pid).0;
            && w'.tables == w.tables && |w'.procs| == |w.procs|
            && w'.procs[i].blocked == w.procs[i].blocked
            && w'.procs[i].pending <= w.procs[i].pending
            && w.procs[i].pending * w.procs[i].blocked <= w'.procs[i].pending
            && (SlotOf(|w.procs|, pid) != Some(i) ==> w'.procs[i] == w.procs[i])
  {
    var k := FirstStop(w, pid, 0);
    var cleared := if k == |ORDER| then k else k + 1;
    AfterIsContained(w, pid, cleared, i);
    hide FirstStop, After, ActionOf;
  }
}
