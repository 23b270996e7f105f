/** The signal manager over the process table: 64-bit masks in the slots, and a table of actions by slot and number. */
module SignalManager {
  import opened Common
  import opened Signals
  import opened SignalMask
  import opened Process

  /** The rows of a two-dimensional action table. */
  ghost function Rows(a: array2<Action>): (rows: seq<seq<Action>>)
    reads a
    ensures |rows| == a.Length0 && forall i :: 0 <= i < a.Length0 ==> rows[i] == Row(a, i)
  {
    seq(a.Length0, i requires 0 <= i < a.Length0 reads a => Row(a, i))
  }

  ghost function Row(a: array2<Action>, i: nat): (row: seq<Action>)
    requires i < a.Length0
    reads a
    ensures |row| == a.Length1 && forall j :: 0 <= j < a.Length1 ==> row[j] == a[i, j]
  {
    seq(a.Length1, j requires 0 <= j < a.Length1 reads a => a[i, j])
  }

  class Manager {
    const table: ProcessTable
    const actions: array2<Action>

    ghost predicate Valid()
      reads this, table, table.slots
    {
      table.Valid() && actions.Length0 == MAX_PROCESSES && actions.Length1 == 32
    }

    /** The processes and actions as the signal theory sees them. */
    ghost function View(): World
      reads this, table, actions
    {
      World(Processes(table.pcbs), Rows(actions))
    }

    constructor (table: ProcessTable)
      requires table.Valid()
      ensures Valid() && this.table == table && fresh(actions)
      ensures forall i, j :: 0 <= i < MAX_PROCESSES && 0 <= j < 32 ==> actions[i, j] == Default
      ensures table.pcbs == [] ==> View() == Boot()
    {
      this.table := table;
      actions := new Action[MAX_PROCESSES, 32]((i, j) => Default);
      new;
      assert forall i :: 0 <= i < MAX_PROCESSES ==> Row(actions, i) == seq(32, _ => Default);
      assert Rows(actions) == Boot().tables;
    }

    /** `send`: the bit is set in the pending word. */
    method Send(pid: Pid, sig: Signal) returns (ok: bool)
      requires Valid()
      modifies table`pcbs, table.slots
      ensures Valid() && (View(), ok) == SendStep(old(View()), pid, sig)
      ensures SpacesOf(table.pcbs) == SpacesOf(old(table.pcbs))
    {
      hide Processes, SpacesOf, SignalsIn, Rows, Either, Bit;
      var slot := table.Find(pid);
      if slot == None { return false; }
      var p := table.slots[slot.value].value;
      if p.state == Terminated { return false; }
      Combined(p.pending, Bit(sig));
      SingleMask(sig);
      var p' := p.(pending := Either(p.pending, Bit(sig)));
      Changed(table.pcbs, slot.value, p');
      table.Put(slot.value, p');
      ok := true;
    }

    /** `set_action`: one entry of the slot's row, never for kill or stop. */
    method SetAction(pid: Pid, sig: Signal, action: Action) returns (ok: bool)
      requires Valid()
      modifies actions
      ensures Valid() && Shaped(old(View())) && (View(), ok) == SetActionStep(old(View()), pid, sig, action)
    {
      hide Processes;
      if sig == Kill || sig == Stop { return false; }
      var slot := table.Find(pid);
      if slot == None { return false; }
      ghost var before := Rows(actions);
      actions[slot.value, Number(sig)] := action;
      forall i | 0 <= i < MAX_PROCESSES && i != slot.value ensures Row(actions, i) == before[i] {
        assert forall j :: 0 <= j < 32 ==> Row(actions, i)[j] == before[i][j];
      }
      assert Row(actions, slot.value) == before[slot.value][Number(sig) := action];
      assert Rows(actions) == before[slot.value := before[slot.value][Number(sig) := action]];
      ok := true;
    }

    method GetAction(pid: Pid, sig: Signal) returns (action: Action)
      requires Valid()
      ensures Shaped(View()) && action == ActionOf(View(), pid, sig)
    {
      hide Processes;
      var slot := table.Find(pid);
      if slot == None { return Default; }
      action := actions[slot.value, Number(sig)];
    }

    /** `pending_for`: the pending word without the blocked one. */
    method Pending(pid: Pid) returns (mask: bv64)
      requires Valid()
      ensures SignalsIn(mask) == PendingFor(View(), pid)
    {
      hide SignalsIn, Minus;
      var slot := table.Find(pid);
      if slot == None { EmptyMask(); return 0; }
      var p := table.slots[slot.value].value;
      Combined(p.pending, p.blocked);
      mask := Minus(p.pending, p.blocked);
    }

    method Clear(pid: Pid, sig: Signal)
      requires Valid()
      modifies table`pcbs, table.slots
      ensures Valid() && View() == ClearPending(old(View()), pid, sig)
      ensures SpacesOf(table.pcbs) == SpacesOf(old(table.pcbs))
    {
      hide Processes, SpacesOf, SignalsIn, Rows, Minus, Bit;
      var slot := table.Find(pid);
      if slot == None { return; }
      var p := table.slots[slot.value].value;
      Combined(p.pending, Bit(sig));
      SingleMask(sig);
      var p' := p.(pending := Minus(p.pending, Bit(sig)));
      Changed(table.pcbs, slot.value, p');
      table.Put(slot.value, p');
    }

    /** `handle_sigaction`: the number is the argument's low byte; accepted for the catchable signals of an existing
        process, and then only that signal's action changes. */
    method SigAction(pid: Pid, arg: nat, handler: nat) returns (ok: bool)
      requires Valid()
      modifies actions
      ensures Valid() && Shaped(old(View()))
      ensures ok <==> && (exists s :: Number(s) == arg % 256 && s != Kill && s != Stop)
                      && SlotOf(|old(View()).procs|, pid).Some?
      ensures !ok ==> View() == old(View())
      ensures ok ==> forall s :: ActionOf(View(), pid, s) ==
                                 if Number(s) != arg % 256 then ActionOf(old(View()), pid, s)
                                 else if handler == 0 then Default
                                 else if handler == 1 then Ignore else Handler(handler)
    {
      hide Processes, Rows;
      var sig := SignalOf(arg % 256);
      if sig == None { return false; }
      var action := if handler == 0 then Default else if handler == 1 then Ignore else Handler(handler);
      ok := SetAction(pid, sig.value, action);
    }

    /** `handle_sigprocmask`: the word changes as asked, with the kill and stop bits cleared again; the word before
        is returned whole. */
    method SigProcMask(pid: Pid, how: nat, mask: bv64) returns (r: Result<bv64, MaskError>)
      requires Valid()
      modifies table`pcbs, table.slots
      ensures Valid() && SpacesOf(table.pcbs) == SpacesOf(old(table.pcbs))
      ensures var (w, e) := MaskStep(old(View()), pid, HowOf(how), SignalsIn(mask));
              View() == w && (r.Ok? <==> e.Ok?) && (r.Err? ==> e == Err(r.error))
      ensures r.Ok? ==> 1 <= pid <= |old(table.pcbs)| && r.value == old(table.pcbs)[pid - 1].blocked
    {
      hide Processes, SpacesOf, SignalsIn, Rows, Either, Minus, CannotBlock;
      var slot := table.Find(pid);
      if slot == None { return Err(NotFound); }
      var p := table.slots[slot.value].value;
      var blocked: bv64;
      Combined(p.blocked, mask);
      match how {
        case 1 => blocked := Either(p.blocked, mask);
        case 2 => blocked := Minus(p.blocked, mask);
        case 3 => blocked := mask;
        case _ => return Err(InvalidArgument);
      }
      Combined(blocked, CannotBlock());
      CannotBlockSignals();
      var p' := p.(blocked := Minus(blocked, CannotBlock()));
      Changed(table.pcbs, slot.value, p');
      table.Put(slot.value, p');
      r := Ok(p.blocked);
    }

    /** `deliver_pending`: the scan over the priority list, on the words and tables. */
    method DeliverPending(pid: Pid) returns (r: Option<(Signal, nat)>)
      requires Valid()
      modifies table`pcbs, table.slots
      ensures Valid() && Shaped(old(View())) && (View(), r) == DeliverStep(old(View()), pid)
      ensures SpacesOf(table.pcbs) == SpacesOf(old(table.pcbs))
    {
      hide Processes, SpacesOf, SignalsIn, Rows, After, EndAt, Stops;
      ghost var w := View();
      var mask := Pending(pid);
      if mask == 0 {
        EmptyMask();
        NothingDeliverable(w, pid);
        return None;
      }
      AfterNothing(w, pid);
      var k: nat := 0;
      while k < |ORDER|
        invariant Valid() && k <= |ORDER| && View() == After(w, pid, k)
        invariant SpacesOf(table.pcbs) == SpacesOf(old(table.pcbs))
        invariant FirstStop(w, pid, 0) == FirstStop(w, pid, k)
      {
        var done;
        done, r := Scan(pid, mask, k, w);
        if done { return; }
        k := k + 1;
      }
      r := None;
    }

    /** One signal of the list: clear it if deliverable, and end the scan unless it is harmless. */
    method Scan(pid: Pid, mask: bv64, k: nat, ghost w: World) returns (done: bool, r: Option<(Signal, nat)>)
      requires Valid() && Shaped(w) && k < |ORDER|
      requires View() == After(w, pid, k) && SignalsIn(mask) == PendingFor(w, pid)
      modifies table`pcbs, table.slots
      ensures Valid() && SpacesOf(table.pcbs) == SpacesOf(old(table.pcbs)) && done == Stops(w, pid, k)
      ensures if done then (View(), r) == EndAt(w, pid, k) else View() == After(w, pid, k + 1)
    {
      hide Processes, SpacesOf, SignalsIn, Rows, Harmless, Number;
      hide After, ActionOf, PendingFor, ClearPending, Signals.Terminate;
      var sig := ORDER[k];
      AfterOneMore(w, pid, k);
      AfterSameActions(w, pid, k + 1, sig);
      HoldsIsIn(mask, sig);
      if !Holds(mask, sig) { return false, None; }
      Clear(pid, sig);
      var action := GetAction(pid, sig);
      if Harmless(sig, action) { return false, None; }
      if action.Handler? { return true, Some((sig, action.address)); }
      TerminateProcs(View(), pid, 128 + Number(sig));
      var _ := table.Terminate(pid, 128 + Number(sig));
      return true, None;
    }
  }

  lemma HoldsIsIn(mask: bv64, sig: Signal)
    ensures Holds(mask, sig) <==> sig in SignalsIn(mask)
  {
  }

  /** The argument that says how the mask changes. */
  function HowOf(how: nat): How {
    match how case 1 => Block case 2 => Unblock case 3 => SetMask case _ => BadHow
  }

  /** `(1 << kill) | (1 << stop)`. */
  function CannotBlock(): bv64 { Either(Bit(Kill), Bit(Stop)) }

  lemma CannotBlockSignals()
    ensures SignalsIn(CannotBlock()) == {Kill, Stop}
  {
    hide SignalsIn, Either, Bit;
    Combined(Bit(Kill), Bit(Stop));
    SingleMask(Kill);
    SingleMask(Stop);
  }

  /** Changing one process's masks or state: its view changes, the spaces do not. */
  lemma Changed(pcbs: seq<Pcb>, i: nat, p: Pcb)
    requires i < |pcbs| && SpaceOf(p) == SpaceOf(pcbs[i])
    ensures Processes(pcbs[i := p]) == Processes(pcbs)[i := ProcessOf(p)]
    ensures SpacesOf(pcbs[i := p]) == SpacesOf(pcbs)
  {
    ProcessesUpdate(pcbs, i, p);
    Unmoved(pcbs, i, p);
  }
}
