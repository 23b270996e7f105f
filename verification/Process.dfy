/** The process table: 128 slots scanned for a pid, each with the process's signal masks and address-space state. */
module Process {
  import opened Common
  import opened UserRange
  import opened PageWalk
  import AddressSpace
  import opened Signals
  import opened SignalMask

  datatype Pcb = Pcb(
    pid: nat, state: ProcessState, exitCode: nat, pending: bv64, blocked: bv64, generation: nat, pins: nat)

  function NewPcb(pid: nat): Pcb { Pcb(pid, Creating, 0, 0, 0, 1, 0) }

  /** What the signal code sees of the processes. */
  function ProcessOf(p: Pcb): Signals.Process {
    Signals.Process(p.state, p.exitCode, SignalsIn(p.pending), SignalsIn(p.blocked))
  }

  function Processes(pcbs: seq<Pcb>): (ps: seq<Signals.Process>)
    ensures |ps| == |pcbs| && forall i :: 0 <= i < |pcbs| ==> ps[i] == ProcessOf(pcbs[i])
  {
    seq(|pcbs|, i requires 0 <= i < |pcbs| => ProcessOf(pcbs[i]))
  }

  /** What the memory code sees of them. */
  function SpaceOf(p: Pcb): AddressSpace.Space { AddressSpace.Space(p.generation, p.pins) }

  function SpacesOf(pcbs: seq<Pcb>): AddressSpace.Spaces {
    if pcbs == [] then map[] else SpacesOf(pcbs[..|pcbs| - 1])[|pcbs| := SpaceOf(pcbs[|pcbs| - 1])]
  }

  lemma {:induction false} SpacesByPid(pcbs: seq<Pcb>)
    ensures forall pid :: pid in SpacesOf(pcbs) <==> 1 <= pid <= |pcbs|
    ensures forall pid :: 1 <= pid <= |pcbs| ==> SpacesOf(pcbs)[pid] == SpaceOf(pcbs[pid - 1])
  {
    hide SpaceOf;
    if pcbs != [] { SpacesByPid(pcbs[..|pcbs| - 1]); }
  }

  lemma SpaceAt(pcbs: seq<Pcb>, pid: nat)
    ensures var slot := SlotOf(|pcbs|, pid);
            && (pid in SpacesOf(pcbs) <==> slot.Some?)
            && (slot.Some? ==> SpacesOf(pcbs)[pid] == SpaceOf(pcbs[slot.value]))
  {
    SpacesByPid(pcbs);
  }

  lemma ProcessesUpdate(pcbs: seq<Pcb>, i: nat, p: Pcb)
    requires i < |pcbs|
    ensures Processes(pcbs[i := p]) == Processes(pcbs)[i := ProcessOf(p)]
  {
    hide ProcessOf;
  }

  lemma SpacesUpdate(pcbs: seq<Pcb>, i: nat, p: Pcb)
    requires i < |pcbs|
    ensures SpacesOf(pcbs[i := p]) == SpacesOf(pcbs)[i + 1 := SpaceOf(p)]
  {
    hide SpaceOf, SpacesOf;
    SpacesByPid(pcbs);
    SpacesByPid(pcbs[i := p]);
  }

  class ProcessTable {
    const slots: array<Option<Pcb>>
    var nextPid: nat
    /** The processes in the occupied slots, which come first. */
    ghost var pcbs: seq<Pcb>

    ghost predicate Valid()
      reads this, slots
    {
      && slots.Length == MAX_PROCESSES && |pcbs| <= MAX_PROCESSES && nextPid == |pcbs| + 1
      && (forall i :: 0 <= i < MAX_PROCESSES ==> slots[i] == if i < |pcbs| then Some(pcbs[i]) else None)
      && (forall i :: 0 <= i < |pcbs| ==> pcbs[i].pid == i + 1 && pcbs[i].generation < U64 && pcbs[i].pins < U32)
    }

    constructor ()
      ensures Valid() && fresh(slots) && pcbs == []
    {
      slots := new Option<Pcb>[MAX_PROCESSES](_ => None);
      nextPid := 1;
      pcbs := [];
    }

    /** `create`: the first free slot gets the next pid. */
    method Create() returns (pid: Option<nat>)
      requires Valid()
      modifies this, slots
      ensures Valid()
      ensures if |old(pcbs)| < MAX_PROCESSES
              then && pid == Some(|old(pcbs)| + 1) && pcbs == old(pcbs) + [NewPcb(|old(pcbs)| + 1)]
                   && SpacesOf(pcbs) == SpacesOf(old(pcbs))[|old(pcbs)| + 1 := AddressSpace.NEW_SPACE]
              else pid == None && pcbs == old(pcbs)
      ensures Processes(pcbs) == CreateStep(World(Processes(old(pcbs)), [])).procs
    {
      hide Processes, SpacesOf;
      CreatedViews(pcbs);
      var i := 0;
      while i < MAX_PROCESSES
        invariant 0 <= i <= |pcbs|
      {
        if slots[i] == None {
          pid := Some(nextPid);
          slots[i] := Some(NewPcb(nextPid));
          pcbs := pcbs + [NewPcb(nextPid)];
          nextPid := nextPid + 1;
          return;
        }
        i := i + 1;
      }
      pid := None;
    }

    /** `get` and `slot_of`: the scan for a pid finds the slot the pid names. */
    method Find(pid: nat) returns (slot: Option<nat>)
      requires Valid()
      ensures slot == SlotOf(|pcbs|, pid)
    {
      var i: nat := 0;
      while i < MAX_PROCESSES
        invariant i <= MAX_PROCESSES && (1 <= pid <= |pcbs| ==> i < pid)
      {
        var p := slots[i];
        if p.Some? && p.value.pid == pid { return Some(i); }
        i := i + 1;
      }
      slot := None;
    }

    /** Store a changed process back in its slot. */
    method Put(slot: nat, p: Pcb)
      requires Valid() && slot < |pcbs| && p.pid == pcbs[slot].pid && p.generation < U64 && p.pins < U32
      modifies this`pcbs, slots
      ensures Valid() && pcbs == old(pcbs)[slot := p]
    {
      slots[slot] := Some(p);
      pcbs := pcbs[slot := p];
    }

    method Start(pid: nat) returns (found: bool)
      requires Valid()
      modifies this`pcbs, slots
      ensures Valid() && SpacesOf(pcbs) == SpacesOf(old(pcbs))
      ensures Processes(pcbs) == StartStep(World(Processes(old(pcbs)), []), pid).procs
      ensures found <==> SlotOf(|old(pcbs)|, pid).Some?
    {
      hide Processes, SpacesOf;
      var slot := Find(pid);
      if slot == None { return false; }
      var p := slots[slot.value].value;
      Unmoved(pcbs, slot.value, p.(state := Ready));
      ProcessesUpdate(pcbs, slot.value, p.(state := Ready));
      Put(slot.value, p.(state := Ready));
      found := true;
    }

    method Terminate(pid: nat, code: nat) returns (found: bool)
      requires Valid()
      modifies this`pcbs, slots
      ensures Valid() && SpacesOf(pcbs) == SpacesOf(old(pcbs)) && |pcbs| == |old(pcbs)|
      ensures Processes(pcbs) == Signals.Terminate(World(Processes(old(pcbs)), []), pid, code).procs
      ensures found <==> SlotOf(|old(pcbs)|, pid).Some?
    {
      hide Processes, SpacesOf;
      var slot := Find(pid);
      if slot == None { return false; }
      var p := slots[slot.value].value;
      var p' := p.(state := Terminated, exitCode := code);
      Unmoved(pcbs, slot.value, p');
      ProcessesUpdate(pcbs, slot.value, p');
      Put(slot.value, p');
      found := true;
    }

    /** `pin_address_space`, on the state in the process's slot. */
    method PinAddressSpace(pid: nat) returns (r: Result<AddressSpace.Pin, AddressSpace.SpaceError>)
      requires Valid()
      modifies this`pcbs, slots
      ensures Valid() && Processes(pcbs) == Processes(old(pcbs))
      ensures (SpacesOf(pcbs), r) == AddressSpace.PinStep(SpacesOf(old(pcbs)), pid)
    {
      hide Processes, SignalsIn, SpacesOf;
      SpaceAt(pcbs, pid);
      var slot := Find(pid);
      if slot == None { return Err(AddressSpace.NotFound); }
      var p := slots[slot.value].value;
      if p.pins + 1 >= U32 { return Err(AddressSpace.PinCountExhausted); }
      SpaceChanges(pcbs, slot.value, p.(pins := p.pins + 1));
      Put(slot.value, p.(pins := p.pins + 1));
      r := Ok(AddressSpace.Pin(pid, p.generation));
    }

    method ReleasePin(pin: AddressSpace.Pin) returns (r: Result<(), AddressSpace.SpaceError>)
      requires Valid()
      modifies this`pcbs, slots
      ensures Valid() && Processes(pcbs) == Processes(old(pcbs))
      ensures (SpacesOf(pcbs), r) == AddressSpace.ReleaseStep(SpacesOf(old(pcbs)), pin)
    {
      hide Processes, SignalsIn, SpacesOf;
      SpaceAt(pcbs, pin.pid);
      var slot := Find(pin.pid);
      if slot == None { return Err(AddressSpace.NotFound); }
      var p := slots[slot.value].value;
      if pin.generation != p.generation || p.pins == 0 { return Err(AddressSpace.InvalidPin); }
      SpaceChanges(pcbs, slot.value, p.(pins := p.pins - 1));
      Put(slot.value, p.(pins := p.pins - 1));
      r := Ok(());
    }

    method BumpGeneration(pid: nat) returns (r: Result<nat, AddressSpace.SpaceError>)
      requires Valid()
      modifies this`pcbs, slots
      ensures Valid() && Processes(pcbs) == Processes(old(pcbs))
      ensures (SpacesOf(pcbs), r) == AddressSpace.BumpStep(SpacesOf(old(pcbs)), pid)
    {
      hide Processes, SignalsIn, SpacesOf;
      SpaceAt(pcbs, pid);
      var slot := Find(pid);
      if slot == None { return Err(AddressSpace.NotFound); }
      var p := slots[slot.value].value;
      if p.pins != 0 { return Err(AddressSpace.Busy); }
      if p.generation + 1 >= U64 { return Err(AddressSpace.GenerationExhausted); }
      SpaceChanges(pcbs, slot.value, p.(generation := p.generation + 1));
      Put(slot.value, p.(generation := p.generation + 1));
      r := Ok(p.generation + 1);
    }

    /** For a live process with a pin to spare, success exactly when the processor allows the access to every byte and
        the direct map reaches its page tables; every failure leaves the pin counts as they were. */
    method PinAndValidate(pid: nat, m: Mapper, range: UserRange.Range)
      returns (r: Result<AddressSpace.PinnedRange, AddressSpace.PinnedError>)
      requires Valid() && InUserSpace(range)
      modifies this`pcbs, slots
      ensures Valid() && Processes(pcbs) == Processes(old(pcbs))
      ensures r.Ok? <==> && AddressSpace.PinStep(SpacesOf(old(pcbs)), pid).1.Ok?
                         && AddressSpace.RangeAllowed(m, range) && AddressSpace.RangeReached(m, range)
      ensures r.Ok? ==> && (SpacesOf(pcbs), Ok(r.value.pin)) == AddressSpace.PinStep(SpacesOf(old(pcbs)), pid)
                        && r.value.range == range
      ensures r.Err? ==> SpacesOf(pcbs) == SpacesOf(old(pcbs))
      ensures r.Err? ==> (r.error.AddressSpaceError? <==> AddressSpace.PinStep(SpacesOf(old(pcbs)), pid).1.Err?)
      ensures r.Err? && r.error.PagesError? ==>
                exists b :: range.start <= b < range.start + range.len
                            && FirstRefusal(range, AddressSpace.Resolver(m), b, r.error.pages)
    {
      hide AddressSpace.RangeAllowed, AddressSpace.RangeReached, AllBytesPermitted, FirstRefusal, AddressSpace.Resolver,
           Processes, SpacesOf;
      var p := PinAddressSpace(pid);
      if p.Err? { return Err(AddressSpace.AddressSpaceError(p.error)); }
      var e := ValidatePages(range, AddressSpace.Resolver(m));
      AddressSpace.RangeAllowedIsPermitted(m, range);
      if e.Some? {
        var undo := ReleasePin(p.value);
        AddressSpace.ReleaseUndoesPin(SpacesOf(old(pcbs)), pid);
        return Err(AddressSpace.PagesError(e.value));
      }
      r := Ok(AddressSpace.PinnedRange(p.value, range));
    }
  }

  /** A new process has nothing pending, nothing blocked, and a fresh address space. */
  lemma CreatedViews(pcbs: seq<Pcb>)
    ensures var after := pcbs + [NewPcb(|pcbs| + 1)];
            && Processes(after) == Processes(pcbs) + [Signals.Process(Creating, 0, {}, {})]
            && SpacesOf(after) == SpacesOf(pcbs)[|pcbs| + 1 := AddressSpace.NEW_SPACE]
  {
    var after := pcbs + [NewPcb(|pcbs| + 1)];
    EmptyMask();
    hide SignalsIn;
    assert after[..|after| - 1] == pcbs;
  }

  /** Changing only the address space of one process. */
  lemma SpaceChanges(pcbs: seq<Pcb>, i: nat, p: Pcb)
    requires i < |pcbs| && ProcessOf(p) == ProcessOf(pcbs[i])
    ensures SpacesOf(pcbs[i := p]) == SpacesOf(pcbs)[i + 1 := SpaceOf(p)]
    ensures Processes(pcbs[i := p]) == Processes(pcbs)
  {
    SpacesUpdate(pcbs, i, p);
    ProcessesUpdate(pcbs, i, p);
    assert Processes(pcbs)[i := ProcessOf(pcbs[i])] == Processes(pcbs);
  }

  /** Changing anything but the address space leaves all spaces as they are. */
  lemma Unmoved(pcbs: seq<Pcb>, i: nat, p: Pcb)
    requires i < |pcbs| && SpaceOf(p) == SpaceOf(pcbs[i])
    ensures SpacesOf(pcbs[i := p]) == SpacesOf(pcbs)
  {
    SpaceAt(pcbs, i + 1);
    SpacesUpdate(pcbs, i, p);
  }
}
