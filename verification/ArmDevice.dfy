/** Arming one vector for a device: the capability list, then MSI-X, then MSI, in one configuration space. */
module ArmDevice {
  import opened Common
  import opened InterruptRegisters
  import opened Msi
  import opened MsiArming
  import Cap = Capabilities

  /** What arming can change: the vector registry, configuration space, the MSI-X table entry, and how many register
      writes the device has taken. */
  datatype Machine = Machine(owners: seq<Option<Owner>>, words: seq<bv16>, entry: TableEntry, clock: nat)

  /** What an attempt to program a mechanism answers, by the honesty of the writes it took: success if all were
      honest, a readback failure only if one was not, a failed rollback only if two were not. */
  ghost predicate Tried(honest: nat -> bool, from: nat, to: nat, r: ProgramResult<()>) {
    && from <= to && (Honest(honest, from, to) ==> r.Ok?)
    && (r.Err? ==> r.error == ReadbackFailed || r.error == RollbackFailed)
    && (r == Err(ReadbackFailed) ==> Lost(honest, from, to)) && (r == Err(RollbackFailed) ==> LostTwo(honest, from, to))
  }

  /** Program the entry of a kind in place: live, quiet as before, or a failed rollback, and nothing else touched. */
  method ProgramAt(kind: Kind, space: ConfigSpace, table: MsixTable, m: Message) returns (r: ProgramResult<()>)
    requires Fits(kind, |space.words|) && !EnabledIn(kind, space.words) && Fits16(m.data)
    modifies space, table
    ensures Tried(space.honest, old(space.clock), space.clock, r)
    ensures |space.words| == old(|space.words|) && Fits(kind, |space.words|)
    ensures Framed(kind, old(space.words), space.words, old(table.entry), table.entry)
    ensures var before := old(ViewOf(kind, space.words, table.entry));
            var now := ViewOf(kind, space.words, table.entry);
            && (r.Ok? ==> now == Live(LayoutOf(kind), before, m))
            && (r == Err(ReadbackFailed) ==> now == Quiet(LayoutOf(kind), before))
            && (r.Err? ==> r.error == ReadbackFailed || r.error == RollbackFailed)
  {
    var io := new InterruptIo(kind, space, table);
    assert Extend(space.words[kind.at + 1]) == io.regs.control;
    hide ViewOf, Framed, Live, Quiet, PayloadIsGuarded, Faults, Enabled, AsHonest, Untruncated, Fits16;
    r := Program(io, LayoutOf(kind), m);
    FaultsAreLost(kind, space.honest, io.start, io.log);
  }

  /** One round of the fallback loop: reserve, program, then keep, fail or give back the vector. */
  method TryMode(reg: VectorRegistry, vector: Byte, address: nat, destination: Byte, mode: Mode,
                 kind: Kind, space: ConfigSpace, table: MsixTable, m: Message)
    returns (r: ProgramResult<()>, stop: bool)
    requires reg.Valid() && Index(vector).Some? && Fits(kind, |space.words|) && !EnabledIn(kind, space.words)
    requires Fits16(m.data)
    modifies reg.owners, space, table
    ensures reg.Valid() && |space.words| == old(|space.words|) && Fits(kind, |space.words|)
    ensures Framed(kind, old(space.words), space.words, old(table.entry), table.entry)
    ensures var i := Index(vector).value;
            var was, before := old(reg.owners[..]), old(ViewOf(kind, space.words, table.entry));
            var now := ViewOf(kind, space.words, table.entry);
            && (was[i].Some? ==> && r == Err(InvalidCapability) && stop && reg.owners[..] == was
                                 && space.words == old(space.words) && table.entry == old(table.entry)
                                 && space.clock == old(space.clock))
            && (was[i] == None ==>
                  && Tried(space.honest, old(space.clock), space.clock, r)
                  && (r.Ok? ==> && stop && now == Live(LayoutOf(kind), before, m)
                                && reg.owners[..] == was[i := Some(Owner(address, mode, destination, Armed))])
                  && (r == Err(RollbackFailed) ==>
                        stop && reg.owners[..] == was[i := Some(Owner(address, mode, destination, Failed))])
                  && (r.Err? && r.error != RollbackFailed ==>
                        && r.error == ReadbackFailed && !stop && reg.owners[..] == was
                        && now == Quiet(LayoutOf(kind), before)))
  {
    hide ViewOf, Live, Quiet, EnabledIn, Tried, Fits16;
    ghost var was := reg.owners[..];
    var e := reg.Reserve(vector, address, mode, destination);
    if e.Some? { return Err(InvalidCapability), true; }
    r := ProgramAt(kind, space, table, m);
    if r.Ok? {
      var t := reg.Transition(vector, Armed);
      assert t == None;
      return r, true;
    }
    var t := reg.Transition(vector, Failed);
    assert t == None;
    if r.error == RollbackFailed { return r, true; }
    var f := reg.ReleaseFailed(vector);
    assert f == None;
    assert reg.owners[..] == was;
    stop := false;
  }

  /** What arming leaves behind. The registry says who owns the vector; a mechanism found enabled, or a vector already
      owned, means that nothing was touched; a failed rollback ends the attempt. */
  ghost predicate Outcome(honest: nat -> bool, a: Machine, b: Machine, vector: Byte, address: nat, destination: Byte,
                          msix: Option<Mechanism>, msi: Option<Mechanism>, r: ProgramResult<Mode>)
    requires |a.owners| == |b.owners| == PCI_VECTOR_COUNT && |a.words| == |b.words| && Offered(msix, msi, |a.words|)
  {
    var message := ApicMessage(vector, destination);
    var live := LiveIn(msix, a.words) || LiveIn(msi, a.words);
    && (message == None ==> r == Err(InvalidCapability) && b == a)
    && (message.Some? && live ==> r == Err(AlreadyEnabled) && b == a)
    && (message.Some? && !live ==>
          && Attempted(a, b, Index(vector).value, address, destination, message.value, msix, msi, r)
          && (a.owners[Index(vector).value] == None ==> Course(honest, a.clock, b.clock, msix, msi, r))
          && (a.owners[Index(vector).value].Some? ==>
                r == Err(if Usable(msix) || msi.Some? then InvalidCapability else LastError(msix))))
  }

  /** MSI-X is there and its table is in order. */
  predicate Usable(msix: Option<Mechanism>) { msix.Some? && msix.value.refusal == None }

  /** Why nothing was tried. */
  function LastError(msix: Option<Mechanism>): ProgramError {
    if msix.Some? && msix.value.refusal.Some? then msix.value.refusal.value else InvalidCapability
  }

  /** The order of the attempts and what each must answer: a usable MSI-X first; MSI next, unless MSI-X succeeded or
      could not be rolled back; with no MSI the last error stands. */
  ghost predicate Course(honest: nat -> bool, from: nat, to: nat, msix: Option<Mechanism>, msi: Option<Mechanism>,
                         r: ProgramResult<Mode>)
  {
    exists mid: nat, x: ProgramResult<()>, i: ProgramResult<()> ::
      CourseVia(honest, from, mid, to, msix, msi, x, i, r)
  }

  /** `x` and `i` are the answers of the MSI-X and the MSI attempt, which ended at `mid` and at `to`. */
  ghost predicate CourseVia(honest: nat -> bool, from: nat, mid: nat, to: nat, msix: Option<Mechanism>,
                            msi: Option<Mechanism>, x: ProgramResult<()>, i: ProgramResult<()>, r: ProgramResult<Mode>)
  {
    && from <= mid <= to
    && (if Usable(msix) then Tried(honest, from, mid, x) else mid == from)
    && if Usable(msix) && x.Ok? then r == Ok(Msix) && to == mid
       else if Usable(msix) && x == Err(RollbackFailed) then r == Err(RollbackFailed) && to == mid
       else if msi.Some? then Tried(honest, mid, to, i) && r == if i.Ok? then Ok(MsiMode) else Err(i.error)
       else to == mid && r == Err(if Usable(msix) then ReadbackFailed else LastError(msix))
  }

  /** The same, once it is known that neither mechanism was enabled; `i` is the vector's slot. */
  predicate Attempted(a: Machine, b: Machine, i: nat, address: nat, destination: Byte, m: Message,
                      msix: Option<Mechanism>, msi: Option<Mechanism>, r: ProgramResult<Mode>)
    requires |a.owners| == |b.owners| == PCI_VECTOR_COUNT && |a.words| == |b.words| && Offered(msix, msi, |a.words|)
    requires i < PCI_VECTOR_COUNT
  {
    && (a.owners[i].Some? ==> r.Err? && r.error != RollbackFailed && b == a)
    && (r.Ok? ==> && b.owners == a.owners[i := Some(Owner(address, r.value, destination, Armed))]
                  && (r.value == Msix || r.value == MsiMode))
    && (r == Ok(Msix) ==> MsixArmed(a, b, m, msix, msi))
    && (r == Ok(MsiMode) ==> MsiArmed(a, b, m, msix, msi))
    && (r.Err? && r.error != RollbackFailed ==>
          r.error != AlreadyEnabled && b.owners == a.owners && !LiveIn(msix, b.words) && !LiveIn(msi, b.words))
    && (r == Err(RollbackFailed) ==>
          exists mode ::
            && b.owners == a.owners[i := Some(Owner(address, mode, destination, Failed))]
            && ((mode == Msix && msix.Some? && !LiveIn(msi, b.words)
                 && Framed(msix.value.kind, a.words, b.words, a.entry, b.entry))
                || (mode == MsiMode && msi.Some? && (Separate(msix, msi) ==> !LiveIn(msix, b.words)))))
  }

  /** MSI-X publishes exactly the message and MSI stays off. */
  predicate MsixArmed(a: Machine, b: Machine, m: Message, msix: Option<Mechanism>, msi: Option<Mechanism>)
    requires |a.words| == |b.words| && Offered(msix, msi, |a.words|)
  {
    && msix.Some? && !LiveIn(msi, b.words)
    && ViewOf(msix.value.kind, b.words, b.entry)
       == Live(LayoutOf(msix.value.kind), ViewOf(msix.value.kind, a.words, a.entry), m)
  }

  /** MSI publishes exactly the message; MSI-X reads as enabled exactly when its entry starts at the MSI address. */
  predicate MsiArmed(a: Machine, b: Machine, m: Message, msix: Option<Mechanism>, msi: Option<Mechanism>)
    requires |a.words| == |b.words| && Offered(msix, msi, |a.words|)
  {
    && msi.Some? && (LiveIn(msix, b.words) <==> OnAddress(msix, msi))
    && var l, s := LayoutOf(msi.value.kind), ViewOf(msi.value.kind, b.words, b.entry);
       && s.control == Published(l, ViewOf(msi.value.kind, a.words, a.entry).control)
       && s.low == m.address && s.data == m.data && (l.addressHigh ==> s.high == 0)
       && (l.masking ==> s.mask == WithoutMask(s.mask))
       && (Separate(msix, msi) ==> s == Live(l, ViewOf(msi.value.kind, a.words, a.entry), m))
  }

  /** On a device that keeps every write, arming a free vector succeeds whenever there is a mechanism to program:
      MSI-X if it is usable, else MSI. */
  lemma HonestDeviceArms(honest: nat -> bool, a: Machine, b: Machine, vector: Byte, address: nat, destination: Byte,
                         msix: Option<Mechanism>, msi: Option<Mechanism>, r: ProgramResult<Mode>)
    requires |a.owners| == |b.owners| == PCI_VECTOR_COUNT && |a.words| == |b.words| && Offered(msix, msi, |a.words|)
    requires Outcome(honest, a, b, vector, address, destination, msix, msi, r)
    requires ApicMessage(vector, destination).Some? && a.owners[Index(vector).value] == None
    requires !LiveIn(msix, a.words) && !LiveIn(msi, a.words) && Honest(honest, a.clock, b.clock)
    ensures r == if Usable(msix) then Ok(Msix) else if msi.Some? then Ok(MsiMode) else Err(LastError(msix))
  {
    hide Attempted, LiveIn, Offered, ApicMessage;
    var mid: nat, x, i :| CourseVia(honest, a.clock, mid, b.clock, msix, msi, x, i, r);
  }

  /** A failure has its reason: a lost write, two lost writes of one attempt, or that there was nothing to program. */
  lemma ErrorsHaveReasons(honest: nat -> bool, a: Machine, b: Machine, vector: Byte, address: nat, destination: Byte,
                          msix: Option<Mechanism>, msi: Option<Mechanism>, r: ProgramResult<Mode>)
    requires |a.owners| == |b.owners| == PCI_VECTOR_COUNT && |a.words| == |b.words| && Offered(msix, msi, |a.words|)
    requires Outcome(honest, a, b, vector, address, destination, msix, msi, r) && r.Err?
    requires ApicMessage(vector, destination).Some? && a.owners[Index(vector).value] == None
    requires !LiveIn(msix, a.words) && !LiveIn(msi, a.words)
    ensures r == Err(ReadbackFailed) ==> Lost(honest, a.clock, b.clock)
    ensures r == Err(RollbackFailed) ==> LostTwo(honest, a.clock, b.clock)
    ensures r.error !in {ReadbackFailed, RollbackFailed} ==> !Usable(msix) && msi == None && r.error == LastError(msix)
  {
    hide Attempted, LiveIn, ApicMessage;
    var mid: nat, x, i :| CourseVia(honest, a.clock, mid, b.clock, msix, msi, x, i, r);
  }

  /** The two are left both enabled by a successful arming exactly when the MSI-X entry starts at the MSI address;
      on separate entries nothing at all leaves them both enabled. */
  lemma BothEnabledIff(honest: nat -> bool, a: Machine, b: Machine, vector: Byte, address: nat, destination: Byte,
                       msix: Option<Mechanism>, msi: Option<Mechanism>, r: ProgramResult<Mode>)
    requires |a.owners| == |b.owners| == PCI_VECTOR_COUNT && |a.words| == |b.words| && Offered(msix, msi, |a.words|)
    requires Outcome(honest, a, b, vector, address, destination, msix, msi, r)
    requires !LiveIn(msix, a.words) && !LiveIn(msi, a.words)
    ensures r.Ok? ==> (LiveIn(msix, b.words) && LiveIn(msi, b.words) <==> r == Ok(MsiMode) && OnAddress(msix, msi))
    ensures Separate(msix, msi) ==> !(LiveIn(msix, b.words) && LiveIn(msi, b.words))
  {
    if r == Ok(MsiMode) {
      MsiIsLive(a, b, ApicMessage(vector, destination).value, msix, msi);
      if OnAddress(msix, msi) { ControlMeetsIff(msi.value.kind, msix.value.kind.at); }
    }
  }

  lemma MsiIsLive(a: Machine, b: Machine, m: Message, msix: Option<Mechanism>, msi: Option<Mechanism>)
    requires |a.words| == |b.words| && Offered(msix, msi, |a.words|) && MsiArmed(a, b, m, msix, msi)
    ensures LiveIn(msi, b.words)
  {
    PublishedBits(LayoutOf(msi.value.kind), ViewOf(msi.value.kind, a.words, a.entry).control);
    hide Published, Enabled, Extend, Join;
  }

  // ---------------------------------------------------------------------
  // One attempt, seen from the other mechanism
  // ---------------------------------------------------------------------

  lemma MsixLeavesMsi(a: Machine, b: Machine, msix: Option<Mechanism>, msi: Option<Mechanism>)
    requires |a.words| == |b.words| && Offered(msix, msi, |a.words|) && msix.Some?
    requires Framed(msix.value.kind, a.words, b.words, a.entry, b.entry)
    ensures LiveIn(msi, b.words) <==> LiveIn(msi, a.words)
  {
    if msi.Some? { MsixSparesMsi(msix.value.kind, msi.value.kind, a.words, b.words, a.entry, b.entry); }
  }

  /** A mechanism that was rolled back is off. */
  lemma QuietIsOff(a: Machine, b: Machine, m: Mechanism)
    requires |a.words| == |b.words| && Fits(m.kind, |a.words|)
    requires ViewOf(m.kind, b.words, b.entry) == Quiet(LayoutOf(m.kind), ViewOf(m.kind, a.words, a.entry))
    ensures !LiveIn(Some(m), b.words)
  {
    DisabledBits(LayoutOf(m.kind), ViewOf(m.kind, a.words, a.entry).control);
    hide Disabled, Enabled, Extend, Join;
  }

  lemma MsiGoesLive(a: Machine, b: Machine, m: Message, msix: Option<Mechanism>, msi: Option<Mechanism>)
    requires |a.words| == |b.words| && Offered(msix, msi, |a.words|) && msi.Some? && !LiveIn(msix, a.words)
    requires Framed(msi.value.kind, a.words, b.words, a.entry, b.entry) && ApicAddress(m.address)
    requires var k := msi.value.kind;
             ViewOf(k, b.words, b.entry) == Live(LayoutOf(k), ViewOf(k, a.words, a.entry), m)
    ensures MsiArmed(a, b, m, msix, msi)
  {
    if msix.Some? { MsixAfterLive(msi.value.kind, msix.value.kind, a.words, b.words, a.entry, m); }
    ClearedTwice(ViewOf(msi.value.kind, a.words, a.entry).mask);
    hide ViewOf, Published, WithoutMask, EnabledIn, Framed, ApicAddress, Owns;
  }

  lemma ClearedTwice(mask: bv32)
    ensures WithoutMask(WithoutMask(mask)) == WithoutMask(mask)
  {
  }

  lemma MsiFallsQuiet(a: Machine, b: Machine, msix: Option<Mechanism>, msi: Option<Mechanism>)
    requires |a.words| == |b.words| && Offered(msix, msi, |a.words|) && msi.Some?
    requires Framed(msi.value.kind, a.words, b.words, a.entry, b.entry)
    requires var k := msi.value.kind;
             ViewOf(k, b.words, b.entry) == Quiet(LayoutOf(k), ViewOf(k, a.words, a.entry))
    ensures LiveIn(msix, b.words) <==> LiveIn(msix, a.words)
  {
    if msix.Some? { MsixAfterQuiet(msi.value.kind, msix.value.kind, a.words, b.words, a.entry); }
    hide ViewOf, Quiet, EnabledIn, Framed;
  }

  /** Apart, nothing the MSI attempt writes can reach the MSI-X control word. */
  lemma MsiLeavesMsix(a: Machine, b: Machine, msix: Option<Mechanism>, msi: Option<Mechanism>)
    requires |a.words| == |b.words| && Offered(msix, msi, |a.words|) && msi.Some? && Separate(msix, msi)
    requires Framed(msi.value.kind, a.words, b.words, a.entry, b.entry)
    ensures LiveIn(msix, b.words) <==> LiveIn(msix, a.words)
  {
    hide Extend, Enabled;
  }

  /** An MSI-X attempt before it changes nothing that the MSI outcome speaks of. */
  lemma AfterMsix(a: Machine, c: Machine, b: Machine, m: Message, msix: Option<Mechanism>, msi: Option<Mechanism>)
    requires |a.words| == |c.words| == |b.words| && Offered(msix, msi, |a.words|) && msix.Some?
    requires Framed(msix.value.kind, a.words, c.words, a.entry, c.entry) && MsiArmed(c, b, m, msix, msi)
    ensures MsiArmed(a, b, m, msix, msi)
  {
    var k := msi.value.kind;
    assert ViewOf(k, c.words, c.entry).control == ViewOf(k, a.words, a.entry).control by { hide Extend, Join; }
    if Separate(msix, msi) {
      assert ViewOf(k, c.words, c.entry) == ViewOf(k, a.words, a.entry) by { hide Extend, Join; }
    }
    hide ViewOf, Published, WithoutMask, EnabledIn, Live, Framed;
  }

  lemma MessageAddress(vector: Byte, destination: Byte)
    requires ApicMessage(vector, destination).Some?
    ensures ApicAddress(ApicMessage(vector, destination).value.address)
    ensures Fits16(ApicMessage(vector, destination).value.data)
  {
    ByteFits(vector as bv8);
    ApicBase(Widen(destination) << 12);
  }

  lemma ByteFits(b: bv8)
    ensures Fits16(b as bv32)
  {
  }

  lemma ApicBase(x: bv32)
    ensures (0xFEE0_0000 | x) & 0x8000_0000 != 0
  {
  }

  // ---------------------------------------------------------------------
  // The two attempts
  // ---------------------------------------------------------------------

  ghost function Now(reg: VectorRegistry, space: ConfigSpace, table: MsixTable): Machine
    reads reg.owners, space, table
  {
    Machine(reg.owners[..], space.words, table.entry, space.clock)
  }

  /** The second round: MSI, after an MSI-X attempt that left configuration space framed, or after none. */
  method TryMsi(reg: VectorRegistry, vector: Byte, address: nat, destination: Byte, space: ConfigSpace,
                table: MsixTable, msix: Option<Mechanism>, msi: Option<Mechanism>, m: Message, last: ProgramError,
                ghost a: Machine)
    returns (r: ProgramResult<Mode>)
    requires reg.Valid() && Offered(msix, msi, |space.words|) && Index(vector).Some? && ApicAddress(m.address)
    requires !LiveIn(msix, space.words) && !LiveIn(msi, space.words) && Fits16(m.data)
    requires last != RollbackFailed && last != AlreadyEnabled
    requires a.owners == reg.owners[..] && |a.words| == |space.words|
    requires a == Now(reg, space, table)
             || (a.owners[Index(vector).value] == None && msix.Some?
                 && Framed(msix.value.kind, a.words, space.words, a.entry, table.entry))
    modifies reg.owners, space, table
    ensures reg.Valid() && |space.words| == old(|space.words|)
    ensures Attempted(a, Now(reg, space, table), Index(vector).value, address, destination, m, msix, msi, r)
    ensures old(space.clock) <= space.clock
    ensures a.owners[Index(vector).value].Some? ==> r == Err(if msi.Some? then InvalidCapability else last)
    ensures a.owners[Index(vector).value] == None ==>
              if msi == None then r == Err(last) && space.clock == old(space.clock)
              else exists t :: Tried(space.honest, old(space.clock), space.clock, t)
                               && r == if t.Ok? then Ok(MsiMode) else Err(t.error)
  {
    ghost var c := Now(reg, space, table);
    hide ViewOf, Framed, Live, Quiet, EnabledIn, Fits, LayoutOf, Index, ApicAddress, Separate, MsiArmed, Fits16;
    hide Honest, Lost, LostTwo;
    if msi == None { return Err(last); }
    var t, stop := TryMode(reg, vector, address, destination, MsiMode, msi.value.kind, space, table, m);
    ghost var b := Now(reg, space, table);
    if t.Ok? {
      MsiGoesLive(c, b, m, msix, msi);
      if c != a { AfterMsix(a, c, b, m, msix, msi); }
      return Ok(MsiMode);
    }
    r := Err(t.error);
    if stop {
      if Separate(msix, msi) { MsiLeavesMsix(c, b, msix, msi); }
    } else {
      QuietIsOff(c, b, msi.value);
      MsiFallsQuiet(c, b, msix, msi);
    }
  }

  /** `arm_interrupts_for_device` after the capabilities are decoded: MSI-X first, then MSI. */
  method ArmInterrupts(reg: VectorRegistry, vector: Byte, address: nat, destination: Byte, space: ConfigSpace,
                       table: MsixTable, msix: Option<Mechanism>, msi: Option<Mechanism>)
    returns (r: ProgramResult<Mode>)
    requires reg.Valid() && Offered(msix, msi, |space.words|)
    modifies reg.owners, space, table
    ensures reg.Valid() && |space.words| == old(|space.words|)
    ensures Outcome(space.honest, old(Now(reg, space, table)), Now(reg, space, table), vector, address, destination,
                    msix, msi, r)
  {
    ghost var a := Now(reg, space, table);
    var message := ApicMessage(vector, destination);
    if message == None { return Err(InvalidCapability); }
    var m := message.value;
    MessageAddress(vector, destination);
    hide ViewOf, Framed, Live, Quiet, EnabledIn, Fits, LayoutOf, ApicMessage, ApicAddress, Separate, MsiArmed;
    if msix.Some? && EnabledIn(msix.value.kind, space.words) { return Err(AlreadyEnabled); }
    if msi.Some? && EnabledIn(msi.value.kind, space.words) { return Err(AlreadyEnabled); }
    hide Honest, Lost, LostTwo;
    var last := InvalidCapability;
    ghost var x: ProgramResult<()> := Ok(());
    if msix.Some? {
      if msix.value.refusal.Some? {
        last := msix.value.refusal.value;
      } else {
        var t, stop := TryMode(reg, vector, address, destination, Msix, msix.value.kind, space, table, m);
        ghost var c := Now(reg, space, table);
        MsixLeavesMsi(a, c, msix, msi);
        if t.Ok? {
          assert MsixArmed(a, c, m, msix, msi);
          assert Tried(space.honest, a.clock, c.clock, t) ==>
                   CourseVia(space.honest, a.clock, c.clock, c.clock, msix, msi, t, t, Ok(Msix));
          return Ok(Msix);
        }
        if stop {
          assert Tried(space.honest, a.clock, c.clock, t) ==>
                   CourseVia(space.honest, a.clock, c.clock, c.clock, msix, msi, t, t, Err(t.error));
          return Err(t.error);
        }
        QuietIsOff(a, c, msix.value);
        last, x := t.error, t;
      }
    }
    ghost var mid := space.clock;
    r := TryMsi(reg, vector, address, destination, space, table, msix, msi, m, last, a);
    if a.owners[Index(vector).value] == None {
      if msi == None {
        assert CourseVia(space.honest, a.clock, mid, space.clock, msix, msi, x, x, r);
      } else {
        ghost var t :| Tried(space.honest, mid, space.clock, t) && r == if t.Ok? then Ok(MsiMode) else Err(t.error);
        assert CourseVia(space.honest, a.clock, mid, space.clock, msix, msi, x, t, r);
      }
    }
  }

  // ---------------------------------------------------------------------
  // From configuration space on
  // ---------------------------------------------------------------------

  function LowByte(w: bv16): Byte { ((w & 0xFF) as bv8) as int }
  function HighByte(w: bv16): Byte { ((w >> 8) as bv8) as int }

  /** Configuration space as the bytes the list is walked on. */
  function Bytes(words: seq<bv16>): (config: seq<Byte>)
    ensures |config| == 2 * |words|
  {
    seq(2 * |words|, i requires 0 <= i < 2 * |words| =>
      if i % 2 == 0 then LowByte(words[i / 2]) else HighByte(words[i / 2]))
  }

  predicate GoodEntry(config: seq<Byte>, c: Cap.Capability) {
    Cap.GoodPointer(config, c.offset) && c.id == config[c.offset]
  }

  lemma {:induction false} EntriesAreGood(config: seq<Byte>, n: nat)
    requires |config| >= 0x40 && Cap.Pointer(config, n).Some?
    ensures forall c :: c in Cap.Entries(config, n) ==> GoodEntry(config, c)
  {
    if n > 0 { EntriesAreGood(config, n - 1); }
  }

  /** The list of an accepted configuration space. */
  ghost predicate ListAccepted(config: seq<Byte>)
    requires |config| >= 0x40
  {
    !Cap.HasList(config) || exists n: nat :: n <= Cap.MAX_PCI_CAPABILITIES && Cap.EndsAfter(config, n)
  }

  lemma ListedAreGood(config: seq<Byte>)
    requires |config| >= 0x40 && ListAccepted(config)
    ensures forall c :: c in Cap.Listed(config) ==> GoodEntry(config, c)
  {
    if Cap.HasList(config) {
      var n: nat :| && n <= Cap.MAX_PCI_CAPABILITIES && Cap.EndsAfter(config, n)
                    && Cap.Listed(config) == Cap.Entries(config, n);
      EntriesAreGood(config, n);
    }
  }

  function Refusal(e: Cap.TableError): (r: ProgramError)
    ensures r !in {RollbackFailed, AlreadyEnabled, ReadbackFailed}
  {
    match e
    case InvalidTable => InvalidCapability
    case InvalidBar => ProgramError.InvalidBar
    case TableOutsideBar => ProgramError.TableOutsideBar
  }

  /** The bars and the mapping of a device, as the kernel holds them. */
  predicate MappedBars(bars: Cap.Bars, mapping: Cap.Mapping) {
    Cap.SixBars(bars) && mapping.virtual < U64 && mapping.size < U64
  }

  function MsixMechanism(config: seq<Byte>, cap: Cap.Capability, bars: Cap.Bars, mapping: Cap.Mapping)
    : (r: Result<Option<Mechanism>, Cap.CapabilityError>)
    requires MappedBars(bars, mapping)
    ensures r.Ok? ==> && r.value.Some? && r.value.value.kind == MsixEntry(cap.offset / 2)
                      && cap.id == Cap.MSIX_ID && cap.offset + 12 <= |config|
                      && (r.value.value.refusal.Some? ==> Unprogrammed(r.value.value.refusal.value))
  {
    var c := Cap.DecodeMsix(config, cap);
    if c.Err? then Err(c.error)
    else
      var entry := Cap.EntryAddress(bars, mapping, c.value);
      Ok(Some(Mechanism(MsixEntry(cap.offset / 2), if entry.Ok? then None else Some(Refusal(entry.error)))))
  }

  function MsiMechanism(config: seq<Byte>, cap: Cap.Capability): (r: Result<Option<Mechanism>, Cap.CapabilityError>)
    ensures r.Ok? ==> && r.value.Some? && r.value.value.kind.MsiEntry? && r.value.value.kind.at == cap.offset / 2
                      && r.value.value.refusal == None && cap.id == Cap.MSI_ID
                      && cap.offset + 2 * Words(r.value.value.kind) <= |config|
  {
    var c := Cap.DecodeMsi(config, cap);
    if c.Err? then Err(c.error)
    else Ok(Some(Mechanism(MsiEntry(cap.offset / 2, c.value.is64, c.value.masking), None)))
  }

  /** The first MSI-X and the first MSI entry of a list, unless one is malformed. */
  function MechanismsIn(caps: seq<Cap.Capability>, config: seq<Byte>, bars: Cap.Bars, mapping: Cap.Mapping)
    : Option<(Option<Mechanism>, Option<Mechanism>)>
    requires MappedBars(bars, mapping)
  {
    var x, i := Cap.Find(caps, Cap.MSIX_ID), Cap.Find(caps, Cap.MSI_ID);
    var msix := if x == None then Ok(None) else MsixMechanism(config, x.value, bars, mapping);
    var msi := if i == None then Ok(None) else MsiMechanism(config, i.value);
    if msix.Err? || msi.Err? then None else Some((msix.value, msi.value))
  }

  /** Entries of a walked list are aligned, inside configuration space, and never the same entry. */
  lemma DecodedIsOffered(caps: seq<Cap.Capability>, config: seq<Byte>, bars: Cap.Bars, mapping: Cap.Mapping)
    requires MappedBars(bars, mapping) && |config| % 2 == 0 && forall c :: c in caps ==> GoodEntry(config, c)
    ensures var r := MechanismsIn(caps, config, bars, mapping);
            r.Some? ==> Offered(r.value.0, r.value.1, |config| / 2)
  {
    hide MsixMechanism, MsiMechanism, Cap.Find;
    var x, i := Cap.Find(caps, Cap.MSIX_ID), Cap.Find(caps, Cap.MSI_ID);
    if x.Some? { assert GoodEntry(config, x.value); }
    if i.Some? { assert GoodEntry(config, i.value); }
  }

  /** What the capability list offers: nothing usable at all, or the decoded MSI-X and MSI mechanisms. */
  ghost function Mechanisms(words: seq<bv16>, bars: Cap.Bars, mapping: Cap.Mapping)
    : (r: Option<(Option<Mechanism>, Option<Mechanism>)>)
    requires |words| == 128 && MappedBars(bars, mapping)
    ensures r.Some? ==> Offered(r.value.0, r.value.1, |words|)
  {
    var config := Bytes(words);
    if !ListAccepted(config) then None
    else
      ListedAreGood(config);
      DecodedIsOffered(Cap.Listed(config), config, bars, mapping);
      MechanismsIn(Cap.Listed(config), config, bars, mapping)
  }

  /** The whole of `arm_interrupts_for_device`. A device that is not in the inventory, or whose list or entries are
      malformed, is refused with nothing touched. */
  method Arm(reg: VectorRegistry, vector: Byte, address: nat, destination: Byte, known: bool,
             space: ConfigSpace, table: MsixTable, bars: Cap.Bars, mapping: Cap.Mapping)
    returns (r: ProgramResult<Mode>)
    requires reg.Valid() && |space.words| == 128 && MappedBars(bars, mapping)
    modifies reg.owners, space, table
    ensures reg.Valid() && |space.words| == 128
    ensures var offer := old(Mechanisms(space.words, bars, mapping));
            if ApicMessage(vector, destination) == None || !known || offer == None
            then r == Err(InvalidCapability) && Now(reg, space, table) == old(Now(reg, space, table))
            else Outcome(space.honest, old(Now(reg, space, table)), Now(reg, space, table), vector, address,
                         destination, offer.value.0, offer.value.1, r)
  {
    hide Outcome, ApicMessage, Bytes, MechanismsIn, Cap.EndsAfter, Cap.HasList, Cap.Listed;
    if ApicMessage(vector, destination) == None || !known { return Err(InvalidCapability); }
    var config := Bytes(space.words);
    var caps := Cap.WalkCapabilities(config);
    if caps.Err? { return Err(InvalidCapability); }
    ListedAreGood(config);
    DecodedIsOffered(caps.value, config, bars, mapping);
    var offer := MechanismsIn(caps.value, config, bars, mapping);
    if offer == None { return Err(InvalidCapability); }
    r := ArmInterrupts(reg, vector, address, destination, space, table, offer.value.0, offer.value.1);
  }

  /** Two decoded entries are separate exactly when MSI-X starts at none of: the MSI address, its upper half, its
      mask word. */
  lemma SeparateIff(config: seq<Byte>, x: Cap.Capability, i: Cap.Capability, bars: Cap.Bars, mapping: Cap.Mapping)
    requires MappedBars(bars, mapping) && GoodEntry(config, x) && GoodEntry(config, i)
    requires MsixMechanism(config, x, bars, mapping).Ok? && Cap.DecodeMsi(config, i).Ok?
    ensures var c := Cap.DecodeMsi(config, i).value;
            Separate(MsixMechanism(config, x, bars, mapping).value, MsiMechanism(config, i).value)
            <==> && x.offset != i.offset + 4 && (c.is64 ==> x.offset != i.offset + 8)
                 && (c.masking ==> x.offset != i.offset + if c.is64 then 16 else 12)
  {
    hide Cap.EntryAddress, Owns;
    var c := Cap.DecodeMsi(config, i).value;
    assert MsiMechanism(config, i).value.value.kind == MsiEntry(i.offset / 2, c.is64, c.masking);
    assert x.offset % 4 == 0 && i.offset % 4 == 0 && x.offset != i.offset;
    hide Cap.DecodeMsi, Cap.DecodeMsix, MsiMechanism, MsixMechanism, GoodEntry;
    OffsetsMeetIff(i.offset, c.is64, c.masking, x.offset);
  }

  lemma OffsetsMeetIff(m: nat, is64: bool, masking: bool, x: nat)
    requires m % 4 == 0 && x % 4 == 0 && x != m
    ensures Owns(MsiEntry(m / 2, is64, masking), x / 2 + 1)
            <==> x == m + 4 || (is64 && x == m + 8) || (masking && x == m + if is64 then 16 else 12)
  {
    ControlMeetsIff(MsiEntry(m / 2, is64, masking), x / 2);
    hide Owns;
  }

  /** So entries that do not overlap are. */
  lemma DisjointIsSeparate(config: seq<Byte>, x: Cap.Capability, i: Cap.Capability, bars: Cap.Bars,
                           mapping: Cap.Mapping)
    requires MappedBars(bars, mapping) && GoodEntry(config, x) && GoodEntry(config, i)
    requires MsixMechanism(config, x, bars, mapping).Ok? && Cap.DecodeMsi(config, i).Ok?
    requires var c := Cap.DecodeMsi(config, i).value;
             x.offset + 12 <= i.offset || i.offset + Cap.MsiLength(c.is64, c.masking) <= x.offset
    ensures Separate(MsixMechanism(config, x, bars, mapping).value, MsiMechanism(config, i).value)
  {
    SeparateIff(config, x, i, bars, mapping);
  }

  /** Status with a list; the list starts at 0x40, with MSI there and MSI-X at 0x44, where the MSI address is. */
  function OverlappingWords(): (words: seq<bv16>)
    ensures |words| == 128
  {
    seq(128, i => if i == 3 then 0x10 else if i == 0x1A then 0x40 else if i == 0x20 then 0x4405
                  else if i == 0x22 then 0x11 else 0)
  }

  /** The walk takes a list whose entries overlap, so nothing keeps the MSI-X entry off the MSI address. */
  lemma OverlapIsAccepted(bars: Cap.Bars, mapping: Cap.Mapping)
    requires MappedBars(bars, mapping)
    ensures var offer := Mechanisms(OverlappingWords(), bars, mapping);
            offer.Some? && OnAddress(offer.value.0, offer.value.1)
  {
    OverlappingBytes();
    OverlappingList();
    hide Bytes, OverlappingWords, ListAccepted, Cap.Listed, Cap.EntryAddress;
  }

  lemma OverlappingList()
    ensures var config := Bytes(OverlappingWords());
            ListAccepted(config) && Cap.Listed(config) == [Cap.Capability(0x05, 0x40), Cap.Capability(0x11, 0x44)]
  {
    OverlappingBytes();
    hide Bytes, OverlappingWords, ListAccepted, Cap.Listed;
    TwoLinks(Bytes(OverlappingWords()), 0x40, 0x44);
  }

  /** A list of two entries. */
  lemma TwoLinks(config: seq<Byte>, p: Byte, q: Byte)
    requires |config| >= 0x40 && Cap.HasList(config) && config[0x34] == p
    requires Cap.GoodPointer(config, p) && config[p + 1] == q && Cap.GoodPointer(config, q) && config[q + 1] == 0
    ensures ListAccepted(config) && Cap.Listed(config) == [Cap.Capability(config[p], p), Cap.Capability(config[q], q)]
  {
    assert p + 2 <= |config| && q + 2 <= |config|;
    hide Cap.HasList, Cap.GoodPointer;
    assert Cap.Pointer(config, 0) == Some(p);
    assert Cap.Pointer(config, 1) == Some(q);
    assert Cap.EndsAfter(config, 2);
    assert Cap.Entries(config, 1) == [Cap.Capability(config[p], p)];
    assert Cap.Entries(config, 2) == [Cap.Capability(config[p], p), Cap.Capability(config[q], q)];
    hide Cap.Pointer, Cap.EndsAfter, Cap.Entries;
    var n: nat :| && n <= Cap.MAX_PCI_CAPABILITIES && Cap.EndsAfter(config, n)
                  && Cap.Listed(config) == Cap.Entries(config, n);
    Cap.OneEnd(config, n, 2);
  }

  lemma OverlappingBytes()
    ensures var config := Bytes(OverlappingWords());
            && config[6] == 0x10 && config[7] == 0 && config[0x34] == 0x40 && config[0x40] == 0x05
            && config[0x41] == 0x44 && config[0x42] == config[0x43] == 0 && config[0x44] == 0x11 && config[0x45] == 0
  {
    var config := Bytes(OverlappingWords());
    Literals();
    hide LowByte, HighByte;
    assert config[6] == LowByte(0x10) && config[7] == HighByte(0x10) && config[0x34] == LowByte(0x40);
    assert config[0x40] == LowByte(0x4405) && config[0x41] == HighByte(0x4405);
    assert config[0x42] == LowByte(0) && config[0x43] == HighByte(0);
    assert config[0x44] == LowByte(0x11) && config[0x45] == HighByte(0x11);
  }

  lemma Literals()
    ensures LowByte(0x10) == 0x10 && HighByte(0x10) == 0 && LowByte(0x40) == 0x40 && LowByte(0x4405) == 0x05
    ensures HighByte(0x4405) == 0x44 && LowByte(0) == 0 && HighByte(0) == 0 && LowByte(0x11) == 0x11
    ensures HighByte(0x11) == 0
  {
  }
}
