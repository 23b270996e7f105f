/** Publishing one MSI or MSI-X message to a device whose writes may be dropped or corrupted. */
module Msi {
  import opened Common
  import opened InterruptRegisters

  // ---------------------------------------------------------------------
  // Control bits (section 6.8 of the PCI Local Bus Specification 3.0)
  // ---------------------------------------------------------------------

  datatype Message = Message(address: bv32, data: bv32)

  function EnableBit(l: Layout): bv32 { if l.msix then 0x8000 else 1 }

  predicate Enabled(l: Layout, control: bv32) { control & EnableBit(l) != 0 }

  /** MSI-X: function masked, disabled. MSI: disabled, one vector; the capability bits stay. */
  function Disabled(l: Layout, control: bv32): bv32 {
    if l.msix then (control | 0x4000) & !0x8000 else control & !0x71
  }

  function EnabledControl(l: Layout, control: bv32): bv32 {
    Disabled(l, control) | EnableBit(l)
  }

  /** Clear the MSI-X function mask. */
  function Unmasked(control: bv32): bv32 { control & !0x4000 }

  /** The control value a successful publication ends with. */
  function Published(l: Layout, control: bv32): bv32 {
    if l.msix then Unmasked(EnabledControl(l, control)) else EnabledControl(l, control)
  }

  // The vector's own mask bit.
  function WithMask(mask: bv32): bv32 { mask | 1 }
  function WithoutMask(mask: bv32): bv32 { mask & !1 }
  predicate Masked(mask: bv32) { mask & 1 == 1 }

  /** Bits of the control register that the transaction has no business with. */
  function Unrelated(l: Layout): bv32 { if l.msix then !0xC000 else !0x71 }

  /** Publication sets the enable bit, clears the mask or message-count field, and keeps every other bit. */
  lemma PublishedBits(l: Layout, control: bv32)
    ensures Enabled(l, Published(l, control))
    ensures Published(l, control) & Unrelated(l) == control & Unrelated(l)
    ensures Published(l, control) & (if l.msix then 0x4000 else 0x70) == 0
  {
    if l.msix { MsixBits(control); } else { MsiBits(control); }
  }

  lemma MsixBits(c: bv32)
    ensures (((c | 0x4000) & !0x8000) | 0x8000) & !0x4000 & 0x8000 != 0
    ensures (((c | 0x4000) & !0x8000) | 0x8000) & !0x4000 & !0xC000 == c & !0xC000
    ensures (((c | 0x4000) & !0x8000) | 0x8000) & !0x4000 & 0x4000 == 0
  {
  }

  lemma MsiBits(c: bv32)
    ensures ((c & !0x71) | 1) & 1 != 0
    ensures ((c & !0x71) | 1) & !0x71 == c & !0x71
    ensures ((c & !0x71) | 1) & 0x70 == 0
  {
  }

  lemma DisabledBits(l: Layout, control: bv32)
    ensures !Enabled(l, Disabled(l, control))
  {
    if l.msix { assert (control | 0x4000) & !0x8000 & 0x8000 == 0; } else { assert control & !0x71 & 1 == 0; }
  }

  lemma DisabledKeepsBits(l: Layout, control: bv32)
    ensures Disabled(l, control) & Unrelated(l) == control & Unrelated(l)
  {
    if l.msix { MsixQuietBits(control); } else { MsiQuietBits(control); }
  }

  lemma MsixQuietBits(c: bv32)
    ensures (c | 0x4000) & !0x8000 & !0xC000 == c & !0xC000
  {
  }

  lemma MsiQuietBits(c: bv32)
    ensures c & !0x71 & !0x71 == c & !0x71
  {
  }

  /** The control values sent fit their 16 bits. */
  lemma ControlFits(l: Layout, c: bv32)
    requires Fits16(c)
    ensures Fits16(Disabled(l, c)) && Fits16(EnabledControl(l, c)) && Fits16(Unmasked(EnabledControl(l, c)))
  {
    if l.msix { MsixFits(c); } else { MsiFits(c); }
  }

  lemma MsixFits(c: bv32)
    requires c & 0xFFFF_0000 == 0
    ensures (c | 0x4000) & !0x8000 & 0xFFFF_0000 == 0
    ensures (((c | 0x4000) & !0x8000) | 0x8000) & 0xFFFF_0000 == 0
    ensures (((c | 0x4000) & !0x8000) | 0x8000) & !0x4000 & 0xFFFF_0000 == 0
  {
  }

  lemma MsiFits(c: bv32)
    requires c & 0xFFFF_0000 == 0
    ensures c & !0x71 & 0xFFFF_0000 == 0
    ensures ((c & !0x71) | 1) & 0xFFFF_0000 == 0
    ensures ((c & !0x71) | 1) & !0x4000 & 0xFFFF_0000 == 0
  {
  }

  /** Narrow registers read as 16 bits. */
  lemma NarrowFits(io: InterruptIo)
    requires io.Valid()
    ensures Fits16(io.regs.control) && (io.kind.MsiEntry? ==> Fits16(io.regs.data))
  {
    ExtendFits(io.space.words[io.kind.at + 1]);
    if io.kind.MsiEntry? { ExtendFits(io.space.words[DataAt(io.kind)]); }
    hide Fits16, Extend, Join;
  }

  /** What the device must hold once the message is live. */
  function Live(l: Layout, s: Regs, m: Message): Regs {
    Regs(Published(l, s.control), m.address, if l.addressHigh then 0 else s.high, m.data,
         if l.masking then WithoutMask(s.mask) else s.mask)
  }

  /** Disabled and masked, everything else as it was. */
  function Quiet(l: Layout, s: Regs): Regs {
    s.(control := Disabled(l, s.control), mask := if l.masking then WithMask(s.mask) else s.mask)
  }

  predicate IsPayload(r: Register) { r == AddressLow || r == AddressHigh || r == Data }

  /** Address and data are written only while the capability is disabled and the vector masked. */
  predicate PayloadIsGuarded(l: Layout, events: seq<Event>) {
    forall e :: e in events && IsPayload(e.register) ==>
      !Enabled(l, e.before.control) && (l.masking ==> Masked(e.before.mask))
  }

  /** So far every write was proper: payload only when guarded, and no value too wide. */
  ghost predicate Proper(io: InterruptIo, l: Layout)
    reads io
  {
    PayloadIsGuarded(l, io.log) && Untruncated(io.kind, io.log)
  }

  lemma MaskBit(m: bv32)
    ensures Masked(WithMask(m))
  {
  }

  // ---------------------------------------------------------------------
  // The transaction
  // ---------------------------------------------------------------------

  datatype ProgramError = AlreadyEnabled | ReadbackFailed | RollbackFailed
                        | InvalidCapability | InvalidBar | TableOutsideBar

  type ProgramResult<+T> = Result<T, ProgramError>

  /** The registers a layout does not have are left alone. */
  predicate SameAbsent(l: Layout, a: Regs, b: Regs) {
    (!l.addressHigh ==> a.high == b.high) && (!l.masking ==> a.mask == b.mask)
  }

  /** One checked write that keeps the log proper. */
  method Send(io: InterruptIo, l: Layout, r: Register, v: bv32) returns (ok: bool)
    requires io.Valid() && l == LayoutOf(io.kind) && Has(l, r) && Proper(io, l)
    requires IsPayload(r) ==> !Enabled(l, io.regs.control) && (l.masking ==> Masked(io.regs.mask))
    requires Narrow(io.kind, r) ==> Fits16(v)
    modifies io, io.space, io.table
    ensures io.Valid() && Proper(io, l) && SameAbsent(l, io.regs, old(io.regs))
    ensures ok ==> io.regs == Set(old(io.regs), r, v)
    ensures IsPayload(r) ==> io.regs.control == old(io.regs.control) && io.regs.mask == old(io.regs.mask)
    ensures Faults(io.log) == Faults(old(io.log)) + if ok then 0 else 1
  {
    hide Faults, Enabled, Masked, Fits16, InterruptIo.Valid;
    ok := io.CheckedWrite(r, v);
  }

  /** Disable, then mask; both verified. */
  method Silence(io: InterruptIo, l: Layout, control: bv32, mask: bv32) returns (ok: bool)
    requires Fits16(control)
    requires io.Valid() && l == LayoutOf(io.kind) && Proper(io, l)
    modifies io, io.space, io.table
    ensures io.Valid() && Proper(io, l) && SameAbsent(l, io.regs, old(io.regs))
    ensures Faults(io.log) == Faults(old(io.log)) + if ok then 0 else 1
    ensures ok ==> io.regs == old(io.regs).(control := Disabled(l, control),
                                            mask := if l.masking then WithMask(mask) else io.regs.mask)
  {
    ControlFits(l, control);
    hide Faults, Disabled, WithMask, InterruptIo.Valid, Fits16, Proper;
    ok := Send(io, l, Control, Disabled(l, control));
    if !ok { return; }
    if l.masking { ok := Send(io, l, Mask, WithMask(mask)); }
  }

  /** Write address and data, stopping at the first write that is not kept. */
  method WritePayload(io: InterruptIo, l: Layout, m: Message) returns (ok: bool)
    requires Fits16(m.data)
    requires io.Valid() && l == LayoutOf(io.kind) && Proper(io, l)
    requires !Enabled(l, io.regs.control) && (l.masking ==> Masked(io.regs.mask))
    modifies io, io.space, io.table
    ensures io.Valid() && Proper(io, l) && SameAbsent(l, io.regs, old(io.regs))
    ensures Faults(io.log) == Faults(old(io.log)) + if ok then 0 else 1
    ensures ok ==> io.regs == old(io.regs).(low := m.address, data := m.data,
                                            high := if l.addressHigh then 0 else io.regs.high)
  {
    hide Faults, Enabled, Masked, InterruptIo.Valid, Fits16, Proper;
    ok := Send(io, l, AddressLow, m.address);
    if !ok { return; }
    if l.addressHigh {
      ok := Send(io, l, AddressHigh, 0);
      if !ok { return; }
    }
    ok := Send(io, l, Data, m.data);
  }

  /** Write the old address and data back, all of them whatever the readbacks say. */
  method RestorePayload(io: InterruptIo, l: Layout, low: bv32, high: bv32, data: bv32) returns (restored: bool)
    requires io.kind.MsiEntry? ==> Fits16(data)
    requires io.Valid() && l == LayoutOf(io.kind) && Proper(io, l)
    requires !Enabled(l, io.regs.control) && (l.masking ==> Masked(io.regs.mask))
    modifies io, io.space, io.table
    ensures io.Valid() && Proper(io, l) && SameAbsent(l, io.regs, old(io.regs))
    ensures restored <==> Faults(io.log) == Faults(old(io.log))
    ensures Faults(io.log) >= Faults(old(io.log))
    ensures restored ==> io.regs == old(io.regs).(low := low, data := data,
                                                  high := if l.addressHigh then high else io.regs.high)
  {
    hide Faults, Enabled, Masked, InterruptIo.Valid, Fits16, Proper;
    restored := Send(io, l, AddressLow, low);
    if l.addressHigh {
      var ok := Send(io, l, AddressHigh, high);
      restored := restored && ok;
    }
    var ok := Send(io, l, Data, data);
    restored := restored && ok;
  }

  /** Enable, unmask, and for MSI-X lift the function mask. */
  method GoLive(io: InterruptIo, l: Layout, control: bv32, mask: bv32) returns (ok: bool)
    requires Fits16(control)
    requires io.Valid() && l == LayoutOf(io.kind) && Proper(io, l)
    modifies io, io.space, io.table
    ensures io.Valid() && Proper(io, l) && SameAbsent(l, io.regs, old(io.regs))
    ensures Faults(io.log) == Faults(old(io.log)) + if ok then 0 else 1
    ensures ok ==> io.regs == old(io.regs).(control := Published(l, control),
                                            mask := if l.masking then WithoutMask(mask) else io.regs.mask)
  {
    ControlFits(l, control);
    hide Faults, EnabledControl, WithoutMask, Unmasked, Enabled, Masked, InterruptIo.Valid, Fits16, Proper;
    ok := Send(io, l, Control, EnabledControl(l, control));
    if !ok { return; }
    if l.masking {
      ok := Send(io, l, Mask, WithoutMask(mask));
      if !ok { return; }
    }
    if l.msix { ok := Send(io, l, Control, Unmasked(EnabledControl(l, control))); }
  }

  /** The publication proper: true exactly when every write was kept, and at most one was not. */
  method Publish(io: InterruptIo, l: Layout, m: Message, control: bv32, mask: bv32) returns (ok: bool)
    requires io.Valid() && l == LayoutOf(io.kind) && io.log == [] && Fits16(control) && Fits16(m.data)
    modifies io, io.space, io.table
    ensures io.Valid() && Proper(io, l) && SameAbsent(l, io.regs, old(io.regs))
    ensures Faults(io.log) == if ok then 0 else 1
    ensures ok ==> io.regs == Regs(Published(l, control), m.address,
                                   if l.addressHigh then 0 else old(io.regs.high), m.data,
                                   if l.masking then WithoutMask(mask) else old(io.regs.mask))
  {
    assert Faults(io.log) == 0 && Proper(io, l);
    DisabledBits(l, control);
    MaskBit(mask);
    hide Faults, Enabled, Disabled, Published, WithMask, WithoutMask, Masked, InterruptIo.Valid, Fits16, Proper;
    ok := Silence(io, l, control, mask);
    if ok { ok := WritePayload(io, l, m); }
    if ok { ok := GoLive(io, l, control, mask); }
  }

  /** The way back: disable and mask before any payload is restored; true exactly when every write was kept. */
  method RollBack(io: InterruptIo, l: Layout, control: bv32, mask: bv32, low: bv32, high: bv32, data: bv32)
    returns (ok: bool)
    requires io.Valid() && l == LayoutOf(io.kind) && Proper(io, l)
    requires Fits16(control) && (io.kind.MsiEntry? ==> Fits16(data))
    modifies io, io.space, io.table
    ensures io.Valid() && Proper(io, l) && SameAbsent(l, io.regs, old(io.regs))
    ensures Faults(io.log) >= Faults(old(io.log)) && (ok <==> Faults(io.log) == Faults(old(io.log)))
    ensures ok ==> io.regs == Regs(Disabled(l, control), low, if l.addressHigh then high else old(io.regs.high), data,
                                   if l.masking then WithMask(mask) else old(io.regs.mask))
  {
    DisabledBits(l, control);
    MaskBit(mask);
    hide Faults, Enabled, Disabled, WithMask, Masked, InterruptIo.Valid, Fits16, Proper;
    ok := Silence(io, l, control, mask);
    if ok { ok := RestorePayload(io, l, low, high, data); }
  }

  /** The registers as they are read, those the layout lacks as zero. */
  function Shown(l: Layout, s: Regs): Regs {
    s.(high := if l.addressHigh then s.high else 0, mask := if l.masking then s.mask else 0)
  }

  method ReadRest(io: InterruptIo, l: Layout, control: bv32) returns (s: Regs)
    requires io.Valid() && l == LayoutOf(io.kind) && control == io.regs.control
    ensures s == Shown(l, io.regs)
  {
    hide InterruptIo.Valid;
    var low := io.Read(AddressLow);
    var high, mask := 0, 0;
    if l.addressHigh { high := io.Read(AddressHigh); }
    var data := io.Read(Data);
    if l.masking { mask := io.Read(Mask); }
    s := Regs(control, low, high, data, mask);
  }

  /** `program`: publish or roll back. `Ok` means live and every write kept; `ReadbackFailed` means
      quiet with the old payload; and it takes two bad writes to get `RollbackFailed`. */
  method Program(io: InterruptIo, l: Layout, m: Message) returns (r: ProgramResult<()>)
    requires io.Valid() && l == LayoutOf(io.kind) && io.log == [] && Fits16(m.data)
    modifies io, io.space, io.table
    ensures io.Valid() && Proper(io, l) && SameAbsent(l, io.regs, old(io.regs))
    ensures r == Err(AlreadyEnabled) <==> Enabled(l, old(io.regs.control))
    ensures r == Err(AlreadyEnabled) ==> io.regs == old(io.regs) && io.log == []
    ensures r.Ok? <==> !Enabled(l, old(io.regs.control)) && Faults(io.log) == 0
    ensures r.Ok? ==> io.regs == Live(l, old(io.regs), m)
    ensures r == Err(ReadbackFailed) ==> io.regs == Quiet(l, old(io.regs)) && Faults(io.log) == 1
    ensures r == Err(RollbackFailed) ==> Faults(io.log) >= 2
    ensures r.Err? ==> r.error in {AlreadyEnabled, ReadbackFailed, RollbackFailed}
  {
    NarrowFits(io);
    assert Proper(io, l) && Faults(io.log) == 0;
    hide InterruptIo.Valid, Fits16, Proper, Faults, Enabled, Live, Quiet;
    var control := io.Read(Control);
    if Enabled(l, control) { return Err(AlreadyEnabled); }
    var before := ReadRest(io, l, control);
    r := PublishOrRollBack(io, l, m, before);
  }

  method PublishOrRollBack(io: InterruptIo, l: Layout, m: Message, before: Regs) returns (r: ProgramResult<()>)
    requires io.Valid() && l == LayoutOf(io.kind) && io.log == [] && Fits16(m.data)
    requires before == Shown(l, io.regs)
    requires Fits16(before.control) && (io.kind.MsiEntry? ==> Fits16(before.data))
    modifies io, io.space, io.table
    ensures io.Valid() && Proper(io, l) && SameAbsent(l, io.regs, old(io.regs))
    ensures r.Ok? <==> Faults(io.log) == 0
    ensures r.Ok? ==> io.regs == Live(l, old(io.regs), m)
    ensures r == Err(ReadbackFailed) ==> io.regs == Quiet(l, old(io.regs)) && Faults(io.log) == 1
    ensures r == Err(RollbackFailed) ==> Faults(io.log) >= 2
    ensures r.Err? ==> r.error in {ReadbackFailed, RollbackFailed}
  {
    hide Faults, Enabled, Disabled, Published, WithMask, WithoutMask, Masked, InterruptIo.Valid, Fits16, Proper;
    var ok := Publish(io, l, m, before.control, before.mask);
    if ok { return Ok(()); }
    ok := RollBack(io, l, before.control, before.mask, before.low, before.high, before.data);
    r := Err(if ok then ReadbackFailed else RollbackFailed);
  }
}
