/** The vector registry, and what programming one mechanism of a device does to the other. */
module MsiArming {
  import opened Common
  import opened InterruptRegisters
  import opened Msi

  const PCI_VECTOR_FIRST := 0x40
  const PCI_VECTOR_LAST := 0x4F
  const PCI_VECTOR_COUNT := 16

  datatype Mode = Msix | MsiMode | Polling

  datatype VectorState = Free | Reserved | Armed | MaskedOff | Failed

  /** The message that raises `vector` on one local APIC; only the device vectors have one. */
  function ApicMessage(vector: Byte, destination: Byte): (m: Option<Message>)
    ensures m.Some? <==> Index(vector).Some?
  {
    if PCI_VECTOR_FIRST <= vector <= PCI_VECTOR_LAST
    then Some(Message(0xFEE0_0000 | (Widen(destination) << 12), Widen(vector))) else None
  }

  function Widen(b: Byte): bv32 { (b as bv8) as bv32 }

  /** The message of the local APIC (section 10.11 of the Intel SDM, volume 3A): 0xFEE on top, the destination in bits
      12 to 19, nothing else in the address; the vector, and nothing else, in the data. */
  lemma ApicMessageExactly(vector: Byte, destination: Byte)
    requires 0x40 <= vector <= 0x4F
    ensures var m := ApicMessage(vector, destination);
            && m.Some? && m.value.address & 0xFFF0_0FFF == 0xFEE0_0000
            && ((m.value.address >> 12) & 0xFF) == Widen(destination) && m.value.data == Widen(vector)
  {
    AddressBits(destination as bv8);
  }

  lemma AddressBits(d: bv8)
    ensures (0xFEE0_0000 | ((d as bv32) << 12)) & 0xFFF0_0FFF == 0xFEE0_0000
    ensures ((0xFEE0_0000 | ((d as bv32) << 12)) >> 12) & 0xFF == d as bv32
  {
  }

  datatype Owner = Owner(address: nat, mode: Mode, destination: Byte, state: VectorState)

  datatype VectorError = InvalidVector | AlreadyOwned | NotOwned | InvalidTransition

  /** The moves a vector's state may make. */
  predicate Legal(from: VectorState, to: VectorState) {
    match (from, to)
    case (Reserved, Armed) => true
    case (Reserved, MaskedOff) => true
    case (Reserved, Failed) => true
    case (Armed, MaskedOff) => true
    case (MaskedOff, Armed) => true
    case (Armed, Failed) => true
    case (MaskedOff, Failed) => true
    case _ => false
  }

  /** A state moves exactly while it is owned and not failed, to another of the owned states that are not a fresh
      reservation. */
  lemma LegalIff(from: VectorState, to: VectorState)
    ensures Legal(from, to) <==> from !in {Free, Failed} && to !in {Free, Reserved} && from != to
  {
  }

  type Owners = o: seq<Option<Owner>> | |o| == PCI_VECTOR_COUNT witness seq(PCI_VECTOR_COUNT, _ => None)

  function Index(vector: Byte): Option<nat> {
    if PCI_VECTOR_FIRST <= vector <= PCI_VECTOR_LAST then Some(vector - PCI_VECTOR_FIRST) else None
  }

  function ReserveStep(owners: Owners, vector: Byte, address: nat, mode: Mode, destination: Byte)
    : (Owners, Option<VectorError>)
  {
    match Index(vector)
    case None => (owners, Some(InvalidVector))
    case Some(i) =>
      if owners[i].Some? then (owners, Some(AlreadyOwned))
      else (owners[i := Some(Owner(address, mode, destination, Reserved))], None)
  }

  function TransitionStep(owners: Owners, vector: Byte, state: VectorState): (Owners, Option<VectorError>) {
    match Index(vector)
    case None => (owners, Some(InvalidVector))
    case Some(i) =>
      if owners[i] == None then (owners, Some(NotOwned))
      else if !Legal(owners[i].value.state, state) then (owners, Some(InvalidTransition))
      else (owners[i := Some(owners[i].value.(state := state))], None)
  }

  function ReleaseStep(owners: Owners, vector: Byte): (Owners, Option<VectorError>) {
    match Index(vector)
    case None => (owners, Some(InvalidVector))
    case Some(i) =>
      if owners[i].Some? && owners[i].value.state == Failed then (owners[i := None], None)
      else (owners, Some(InvalidTransition))
  }

  datatype VectorOp = Reserving(vector: Byte, address: nat, mode: Mode, destination: Byte)
                    | Moving(vector: Byte, state: VectorState)
                    | Releasing(vector: Byte)

  function VectorStep(owners: Owners, op: VectorOp): Owners {
    match op
    case Reserving(v, address, mode, destination) => ReserveStep(owners, v, address, mode, destination).0
    case Moving(v, state) => TransitionStep(owners, v, state).0
    case Releasing(v) => ReleaseStep(owners, v).0
  }

  function VectorRun(owners: Owners, ops: seq<VectorOp>): Owners
    decreases |ops|
  {
    if ops == [] then owners else VectorStep(VectorRun(owners, ops[..|ops| - 1]), ops[|ops| - 1])
  }

  /** In use: armed, or masked for the time being. */
  predicate InUse(o: Option<Owner>) { o.Some? && (o.value.state == Armed || o.value.state == MaskedOff) }

  predicate SameOwner(o: Option<Owner>, o': Option<Owner>) {
    o.Some? && o'.Some? && o'.value.(state := o.value.state) == o.value
  }

  /** Through any run an armed vector stays in use by the same device until someone declares it failed: it is never
      reserved again and never given back. */
  lemma {:induction false} ArmedIsNeverRecycled(owners: Owners, ops: seq<VectorOp>, vector: Byte)
    requires Index(vector).Some? && InUse(owners[Index(vector).value])
    requires Moving(vector, Failed) !in ops
    ensures var i := Index(vector).value;
            InUse(VectorRun(owners, ops)[i]) && SameOwner(owners[i], VectorRun(owners, ops)[i])
    decreases |ops|
  {
    if ops != [] {
      var op := ops[|ops| - 1];
      ArmedIsNeverRecycled(owners, ops[..|ops| - 1], vector);
      assert op.vector == vector ==> op != Moving(vector, Failed);
    }
  }

  class VectorRegistry {
    const owners: array<Option<Owner>>

    ghost predicate Valid()
      reads this
    {
      owners.Length == PCI_VECTOR_COUNT
    }

    constructor ()
      ensures Valid() && fresh(owners) && forall i :: 0 <= i < PCI_VECTOR_COUNT ==> owners[i] == None
    {
      owners := new Option<Owner>[PCI_VECTOR_COUNT](_ => None);
    }

    method Reserve(vector: Byte, address: nat, mode: Mode, destination: Byte) returns (e: Option<VectorError>)
      requires Valid()
      modifies owners
      ensures Valid() && (owners[..], e) == ReserveStep(old(owners[..]), vector, address, mode, destination)
    {
      var index := Index(vector);
      if index == None { return Some(InvalidVector); }
      if owners[index.value].Some? { return Some(AlreadyOwned); }
      owners[index.value] := Some(Owner(address, mode, destination, Reserved));
      e := None;
    }

    method Transition(vector: Byte, state: VectorState) returns (e: Option<VectorError>)
      requires Valid()
      modifies owners
      ensures Valid() && (owners[..], e) == TransitionStep(old(owners[..]), vector, state)
    {
      var index := Index(vector);
      if index == None { return Some(InvalidVector); }
      var owner := owners[index.value];
      if owner == None { return Some(NotOwned); }
      if !Legal(owner.value.state, state) { return Some(InvalidTransition); }
      owners[index.value] := Some(owner.value.(state := state));
      e := None;
    }

    /** Only a failed setup gives its vector back. */
    method ReleaseFailed(vector: Byte) returns (e: Option<VectorError>)
      requires Valid()
      modifies owners
      ensures Valid() && (owners[..], e) == ReleaseStep(old(owners[..]), vector)
    {
      var index := Index(vector);
      if index == None { return Some(InvalidVector); }
      if owners[index.value].Some? && owners[index.value].value.state == Failed {
        owners[index.value] := None;
        return None;
      }
      e := Some(InvalidTransition);
    }
  }

  // ---------------------------------------------------------------------
  // Two mechanisms in one configuration space
  // ---------------------------------------------------------------------

  /** A mechanism of the device: where its entry is, and why it may be unusable (a bad MSI-X table). */
  datatype Mechanism = Mechanism(kind: Kind, refusal: Option<ProgramError>)

  predicate EnabledIn(k: Kind, words: seq<bv16>)
    requires Fits(k, |words|)
  {
    Enabled(LayoutOf(k), Extend(words[k.at + 1]))
  }

  predicate LiveIn(m: Option<Mechanism>, words: seq<bv16>) {
    m.Some? && Fits(m.value.kind, |words|) && EnabledIn(m.value.kind, words)
  }

  /** An error that no programming gives. */
  predicate Unprogrammed(e: ProgramError) { e !in {AlreadyEnabled, ReadbackFailed, RollbackFailed} }

  /** MSI-X and MSI entries as decoded: inside configuration space, aligned, and not the same entry. */
  predicate Offered(msix: Option<Mechanism>, msi: Option<Mechanism>, n: nat) {
    && (msix.Some? ==> && msix.value.kind.MsixEntry? && Fits(msix.value.kind, n) && msix.value.kind.at % 2 == 0
                       && (msix.value.refusal.Some? ==> Unprogrammed(msix.value.refusal.value)))
    && (msi.Some? ==> && msi.value.kind.MsiEntry? && Fits(msi.value.kind, n) && msi.value.kind.at % 2 == 0
                      && msi.value.refusal == None)
    && (msix.Some? && msi.Some? ==> msix.value.kind.at != msi.value.kind.at)
  }

  /** The MSI-X control word is none of the MSI registers' words. */
  predicate Separate(msix: Option<Mechanism>, msi: Option<Mechanism>) {
    msix.Some? && msi.Some? ==> !Owns(msi.value.kind, msix.value.kind.at + 1)
  }

  /** The MSI-X entry starts at the MSI entry's address register. */
  predicate OnAddress(msix: Option<Mechanism>, msi: Option<Mechanism>) {
    msix.Some? && msi.Some? && msix.value.kind.at == msi.value.kind.at + 2
  }

  /** Programming MSI-X leaves the MSI control word alone. */
  lemma MsixSparesMsi(x: Kind, k: Kind, before: seq<bv16>, after: seq<bv16>, e: TableEntry, e': TableEntry)
    requires x.MsixEntry? && k.MsiEntry? && x.at != k.at && Fits(k, |before|) && Framed(x, before, after, e, e')
    ensures EnabledIn(k, after) <==> EnabledIn(k, before)
  {
    hide Enabled, Extend;
  }

  /** The message addresses of the local APICs have their top bit set. */
  predicate ApicAddress(address: bv32) { address & 0x8000_0000 != 0 }

  lemma TopBit(address: bv32)
    ensures ApicAddress(address) <==> Extend(High(address)) & 0x8000 != 0
  {
  }

  lemma MaskHalves(mask: bv32)
    ensures High(WithMask(mask)) == High(mask) && High(WithoutMask(mask)) == High(mask)
  {
  }

  lemma NothingSet()
    ensures High(0) == 0 && Extend(0) & 0x8000 == 0
  {
  }

  /** The word of an MSI entry that the MSI-X control word would be, read off the registers. */
  lemma SharedWord(k: Kind, x: nat, words: seq<bv16>, entry: TableEntry)
    requires k.MsiEntry? && k.at % 2 == 0 && x % 2 == 0 && x != k.at && Fits(k, |words|) && Owns(k, x + 1)
    ensures var s := ViewOf(k, words, entry);
            words[x + 1] == if x == k.at + 2 then High(s.low)
                            else if k.is64 && x == k.at + 4 then High(s.high) else High(s.mask)
  {
    ControlMeetsIff(k, x);
    hide Join, High, Extend;
    Halves(words[k.at + 2], words[k.at + 3]);
    if k.is64 { Halves(words[k.at + 4], words[k.at + 5]); }
    if k.masking { Halves(words[MaskAt(k)], words[MaskAt(k) + 1]); }
  }

  /** After MSI goes live, a disabled MSI-X reads as enabled exactly when its entry starts at the MSI address. */
  lemma MsixAfterLive(k: Kind, x: Kind, before: seq<bv16>, after: seq<bv16>, entry: TableEntry, m: Message)
    requires k.MsiEntry? && x.MsixEntry? && k.at % 2 == 0 && x.at % 2 == 0 && x.at != k.at
    requires Fits(k, |before|) && Fits(x, |before|) && Framed(k, before, after, entry, entry)
    requires ViewOf(k, after, entry) == Live(LayoutOf(k), ViewOf(k, before, entry), m)
    requires ApicAddress(m.address) && !EnabledIn(x, before)
    ensures EnabledIn(x, after) <==> x.at == k.at + 2
  {
    if Owns(k, x.at + 1) {
      SharedWord(k, x.at, before, entry);
      SharedWord(k, x.at, after, entry);
      ControlMeetsIff(k, x.at);
      TopBit(m.address);
      NothingSet();
      MaskHalves(ViewOf(k, before, entry).mask);
      hide High, Extend, WithoutMask, Published, ViewOf, ApicAddress;
    } else {
      ControlMeetsIff(k, x.at);
      hide Extend, ViewOf;
    }
  }

  /** After MSI is rolled back, the MSI-X control word reads as before. */
  lemma MsixAfterQuiet(k: Kind, x: Kind, before: seq<bv16>, after: seq<bv16>, entry: TableEntry)
    requires k.MsiEntry? && x.MsixEntry? && k.at % 2 == 0 && x.at % 2 == 0 && x.at != k.at
    requires Fits(k, |before|) && Fits(x, |before|) && Framed(k, before, after, entry, entry)
    requires ViewOf(k, after, entry) == Quiet(LayoutOf(k), ViewOf(k, before, entry))
    ensures EnabledIn(x, after) <==> EnabledIn(x, before)
  {
    hide High, Extend, WithMask, Disabled, ViewOf, Enabled;
    if Owns(k, x.at + 1) {
      SharedWord(k, x.at, before, entry);
      SharedWord(k, x.at, after, entry);
      ControlMeetsIff(k, x.at);
      MaskHalves(ViewOf(k, before, entry).mask);
    }
    assert after[x.at + 1] == before[x.at + 1];
  }
}
