/** The PCI topology walk: a worklist of buses, and what it records of each. */
module PciTopology {
  import opened Common

  const MAX_PCI_DEVICES := 256

  type Dword = n: nat | n < U32

  /** Configuration space: the dword at (bus, device, function, offset). It is read, never changed, by the walk. */
  type Config = (nat, nat, nat, nat) -> Dword

  /** The part of a recorded function that the walk itself looks at. */
  datatype Device = Device(bus: nat, device: nat, fn: nat, vendorId: nat, deviceId: nat, classCode: nat,
                           subclass: nat, headerType: nat, multifunction: bool, secondary: Option<nat>)

  /** `read_device`: nothing when the vendor id reads as all ones. */
  function ReadDevice(cfg: Config, b: nat, d: nat, f: nat): (r: Option<Device>)
    ensures r.Some? ==> r.value.bus == b && r.value.device == d && r.value.fn == f
                        && (r.value.secondary.Some? ==> 1 <= r.value.secondary.value < 256)
  {
    var identity := cfg(b, d, f, 0x00);
    if identity % U16 == 0xFFFF then None
    else
      var revision, header := cfg(b, d, f, 0x08), cfg(b, d, f, 0x0C);
      var rawType := header / U16 % 256;
      var second := cfg(b, d, f, 0x18) / 256 % 256;
      Some(Device(b, d, f, identity % U16, identity / U16, revision / 0x100_0000, revision / U16 % 256, rawType % 128,
                  rawType >= 128, if rawType % 128 == 1 && second != 0 then Some(second) else None))
  }

  predicate IsBridge(dev: Device) { dev.classCode == 6 && dev.subclass == 4 }

  /** A function of a multifunction host bridge may stand for a root bus of its own. */
  predicate IsExtraRoot(dev: Device) {
    dev.bus == 0 && dev.device == 0 && dev.fn != 0 && dev.classCode == 6 && dev.subclass == 0
  }

  // ---------------------------------------------------------------------
  // What there is: functions present, and buses reachable
  // ---------------------------------------------------------------------

  /** The byte at an offset of a function's configuration space; dwords are little-endian. */
  function ByteAt(cfg: Config, b: nat, d: nat, f: nat, offset: nat): (v: nat)
    ensures v < 256
  {
    var dword := cfg(b, d, f, offset - offset % 4);
    if offset % 4 == 0 then dword % 256
    else if offset % 4 == 1 then dword / 256 % 256
    else if offset % 4 == 2 then dword / U16 % 256
    else dword / 0x100_0000
  }

  // The header (section 6.1 of the PCI Local Bus Specification 3.0, and section 3.2 of the PCI-to-PCI Bridge
  // Architecture Specification 1.2): vendor at 0x00, device at 0x02, subclass at 0x0A, class at 0x0B, type at 0x0E,
  // secondary bus at 0x19.

  /** Something answers: the vendor bytes are not both ones. */
  predicate Answers(cfg: Config, b: nat, d: nat, f: nat) {
    !(ByteAt(cfg, b, d, f, 0x00) == 0xFF && ByteAt(cfg, b, d, f, 0x01) == 0xFF)
  }

  predicate Multifunction(cfg: Config, b: nat, d: nat, f: nat) { ByteAt(cfg, b, d, f, 0x0E) >= 128 }

  predicate HasClass(cfg: Config, b: nat, d: nat, f: nat, classCode: nat, subclass: nat) {
    ByteAt(cfg, b, d, f, 0x0B) == classCode && ByteAt(cfg, b, d, f, 0x0A) == subclass
  }

  /** A device answers on function zero; its other functions count only if it says it has several. */
  predicate Present(cfg: Config, b: nat, d: nat, f: nat) {
    d < 32 && f < 8 && Answers(cfg, b, d, 0) && (f == 0 || (Multifunction(cfg, b, d, 0) && Answers(cfg, b, d, f)))
  }

  /** A PCI-to-PCI bridge leads to its secondary bus; a further function of the host bridge to the root bus of its
      own number. */
  predicate LeadsTo(cfg: Config, b: nat, d: nat, f: nat, to: nat) {
    || (HasClass(cfg, b, d, f, 6, 4) && ByteAt(cfg, b, d, f, 0x0E) % 128 == 1 && ByteAt(cfg, b, d, f, 0x19) == to > 0)
    || (HasClass(cfg, b, d, f, 6, 0) && b == d == 0 && f == to > 0)
  }

  ghost predicate Edge(cfg: Config, from: nat, to: nat) {
    exists d: nat, f: nat :: Present(cfg, from, d, f) && LeadsTo(cfg, from, d, f, to)
  }

  ghost predicate Route(cfg: Config, buses: seq<nat>) {
    && buses != [] && buses[0] == 0
    && forall i :: 0 <= i < |buses| - 1 ==> Edge(cfg, buses[i], buses[i + 1])
  }

  /** Reachable from bus zero through bridges and extra root buses. */
  ghost predicate Reachable(cfg: Config, b: nat) {
    exists buses: seq<nat> :: Route(cfg, buses) && buses[|buses| - 1] == b
  }

  // ---------------------------------------------------------------------
  // The walk on values
  // ---------------------------------------------------------------------

  /** What the scan of a slot looks at. */
  predicate Found(cfg: Config, b: nat, d: nat, f: nat) {
    && d < 32 && f < 8
    && ReadDevice(cfg, b, d, 0).Some?
    && (f == 0 || (ReadDevice(cfg, b, d, 0).value.multifunction && ReadDevice(cfg, b, d, f).Some?))
  }

  /** Function `dev` leads on to bus `to`. */
  predicate Leads(dev: Device, to: nat) {
    (IsBridge(dev) && dev.secondary == Some(to)) || (IsExtraRoot(dev) && dev.fn == to)
  }

  /** The functions found below `n` of device `d`, in order. */
  function Functions(cfg: Config, b: nat, d: nat, n: nat): seq<Device>
    requires n <= 8 && d < 32
  {
    if n == 0 then []
    else if Found(cfg, b, d, n - 1) then Functions(cfg, b, d, n - 1) + [ReadDevice(cfg, b, d, n - 1).value]
    else Functions(cfg, b, d, n - 1)
  }

  function Devices(cfg: Config, b: nat, n: nat): seq<Device>
    requires n <= 32
  {
    if n == 0 then [] else Devices(cfg, b, n - 1) + Functions(cfg, b, n - 1, 8)
  }

  /** `enqueue_bus`, on the list of buses queued so far. */
  function Add(work: seq<nat>, b: nat): seq<nat> {
    if b in work then work else work + [b]
  }

  function Visit(work: seq<nat>, dev: Device): seq<nat> {
    var bridged := if IsBridge(dev) && dev.secondary.Some? then Add(work, dev.secondary.value) else work;
    if IsExtraRoot(dev) then Add(bridged, dev.fn) else bridged
  }

  function VisitAll(work: seq<nat>, devs: seq<Device>): seq<nat> {
    if devs == [] then work else Visit(VisitAll(work, devs[..|devs| - 1]), devs[|devs| - 1])
  }

  /** A worklist: distinct 8-bit bus numbers, starting with bus zero. */
  ghost predicate Worklist(work: seq<nat>) {
    work != [] && work[0] == 0 && Distinct(work) && forall b :: b in work ==> b < 256
  }

  lemma WorklistFits(work: seq<nat>)
    requires Worklist(work)
    ensures |work| <= 256
  {
    DistinctFits(work, Range(0, 256));
  }

  /** The bus numbers in scan order, given that the first `cursor` are scanned. */
  ghost function Scanned(cfg: Config, work: seq<nat>, cursor: nat): (order: seq<nat>)
    requires Worklist(work) && cursor <= |work|
    decreases 256 - cursor
  {
    WorklistFits(work);
    if cursor == |work| then work
    else
      VisitAllKeeps(work, Devices(cfg, work[cursor], 32));
      DevicesHaveByteTargets(cfg, work[cursor], 32);
      Scanned(cfg, VisitAll(work, Devices(cfg, work[cursor], 32)), cursor + 1)
  }

  ghost function Order(cfg: Config): seq<nat> {
    Scanned(cfg, [0], 0)
  }

  /** Every function of the buses in this order. */
  function Inventory(cfg: Config, buses: seq<nat>): seq<Device> {
    if buses == [] then [] else Inventory(cfg, buses[..|buses| - 1]) + Devices(cfg, buses[|buses| - 1], 32)
  }

  predicate ByteTargets(devs: seq<Device>) {
    forall dev :: dev in devs ==>
      dev.fn < 8 && (dev.secondary.Some? ==> dev.secondary.value < 256)
  }

  lemma {:induction false} DevicesHaveByteTargets(cfg: Config, b: nat, n: nat)
    requires n <= 32
    ensures ByteTargets(Devices(cfg, b, n))
  {
    if n > 0 {
      DevicesHaveByteTargets(cfg, b, n - 1);
      FunctionsHaveByteTargets(cfg, b, n - 1, 8);
    }
  }

  lemma {:induction false} FunctionsHaveByteTargets(cfg: Config, b: nat, d: nat, n: nat)
    requires n <= 8 && d < 32
    ensures ByteTargets(Functions(cfg, b, d, n))
  {
    if n > 0 { FunctionsHaveByteTargets(cfg, b, d, n - 1); }
  }

  lemma AddKeeps(work: seq<nat>, b: nat)
    requires Worklist(work) && b < 256
    ensures Worklist(Add(work, b)) && work <= Add(work, b)
  {
  }

  /** Visiting devices extends the worklist by exactly the buses they lead to. */
  lemma {:induction false} VisitAllKeeps(work: seq<nat>, devs: seq<Device>)
    requires Worklist(work)
    ensures ByteTargets(devs) ==> Worklist(VisitAll(work, devs))
    ensures work <= VisitAll(work, devs)
    ensures forall b :: b in VisitAll(work, devs) <==> b in work || exists dev :: dev in devs && Leads(dev, b)
  {
    if devs != [] {
      var front, dev := devs[..|devs| - 1], devs[|devs| - 1];
      assert devs == front + [dev];
      VisitAllKeeps(work, front);
      assert ByteTargets(devs) ==> ByteTargets(front) && dev in devs;
      forall b ensures b in VisitAll(work, devs) <==> b in work || exists x :: x in devs && Leads(x, b) {
        assert b in VisitAll(work, devs) <==> b in VisitAll(work, front) || Leads(dev, b);
      }
    }
  }

  // ---------------------------------------------------------------------
  // The walk scans exactly the reachable buses
  // ---------------------------------------------------------------------

  /** Every field of `dev` is what the header bytes at its address say. */
  predicate Describes(cfg: Config, dev: Device) {
    var (b, d, f) := (dev.bus, dev.device, dev.fn);
    && dev.vendorId == ByteAt(cfg, b, d, f, 0x00) + 256 * ByteAt(cfg, b, d, f, 0x01)
    && dev.deviceId == ByteAt(cfg, b, d, f, 0x02) + 256 * ByteAt(cfg, b, d, f, 0x03)
    && HasClass(cfg, b, d, f, dev.classCode, dev.subclass)
    && dev.headerType + (if dev.multifunction then 128 else 0) == ByteAt(cfg, b, d, f, 0x0E) && dev.headerType < 128
    && dev.secondary == (if dev.headerType == 1 && ByteAt(cfg, b, d, f, 0x19) > 0
                         then Some(ByteAt(cfg, b, d, f, 0x19)) else None)
  }

  /** `dev` is present on bus `b` and described by its header. */
  predicate Shown(cfg: Config, b: nat, dev: Device) {
    dev.bus == b && Present(cfg, b, dev.device, dev.fn) && Describes(cfg, dev)
  }

  /** Reading a function gives exactly the device its header bytes describe, or nothing when nothing answers. */
  lemma ReadDeviceIff(cfg: Config, b: nat, d: nat, f: nat, dev: Device)
    ensures ReadDevice(cfg, b, d, f) == None <==> !Answers(cfg, b, d, f)
    ensures ReadDevice(cfg, b, d, f) == Some(dev)
       <==> Answers(cfg, b, d, f) && dev.bus == b && dev.device == d && dev.fn == f && Describes(cfg, dev)
  {
    HalfIsBytes(cfg(b, d, f, 0));
    Halves(cfg(b, d, f, 0));
    HeaderType(ByteAt(cfg, b, d, f, 0x0E), dev.headerType, dev.multifunction);
  }

  lemma HalfIsBytes(dword: Dword)
    ensures dword % U16 == dword % 256 + 256 * (dword / 256 % 256)
    ensures dword / U16 == dword / U16 % 256 + 256 * (dword / 0x100_0000)
  {
  }

  lemma Halves(dword: Dword)
    ensures dword % U16 == 0xFFFF <==> dword % 256 == 0xFF && dword / 256 % 256 == 0xFF
  {
  }

  lemma HeaderType(raw: nat, headerType: nat, multifunction: bool)
    requires raw < 256
    ensures headerType == raw % 128 && multifunction == (raw >= 128)
       <==> headerType + (if multifunction then 128 else 0) == raw && headerType < 128
  {
  }

  lemma FoundIffPresent(cfg: Config, b: nat, d: nat, f: nat)
    ensures Found(cfg, b, d, f) <==> Present(cfg, b, d, f)
    ensures Found(cfg, b, d, f) ==> ReadDevice(cfg, b, d, f).Some?
  {
    forall g: nat, dev: Device
      ensures ReadDevice(cfg, b, d, g) == None <==> !Answers(cfg, b, d, g)
      ensures ReadDevice(cfg, b, d, g) == Some(dev) ==> dev.fn == g && dev.bus == b && dev.device == d
                                                        && Describes(cfg, dev)
    {
      ReadDeviceIff(cfg, b, d, g, dev);
    }
    hide ReadDevice, ByteAt, Answers;
  }

  lemma ShownIsFound(cfg: Config, b: nat, dev: Device)
    ensures Shown(cfg, b, dev) <==> dev.bus == b && Found(cfg, b, dev.device, dev.fn)
                                    && ReadDevice(cfg, b, dev.device, dev.fn) == Some(dev)
  {
    FoundIffPresent(cfg, b, dev.device, dev.fn);
    ReadDeviceIff(cfg, b, dev.device, dev.fn, dev);
    hide ReadDevice, ByteAt, Describes, Multifunction;
  }

  /** What the walk does with a device is what its header says. */
  lemma LeadsAsHeaderSays(cfg: Config, dev: Device, to: nat)
    requires Describes(cfg, dev)
    ensures Leads(dev, to) <==> LeadsTo(cfg, dev.bus, dev.device, dev.fn, to)
  {
    hide ByteAt;
  }

  lemma {:induction false} FunctionsMembers(cfg: Config, b: nat, d: nat, n: nat, dev: Device)
    requires n <= 8 && d < 32
    ensures dev in Functions(cfg, b, d, n) <==> Shown(cfg, b, dev) && dev.device == d && dev.fn < n
  {
    if n > 0 {
      FunctionsMembers(cfg, b, d, n - 1, dev);
      ShownIsFound(cfg, b, dev);
      FoundIffPresent(cfg, b, d, n - 1);
      hide ReadDevice, Shown, Present;
    }
  }

  lemma {:induction false} DevicesMembers(cfg: Config, b: nat, n: nat, dev: Device)
    requires n <= 32
    ensures dev in Devices(cfg, b, n) <==> Shown(cfg, b, dev) && dev.device < n
  {
    if n > 0 {
      DevicesMembers(cfg, b, n - 1, dev);
      FunctionsMembers(cfg, b, n - 1, 8, dev);
    }
  }

  lemma EdgeIsDevice(cfg: Config, b: nat, to: nat)
    ensures Edge(cfg, b, to) <==> exists dev :: dev in Devices(cfg, b, 32) && Leads(dev, to)
  {
    hide ReadDevice, Describes, Leads, LeadsTo, Devices, Present;
    if Edge(cfg, b, to) {
      var d: nat, f: nat :| Present(cfg, b, d, f) && LeadsTo(cfg, b, d, f, to);
      FoundIffPresent(cfg, b, d, f);
      var dev := ReadDevice(cfg, b, d, f).value;
      ReadDeviceIff(cfg, b, d, f, dev);
      DevicesMembers(cfg, b, 32, dev);
      assert d < 32 by { PresentSlot(cfg, b, d, f); }
      LeadsAsHeaderSays(cfg, dev, to);
    }
    if exists dev :: dev in Devices(cfg, b, 32) && Leads(dev, to) {
      var dev :| dev in Devices(cfg, b, 32) && Leads(dev, to);
      DevicesMembers(cfg, b, 32, dev);
      LeadsAsHeaderSays(cfg, dev, to);
    }
  }

  lemma PresentSlot(cfg: Config, b: nat, d: nat, f: nat)
    requires Present(cfg, b, d, f)
    ensures d < 32 && f < 8
  {
  }

  ghost predicate AllReachable(cfg: Config, work: seq<nat>) {
    forall b :: b in work ==> Reachable(cfg, b)
  }

  /** Where the first `n` buses of the list lead is on the list. */
  ghost predicate ClosedUpTo(cfg: Config, work: seq<nat>, n: nat)
    requires n <= |work|
  {
    forall i, to :: 0 <= i < n && Edge(cfg, work[i], to) ==> to in work
  }

  lemma ReachableStep(cfg: Config, from: nat, to: nat)
    requires Reachable(cfg, from) && Edge(cfg, from, to)
    ensures Reachable(cfg, to)
  {
    var buses :| Route(cfg, buses) && buses[|buses| - 1] == from;
    assert Route(cfg, buses + [to]);
  }

  lemma ScanStep(cfg: Config, work: seq<nat>, cursor: nat)
    requires Worklist(work) && cursor < |work| && AllReachable(cfg, work) && ClosedUpTo(cfg, work, cursor)
    ensures var work' := VisitAll(work, Devices(cfg, work[cursor], 32));
            Worklist(work') && work <= work' && AllReachable(cfg, work') && ClosedUpTo(cfg, work', cursor + 1)
  {
    var b := work[cursor];
    var devs := Devices(cfg, b, 32);
    var work' := VisitAll(work, devs);
    DevicesHaveByteTargets(cfg, b, 32);
    VisitAllKeeps(work, devs);
    forall to ensures to in work' <==> to in work || Edge(cfg, b, to) { EdgeIsDevice(cfg, b, to); }
    hide Edge, VisitAll, Devices, Reachable;
    forall to | to in work' ensures Reachable(cfg, to) {
      if to !in work { ReachableStep(cfg, b, to); }
    }
  }

  lemma {:induction false} ScannedIsClosure(cfg: Config, work: seq<nat>, cursor: nat)
    requires Worklist(work) && cursor <= |work| && AllReachable(cfg, work) && ClosedUpTo(cfg, work, cursor)
    ensures var order := Scanned(cfg, work, cursor);
            Worklist(order) && AllReachable(cfg, order) && ClosedUpTo(cfg, order, |order|)
    decreases 256 - cursor
  {
    WorklistFits(work);
    if cursor < |work| {
      ScanStep(cfg, work, cursor);
      hide AllReachable, ClosedUpTo;
      ScannedIsClosure(cfg, VisitAll(work, Devices(cfg, work[cursor], 32)), cursor + 1);
    }
  }

  lemma {:induction false} RouteStaysInside(cfg: Config, order: seq<nat>, buses: seq<nat>)
    requires 0 in order && ClosedUpTo(cfg, order, |order|) && Route(cfg, buses)
    ensures buses[|buses| - 1] in order
    decreases |buses|
  {
    if |buses| > 1 {
      var front := buses[..|buses| - 1];
      assert Route(cfg, front) by {
        forall i | 0 <= i < |front| - 1 ensures Edge(cfg, front[i], front[i + 1]) {
          assert Edge(cfg, buses[i], buses[i + 1]);
        }
      }
      RouteStaysInside(cfg, order, front);
      var i :| 0 <= i < |order| && order[i] == front[|front| - 1];
      assert Edge(cfg, buses[|buses| - 2], buses[|buses| - 2 + 1]);
    }
  }

  /** Position `j` is the first from which the bus at position `i` can be reached in one step. */
  ghost predicate FoundFrom(cfg: Config, work: seq<nat>, i: nat, j: nat)
    requires i < |work| && j < |work|
  {
    Edge(cfg, work[j], work[i]) && forall k :: 0 <= k < j ==> !Edge(cfg, work[k], work[i])
  }

  /** First come, first served: `from` gives for every bus but the first the position it is found from, which is below
      `n` and comes before it, and never goes down. */
  ghost predicate BreadthFirst(cfg: Config, work: seq<nat>, from: seq<nat>, n: nat) {
    && |from| == |work|
    && (forall i :: 0 < i < |work| ==> from[i] < n && from[i] < i && FoundFrom(cfg, work, i, from[i]))
    && forall i, j :: 0 < i < j < |work| ==> from[i] <= from[j]
  }

  lemma BreadthStep(cfg: Config, work: seq<nat>, cursor: nat, from: seq<nat>)
    requires Worklist(work) && cursor < |work| && AllReachable(cfg, work) && ClosedUpTo(cfg, work, cursor)
    requires BreadthFirst(cfg, work, from, cursor)
    ensures var work' := VisitAll(work, Devices(cfg, work[cursor], 32));
            && work <= work'
            && BreadthFirst(cfg, work', from + seq(|work'| - |work|, _ => cursor), cursor + 1)
  {
    hide Edge, VisitAll, Devices, AllReachable, ClosedUpTo, FoundFrom, Worklist;
    var work' := VisitAll(work, Devices(cfg, work[cursor], 32));
    StepLeads(cfg, work, cursor);
    var from' := from + seq(|work'| - |work|, _ => cursor);
    forall i | 0 < i < |work'| ensures from'[i] < cursor + 1 && from'[i] < i && FoundFrom(cfg, work', i, from'[i]) {
      if i < |work| { StillFound(cfg, work, work', i, from[i]); } else { NewlyFound(cfg, work, work', cursor, i); }
    }
  }

  lemma StepLeads(cfg: Config, work: seq<nat>, cursor: nat)
    requires Worklist(work) && cursor < |work|
    ensures var work' := VisitAll(work, Devices(cfg, work[cursor], 32));
            && work <= work' && Distinct(work')
            && forall to :: to in work' ==> to in work || Edge(cfg, work[cursor], to)
  {
    var b, devs := work[cursor], Devices(cfg, work[cursor], 32);
    DevicesHaveByteTargets(cfg, b, 32);
    VisitAllKeeps(work, devs);
    hide Edge, VisitAll, Devices;
    forall to | to in VisitAll(work, devs) ensures to in work || Edge(cfg, b, to) { EdgeIsDevice(cfg, b, to); }
  }

  lemma StillFound(cfg: Config, work: seq<nat>, work': seq<nat>, i: nat, j: nat)
    requires i < |work| && j < |work| && work <= work' && FoundFrom(cfg, work, i, j)
    ensures FoundFrom(cfg, work', i, j)
  {
  }

  lemma NewlyFound(cfg: Config, work: seq<nat>, work': seq<nat>, cursor: nat, i: nat)
    requires cursor < |work| <= i < |work'| && work <= work' && Distinct(work') && ClosedUpTo(cfg, work, cursor)
    requires forall to :: to in work' ==> to in work || Edge(cfg, work[cursor], to)
    ensures FoundFrom(cfg, work', i, cursor)
  {
    hide Edge;
    assert work'[i] in work';
    assert forall k :: 0 <= k < |work| ==> work[k] != work'[i];
    forall k | 0 <= k < cursor ensures !Edge(cfg, work'[k], work'[i]) {
      assert work'[k] == work[k] && work'[i] !in work;
    }
  }

  /** The buses are scanned breadth first: in the order in which earlier buses lead to them. */
  lemma {:induction false} ScannedBreadthFirst(cfg: Config, work: seq<nat>, cursor: nat, from: seq<nat>)
    returns (final: seq<nat>)
    requires Worklist(work) && cursor <= |work| && AllReachable(cfg, work) && ClosedUpTo(cfg, work, cursor)
    requires BreadthFirst(cfg, work, from, cursor)
    ensures var order := Scanned(cfg, work, cursor); BreadthFirst(cfg, order, final, |order|)
    decreases 256 - cursor
  {
    WorklistFits(work);
    if cursor < |work| {
      var work' := VisitAll(work, Devices(cfg, work[cursor], 32));
      ScanStep(cfg, work, cursor);
      BreadthStep(cfg, work, cursor, from);
      hide AllReachable, ClosedUpTo, BreadthFirst, VisitAll, Devices;
      final := ScannedBreadthFirst(cfg, work', cursor + 1, from + seq(|work'| - |work|, _ => cursor));
    } else {
      final := from;
    }
  }

  lemma OrderIsBreadthFirst(cfg: Config) returns (from: seq<nat>)
    ensures BreadthFirst(cfg, Order(cfg), from, |Order(cfg)|)
  {
    assert Route(cfg, [0]);
    from := ScannedBreadthFirst(cfg, [0], 0, [0]);
  }

  /** The buses scanned are the reachable ones, each once, and they fit the 256-slot worklist. */
  lemma ScansExactlyReachable(cfg: Config)
    ensures Worklist(Order(cfg)) && |Order(cfg)| <= 256
    ensures forall b: nat :: b in Order(cfg) <==> Reachable(cfg, b)
  {
    assert Route(cfg, [0]);
    ScannedIsClosure(cfg, [0], 0);
    WorklistFits(Order(cfg));
    hide Order, Reachable;
    forall b: nat ensures b in Order(cfg) <==> Reachable(cfg, b) {
      if Reachable(cfg, b) { ReachableIsScanned(cfg, b); }
    }
  }

  lemma ReachableIsScanned(cfg: Config, b: nat)
    requires Worklist(Order(cfg)) && ClosedUpTo(cfg, Order(cfg), |Order(cfg)|) && Reachable(cfg, b)
    ensures b in Order(cfg)
  {
    hide Order;
    var buses :| Route(cfg, buses) && buses[|buses| - 1] == b;
    RouteStaysInside(cfg, Order(cfg), buses);
  }

  // ---------------------------------------------------------------------
  // Every present function is recorded once
  // ---------------------------------------------------------------------

  ghost predicate NoAddressTwice(devs: seq<Device>) {
    forall i, j :: 0 <= i < j < |devs| ==>
      !(devs[i].bus == devs[j].bus && devs[i].device == devs[j].device && devs[i].fn == devs[j].fn)
  }

  /** Lower devices first, and of one device lower functions first. */
  predicate Before(x: Device, y: Device) { x.device < y.device || (x.device == y.device && x.fn < y.fn) }

  ghost predicate Ordered(devs: seq<Device>) { forall i, j :: 0 <= i < j < |devs| ==> Before(devs[i], devs[j]) }

  lemma {:induction false} FunctionsOrdered(cfg: Config, b: nat, d: nat, n: nat)
    requires n <= 8 && d < 32
    ensures Ordered(Functions(cfg, b, d, n))
  {
    if n > 0 {
      FunctionsOrdered(cfg, b, d, n - 1);
      forall dev | dev in Functions(cfg, b, d, n - 1) ensures dev.device == d && dev.fn < n - 1 {
        FunctionsMembers(cfg, b, d, n - 1, dev);
      }
    }
  }

  lemma {:induction false} DevicesOrdered(cfg: Config, b: nat, n: nat)
    requires n <= 32
    ensures Ordered(Devices(cfg, b, n))
  {
    if n > 0 {
      DevicesOrdered(cfg, b, n - 1);
      FunctionsOrdered(cfg, b, n - 1, 8);
      forall dev | dev in Devices(cfg, b, n - 1) ensures dev.device < n - 1 { DevicesMembers(cfg, b, n - 1, dev); }
      forall dev | dev in Functions(cfg, b, n - 1, 8) ensures dev.device == n - 1 {
        FunctionsMembers(cfg, b, n - 1, 8, dev);
      }
    }
  }

  lemma {:induction false} InventoryMembers(cfg: Config, buses: seq<nat>, dev: Device)
    ensures dev in Inventory(cfg, buses) <==> dev.bus in buses && Shown(cfg, dev.bus, dev)
  {
    if buses != [] {
      InventoryMembers(cfg, buses[..|buses| - 1], dev);
      DevicesMembers(cfg, buses[|buses| - 1], 32, dev);
    }
  }

  /** Bus after bus in this order, and each bus in its own order. */
  ghost predicate InScanOrder(devs: seq<Device>, buses: seq<nat>) {
    forall i, j :: 0 <= i < j < |devs| ==>
      || (devs[i].bus == devs[j].bus && Before(devs[i], devs[j]))
      || exists p, q :: 0 <= p < q < |buses| && buses[p] == devs[i].bus && buses[q] == devs[j].bus
  }

  lemma {:induction false} InventoryOrdered(cfg: Config, buses: seq<nat>)
    ensures InScanOrder(Inventory(cfg, buses), buses)
  {
    if buses != [] {
      var front, b := buses[..|buses| - 1], buses[|buses| - 1];
      InventoryOrdered(cfg, front);
      DevicesOrdered(cfg, b, 32);
      forall dev | dev in Inventory(cfg, front) ensures dev.bus in front { InventoryMembers(cfg, front, dev); }
      forall dev | dev in Devices(cfg, b, 32) ensures dev.bus == b { DevicesMembers(cfg, b, 32, dev); }
      hide Devices, Before;
      AppendBus(Inventory(cfg, front), front, Devices(cfg, b, 32), b);
      assert front + [b] == buses;
    }
  }

  lemma AppendBus(devs: seq<Device>, front: seq<nat>, more: seq<Device>, b: nat)
    requires InScanOrder(devs, front) && (forall dev :: dev in devs ==> dev.bus in front)
    requires Ordered(more) && forall dev :: dev in more ==> dev.bus == b
    ensures InScanOrder(devs + more, front + [b])
  {
    hide Before;
    var all, buses := devs + more, front + [b];
    forall i, j | 0 <= i < j < |all|
      ensures || (all[i].bus == all[j].bus && Before(all[i], all[j]))
              || exists p, q :: 0 <= p < q < |buses| && buses[p] == all[i].bus && buses[q] == all[j].bus
    {
      if j < |devs| {
        assert all[i] == devs[i] && all[j] == devs[j];
        if !(devs[i].bus == devs[j].bus && Before(devs[i], devs[j])) {
          var p, q :| 0 <= p < q < |front| && front[p] == devs[i].bus && front[q] == devs[j].bus;
          assert buses[p] == all[i].bus && buses[q] == all[j].bus;
        }
      } else if i < |devs| {
        assert all[i] in devs && all[j] in more;
        var p :| 0 <= p < |front| && front[p] == all[i].bus;
        assert buses[p] == all[i].bus && buses[|front|] == all[j].bus;
      } else {
        assert all[i] == more[i - |devs|] && all[j] == more[j - |devs|];
        assert all[i] in more && all[j] in more;
      }
    }
  }

  lemma OrderedIsOnce(devs: seq<Device>, buses: seq<nat>)
    requires InScanOrder(devs, buses) && Distinct(buses)
    ensures NoAddressTwice(devs)
  {
  }

  /** A function is in the full inventory exactly when it is present on a reachable bus, and once, in scan order. */
  lemma RecordsExactlyPresent(cfg: Config)
    ensures NoAddressTwice(Inventory(cfg, Order(cfg))) && InScanOrder(Inventory(cfg, Order(cfg)), Order(cfg))
    ensures forall dev: Device ::
              dev in Inventory(cfg, Order(cfg)) <==> Reachable(cfg, dev.bus) && Shown(cfg, dev.bus, dev)
  {
    ScansExactlyReachable(cfg);
    InventoryOrdered(cfg, Order(cfg));
    OrderedIsOnce(Inventory(cfg, Order(cfg)), Order(cfg));
    hide Order, Inventory, Reachable, InScanOrder, NoAddressTwice;
    forall dev: Device
      ensures dev in Inventory(cfg, Order(cfg)) <==> Reachable(cfg, dev.bus) && Shown(cfg, dev.bus, dev)
    {
      InventoryMembers(cfg, Order(cfg), dev);
    }
  }
}
