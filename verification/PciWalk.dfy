/** The topology walk as the kernel runs it: fixed arrays for the worklist, a capped inventory. */
module PciWalk {
  import opened Common
  import opened PciTopology

  class PciInventory {
    var devices: seq<Device>
    var overflowed: bool
    var busesScanned: nat

    /** Holds the first 256 of `all`, and says whether there were more. */
    ghost predicate Holds(all: seq<Device>)
      reads `devices, `overflowed
    {
      devices == all[..Min(|all|, MAX_PCI_DEVICES)] && overflowed == (|all| > MAX_PCI_DEVICES)
    }

    constructor ()
      ensures Holds([]) && busesScanned == 0
    {
      devices, overflowed, busesScanned := [], false, 0;
    }

    method Clear()
      modifies this
      ensures Holds([]) && busesScanned == 0
    {
      devices, overflowed, busesScanned := [], false, 0;
    }

    method Push(dev: Device, ghost all: seq<Device>)
      requires Holds(all)
      modifies `devices, `overflowed
      ensures Holds(all + [dev])
    {
      if |devices| == MAX_PCI_DEVICES {
        overflowed := true;
        return;
      }
      devices := devices + [dev];
    }
  }

  /** The arrays hold this worklist: its buses in order, and a flag for each. */
  ghost predicate Queues(pending: array<nat>, length: nat, queued: array<bool>, work: seq<nat>)
    reads pending, queued
  {
    && pending.Length == 256 && queued.Length == 256 && length <= 256
    && Worklist(work) && pending[..length] == work
    && forall b: nat :: b < 256 ==> (queued[b] <==> b in work)
  }

  /** `enqueue_bus`: the guard on a full array never drops a bus, since a full worklist has them all. */
  method EnqueueBus(bus: nat, pending: array<nat>, length: nat, queued: array<bool>, ghost work: seq<nat>)
    returns (length': nat)
    requires Queues(pending, length, queued, work) && bus < 256
    modifies pending, queued
    ensures Queues(pending, length', queued, Add(work, bus))
  {
    AddKeeps(work, bus);
    WorklistFits(Add(work, bus));
    if queued[bus] || length == pending.Length { return length; }
    queued[bus] := true;
    pending[length] := bus;
    length' := length + 1;
    assert pending[..length'] == work + [bus];
  }

  /** Record one function and queue the buses it leads to. */
  method VisitFunction(dev: Device, inv: PciInventory, pending: array<nat>, length: nat, queued: array<bool>,
                       ghost work: seq<nat>, ghost all: seq<Device>) returns (length': nat)
    requires Queues(pending, length, queued, work) && inv.Holds(all) && ByteTargets([dev])
    modifies inv`devices, inv`overflowed, pending, queued
    ensures Queues(pending, length', queued, Visit(work, dev)) && inv.Holds(all + [dev])
  {
    assert dev in [dev];
    length' := length;
    ghost var work' := work;
    if IsBridge(dev) && dev.secondary.Some? {
      length' := EnqueueBus(dev.secondary.value, pending, length', queued, work');
      work' := Add(work', dev.secondary.value);
    }
    if IsExtraRoot(dev) {
      length' := EnqueueBus(dev.fn, pending, length', queued, work');
    }
    inv.Push(dev, all);
  }

  lemma VisitNone(work: seq<nat>)
    ensures VisitAll(work, []) == work
  {
  }

  lemma VisitAllSnoc(work: seq<nat>, devs: seq<Device>, dev: Device)
    ensures VisitAll(work, devs + [dev]) == Visit(VisitAll(work, devs), dev)
  {
    assert (devs + [dev])[..|devs|] == devs;
  }

  lemma {:induction false} VisitAllAppend(work: seq<nat>, a: seq<Device>, b: seq<Device>)
    ensures VisitAll(work, a + b) == VisitAll(VisitAll(work, a), b)
  {
    if b == [] {
      assert a + b == a;
    } else {
      assert a + b == (a + b[..|b| - 1]) + [b[|b| - 1]];
      VisitAllSnoc(work, a + b[..|b| - 1], b[|b| - 1]);
      VisitAllAppend(work, a, b[..|b| - 1]);
    }
  }

  /** Read one function of a slot, and visit it if it is there. */
  method ScanFunction(cfg: Config, bus: nat, d: nat, f: nat, inv: PciInventory, pending: array<nat>, length: nat,
                      queued: array<bool>, ghost work: seq<nat>, ghost all: seq<Device>) returns (length': nat)
    requires d < 32 && f < 8 && ReadDevice(cfg, bus, d, 0).Some?
    requires f > 0 ==> ReadDevice(cfg, bus, d, 0).value.multifunction
    requires var seen := Functions(cfg, bus, d, f);
             Queues(pending, length, queued, VisitAll(work, seen)) && inv.Holds(all + seen)
    modifies inv`devices, inv`overflowed, pending, queued
    ensures var seen := Functions(cfg, bus, d, f + 1);
            Queues(pending, length', queued, VisitAll(work, seen)) && inv.Holds(all + seen)
  {
    length' := length;
    var dev := ReadDevice(cfg, bus, d, f);
    hide ReadDevice, VisitAll, PciInventory.Holds, Queues;
    if dev == None { return; }
    assert Found(cfg, bus, d, f);
    ghost var seen := Functions(cfg, bus, d, f);
    length' := VisitFunction(dev.value, inv, pending, length', queued, VisitAll(work, seen), all + seen);
    VisitAllSnoc(work, seen, dev.value);
    assert all + seen + [dev.value] == all + (seen + [dev.value]);
  }

  /** All functions of one device slot. */
  method ScanDevice(cfg: Config, bus: nat, d: nat, inv: PciInventory,
                    pending: array<nat>, length: nat, queued: array<bool>, ghost work: seq<nat>,
                    ghost all: seq<Device>) returns (length': nat)
    requires Queues(pending, length, queued, work) && inv.Holds(all) && d < 32
    modifies inv`devices, inv`overflowed, pending, queued
    ensures Queues(pending, length', queued, VisitAll(work, Functions(cfg, bus, d, 8)))
    ensures inv.Holds(all + Functions(cfg, bus, d, 8))
  {
    length' := length;
    var first := ReadDevice(cfg, bus, d, 0);
    if first == None {
      NoFunctions(cfg, bus, d, 8, 0);
      assert all + [] == all;
      return;
    }
    var count := if first.value.multifunction then 8 else 1;
    hide ReadDevice, VisitAll, PciInventory.Holds, Queues;
    VisitNone(work);
    assert all + [] == all;
    for f := 0 to count
      invariant var seen := Functions(cfg, bus, d, f);
                Queues(pending, length', queued, VisitAll(work, seen)) && inv.Holds(all + seen)
    {
      length' := ScanFunction(cfg, bus, d, f, inv, pending, length', queued, work, all);
    }
    if count == 1 { NoFunctions(cfg, bus, d, 8, 1); }
  }

  /** Functions that are not present add nothing. */
  lemma {:induction false} NoFunctions(cfg: Config, b: nat, d: nat, n: nat, k: nat)
    requires k <= n <= 8 && d < 32 && forall f: nat :: k <= f < n ==> !Found(cfg, b, d, f)
    ensures Functions(cfg, b, d, n) == Functions(cfg, b, d, k)
    decreases n
  {
    if k < n { NoFunctions(cfg, b, d, n - 1, k); }
  }

  method ScanBus(cfg: Config, bus: nat, inv: PciInventory, pending: array<nat>, length: nat, queued: array<bool>,
                 ghost work: seq<nat>, ghost all: seq<Device>) returns (length': nat)
    requires Queues(pending, length, queued, work) && inv.Holds(all)
    modifies inv`devices, inv`overflowed, pending, queued
    ensures Queues(pending, length', queued, VisitAll(work, Devices(cfg, bus, 32)))
    ensures inv.Holds(all + Devices(cfg, bus, 32))
  {
    length' := length;
    assert all + [] == all;
    for d := 0 to 32
      invariant Queues(pending, length', queued, VisitAll(work, Devices(cfg, bus, d)))
      invariant inv.Holds(all + Devices(cfg, bus, d))
    {
      ghost var seen, more := Devices(cfg, bus, d), Functions(cfg, bus, d, 8);
      length' := ScanDevice(cfg, bus, d, inv, pending, length', queued, VisitAll(work, seen), all + seen);
      VisitAllAppend(work, seen, more);
      assert all + seen + more == all + (seen + more);
    }
  }

  /** Scanning the bus under the cursor moves the whole walk one bus on. */
  lemma ScanAdvances(cfg: Config, work: seq<nat>, cursor: nat)
    requires Worklist(work) && cursor < |work|
    ensures var devs := Devices(cfg, work[cursor], 32);
            var next := VisitAll(work, devs);
            && Worklist(next) && cursor < |next| && |next| <= 256
            && Scanned(cfg, work, cursor) == Scanned(cfg, next, cursor + 1)
            && Inventory(cfg, next[..cursor + 1]) == Inventory(cfg, work[..cursor]) + devs
  {
    var devs := Devices(cfg, work[cursor], 32);
    var next := VisitAll(work, devs);
    DevicesHaveByteTargets(cfg, work[cursor], 32);
    VisitAllKeeps(work, devs);
    WorklistFits(next);
    assert next[..cursor + 1][..cursor] == work[..cursor] && next[cursor] == work[cursor];
  }

  method RunWorklist(cfg: Config, inv: PciInventory, pending: array<nat>, queued: array<bool>)
    requires Queues(pending, 1, queued, [0]) && inv.Holds([]) && inv.busesScanned == 0
    modifies inv, pending, queued
    ensures inv.Holds(Inventory(cfg, Order(cfg))) && inv.busesScanned == |Order(cfg)|
  {
    var length: nat := 1;
    var cursor: nat := 0;
    ghost var work: seq<nat> := [0];
    assert Inventory(cfg, work[..0]) == [];
    hide Scanned, Inventory, VisitAll, Devices, PciInventory.Holds, Queues, Worklist;
    QueueFacts(pending, length, queued, work);
    while cursor < length
      invariant Queues(pending, length, queued, work) && Worklist(work) && cursor <= length == |work|
      invariant Scanned(cfg, [0], 0) == Scanned(cfg, work, cursor)
      invariant inv.Holds(Inventory(cfg, work[..cursor])) && inv.busesScanned == cursor
      decreases 256 - cursor
    {
      QueueFacts(pending, length, queued, work);
      var bus := pending[cursor];
      ScanAdvances(cfg, work, cursor);
      ghost var seen := Inventory(cfg, work[..cursor]);
      length := ScanBus(cfg, bus, inv, pending, length, queued, work, seen);
      work := VisitAll(work, Devices(cfg, bus, 32));
      QueueFacts(pending, length, queued, work);
      cursor := cursor + 1;
      inv.busesScanned := inv.busesScanned + 1;
    }
    assert work[..cursor] == work;
    ScannedAll(cfg, work);
  }

  /** `enumerate_into`: the inventory is the present functions of the reachable buses, in scan order,
      cut off at 256 with the overflow flag saying so. */
  method Enumerate(cfg: Config, inv: PciInventory)
    modifies inv
    ensures inv.Holds(Inventory(cfg, Order(cfg))) && inv.busesScanned == |Order(cfg)|
  {
    inv.Clear();
    var pending := new nat[256](_ => 0);
    var queued := new bool[256](_ => false);
    queued[0] := true;
    assert pending[..1] == [0];
    RunWorklist(cfg, inv, pending, queued);
  }

  lemma QueueFacts(pending: array<nat>, length: nat, queued: array<bool>, work: seq<nat>)
    requires Queues(pending, length, queued, work)
    ensures Worklist(work) && |work| == length <= pending.Length == 256
    ensures forall i :: 0 <= i < length ==> pending[i] == work[i]
  {
  }

  lemma ScannedAll(cfg: Config, work: seq<nat>)
    requires Worklist(work)
    ensures Scanned(cfg, work, |work|) == work
  {
    WorklistFits(work);
  }
}
