/** Address-space generations and reader pins: a mapping change waits for every copy in progress. */
module AddressSpace {
  import opened Common
  import opened UserRange
  import opened PageWalk

  type Pid = nat

  datatype Space = Space(generation: nat, pins: nat)

  /** A reader's lease. It is consumed by its release. */
  datatype Pin = Pin(pid: Pid, generation: nat)

  datatype SpaceError = NotFound | Busy | InvalidPin | PinCountExhausted | GenerationExhausted

  type Spaces = map<Pid, Space>

  const NEW_SPACE := Space(1, 0)

  predicate Bounded(spaces: Spaces) {
    forall p :: p in spaces ==> spaces[p].generation < U64 && spaces[p].pins < U32
  }

  function PinStep(spaces: Spaces, pid: Pid): (Spaces, Result<Pin, SpaceError>) {
    if pid !in spaces then (spaces, Err(NotFound))
    else if spaces[pid].pins + 1 >= U32 then (spaces, Err(PinCountExhausted))
    else (spaces[pid := spaces[pid].(pins := spaces[pid].pins + 1)], Ok(Pin(pid, spaces[pid].generation)))
  }

  function ReleaseStep(spaces: Spaces, pin: Pin): (Spaces, Result<(), SpaceError>) {
    if pin.pid !in spaces then (spaces, Err(NotFound))
    else if pin.generation != spaces[pin.pid].generation || spaces[pin.pid].pins == 0 then (spaces, Err(InvalidPin))
    else (spaces[pin.pid := spaces[pin.pid].(pins := spaces[pin.pid].pins - 1)], Ok(()))
  }

  function BumpStep(spaces: Spaces, pid: Pid): (Spaces, Result<nat, SpaceError>) {
    if pid !in spaces then (spaces, Err(NotFound))
    else if spaces[pid].pins != 0 then (spaces, Err(Busy))
    else if spaces[pid].generation + 1 >= U64 then (spaces, Err(GenerationExhausted))
    else (spaces[pid := spaces[pid].(generation := spaces[pid].generation + 1)], Ok(spaces[pid].generation + 1))
  }

  // ---------------------------------------------------------------------
  // Runs
  // ---------------------------------------------------------------------

  /** The process table's spaces and the leases handed out and not yet given back. */
  datatype World = World(spaces: Spaces, held: multiset<Pin>)

  datatype Op = Spawn(pid: Pid) | Acquire(pid: Pid) | Release(pin: Pin) | Bump(pid: Pid)

  /** A released lease must be one that is held: leases cannot be copied or made up. */
  predicate Enabled(w: World, op: Op) {
    match op
    case Spawn(pid) => pid !in w.spaces
    case Release(pin) => pin in w.held
    case _ => true
  }

  /** An operation that cannot be issued leaves the world as it is. */
  function Step(w: World, op: Op): World {
    if !Enabled(w, op) then w else
    match op
    case Spawn(pid) => w.(spaces := w.spaces[pid := NEW_SPACE])
    case Acquire(pid) =>
      var (spaces, r) := PinStep(w.spaces, pid);
      World(spaces, if r.Ok? then w.held + multiset{r.value} else w.held)
    case Release(pin) => World(ReleaseStep(w.spaces, pin).0, w.held - multiset{pin})
    case Bump(pid) => w.(spaces := BumpStep(w.spaces, pid).0)
  }

  /** Every held lease is for the current generation of its process, and the pin count is their number. */
  predicate Inv(w: World) {
    && Bounded(w.spaces)
    && (forall pin :: pin in w.held ==> pin.pid in w.spaces && pin.generation == w.spaces[pin.pid].generation)
    && (forall p :: p in w.spaces ==> w.spaces[p].pins == w.held[Pin(p, w.spaces[p].generation)])
  }

  lemma SpawnKeepsInv(w: World, pid: Pid)
    requires Inv(w) && pid !in w.spaces
    ensures Inv(Step(w, Spawn(pid)))
  {
    assert Pin(pid, NEW_SPACE.generation) !in w.held;
  }

  lemma AcquireKeepsInv(w: World, pid: Pid)
    requires Inv(w)
    ensures Inv(Step(w, Acquire(pid)))
  {
    var (spaces, r) := PinStep(w.spaces, pid);
    if r.Ok? {
      var held := w.held + multiset{r.value};
      assert forall pin :: pin in held ==> pin in w.held || pin == r.value;
      forall p | p in spaces && p != pid
        ensures held[Pin(p, spaces[p].generation)] == w.held[Pin(p, spaces[p].generation)]
      {
      }
    }
  }

  lemma ReleaseKeepsInv(w: World, pin: Pin)
    requires Inv(w) && pin in w.held
    ensures ReleaseStep(w.spaces, pin).1.Ok? && Inv(Step(w, Release(pin)))
  {
    var w' := Step(w, Release(pin));
    assert w.held[pin] > 0 && pin == Pin(pin.pid, w.spaces[pin.pid].generation);
    assert forall q :: q in w'.held ==> q in w.held;
  }

  lemma BumpKeepsInv(w: World, pid: Pid)
    requires Inv(w)
    ensures Inv(Step(w, Bump(pid)))
  {
    if BumpStep(w.spaces, pid).1.Ok? {
      assert w.held[Pin(pid, w.spaces[pid].generation)] == 0;
      assert forall q :: q in w.held ==> q.pid != pid;
      assert Pin(pid, w.spaces[pid].generation + 1) !in w.held;
    }
  }

  lemma StepKeepsInv(w: World, op: Op)
    requires Inv(w)
    ensures Inv(Step(w, op))
  {
    hide Inv;
    if Enabled(w, op) {
      match op
      case Spawn(pid) => SpawnKeepsInv(w, pid);
      case Acquire(pid) => AcquireKeepsInv(w, pid);
      case Release(pin) => ReleaseKeepsInv(w, pin);
      case Bump(pid) => BumpKeepsInv(w, pid);
    }
  }

  function Run(w: World, ops: seq<Op>): World
    decreases |ops|
  {
    if ops == [] then w else Step(Run(w, ops[..|ops| - 1]), ops[|ops| - 1])
  }

  const EMPTY := World(map[], multiset{})

  lemma {:induction false} RunKeepsInv(w: World, ops: seq<Op>)
    requires Inv(w)
    ensures Inv(Run(w, ops))
    decreases |ops|
  {
    hide Inv;
    if ops != [] {
      RunKeepsInv(w, ops[..|ops| - 1]);
      StepKeepsInv(Run(w, ops[..|ops| - 1]), ops[|ops| - 1]);
    }
  }

  /** After any run, a held lease is current, its release succeeds, and it blocks every mapping change of its process;
      a process with no held lease is never Busy. */
  lemma HeldPinsProtect(ops: seq<Op>, pid: Pid)
    ensures var w := Run(EMPTY, ops);
            && (forall pin :: pin in w.held ==> pin.pid in w.spaces && pin.generation == w.spaces[pin.pid].generation)
            && (forall pin :: pin in w.held ==> ReleaseStep(w.spaces, pin).1 == Ok(()))
            && (BumpStep(w.spaces, pid).1 == Err(Busy) <==> exists pin :: pin in w.held && pin.pid == pid)
  {
    RunKeepsInv(EMPTY, ops);
    var w := Run(EMPTY, ops);
    if BumpStep(w.spaces, pid).1 == Err(Busy) {
      assert Pin(pid, w.spaces[pid].generation) in w.held;
    }
    forall pin | pin in w.held ensures pin.pid in w.spaces && w.spaces[pin.pid].pins > 0 {
      assert w.held[pin] > 0;
    }
  }

  /** After any run a process can be pinned exactly when it exists and fewer than 2^32 - 1 of its leases are out. */
  lemma PinnableIff(ops: seq<Op>, pid: Pid)
    ensures var w := Run(EMPTY, ops);
            PinStep(w.spaces, pid).1.Ok? <==> pid in w.spaces && w.held[Pin(pid, w.spaces[pid].generation)] < U32 - 1
  {
    RunKeepsInv(EMPTY, ops);
    hide Run;
  }

  /** Its mapping can change exactly when none is out, and then its generation goes up by one and nothing else
      happens. */
  lemma ChangeableIff(ops: seq<Op>, pid: Pid)
    ensures var w := Run(EMPTY, ops);
            var (spaces, r) := BumpStep(w.spaces, pid);
            && (r.Ok? <==> && pid in w.spaces && w.spaces[pid].generation < U64 - 1
                           && forall pin :: pin in w.held ==> pin.pid != pid)
            && (r.Ok? ==> spaces == w.spaces[pid := Space(w.spaces[pid].generation + 1, 0)]
                          && r.value == w.spaces[pid].generation + 1)
  {
    HeldPinsProtect(ops, pid);
    RunKeepsInv(EMPTY, ops);
    hide Run;
  }

  lemma StepKeepsHeld(w: World, pin: Pin, op: Op)
    requires pin in w.held && op != Release(pin)
    ensures pin in Step(w, op).held
  {
  }

  lemma {:induction false} RunKeepsHeld(w: World, pin: Pin, ops: seq<Op>)
    requires pin in w.held && Release(pin) !in ops
    ensures pin in Run(w, ops).held
    decreases |ops|
  {
    hide Step;
    if ops != [] {
      RunKeepsHeld(w, pin, ops[..|ops| - 1]);
      StepKeepsHeld(Run(w, ops[..|ops| - 1]), pin, ops[|ops| - 1]);
    }
  }

  /** However a run continues, the generation a lease names stays the current one until the lease is given back. */
  lemma HeldGenerationIsStable(w: World, pin: Pin, ops: seq<Op>)
    requires Inv(w) && pin in w.held && Release(pin) !in ops
    ensures pin.pid in w.spaces && pin.pid in Run(w, ops).spaces
    ensures Run(w, ops).spaces[pin.pid].generation == w.spaces[pin.pid].generation == pin.generation
  {
    hide Run;
    RunKeepsHeld(w, pin, ops);
    RunKeepsInv(w, ops);
  }

  /** Giving back a lease just taken restores every count. */
  lemma ReleaseUndoesPin(spaces: Spaces, pid: Pid)
    requires PinStep(spaces, pid).1.Ok?
    ensures var (pinned, pin) := PinStep(spaces, pid); ReleaseStep(pinned, pin.value) == (spaces, Ok(()))
  {
    var (pinned, _) := PinStep(spaces, pid);
    assert pinned[pid := spaces[pid]] == spaces;
  }

  // ---------------------------------------------------------------------
  // Ranges
  // ---------------------------------------------------------------------

  datatype PinnedRange = PinnedRange(pin: Pin, range: UserRange.Range)

  datatype PinnedError = AddressSpaceError(space: SpaceError) | PagesError(pages: PageError)

  function Resolver(m: Mapper): nat -> Permissions {
    (page: nat) => Effective(m, page)
  }

  /** Every byte of the range passes the processor's own walk. */
  ghost predicate RangeAllowed(m: Mapper, r: UserRange.Range) {
    forall b :: r.start <= b < r.start + r.len ==> ByteAllowed(m, b, r.access)
  }

  /** The direct map reaches the page tables of every byte, as the mapper is created to. */
  ghost predicate RangeReached(m: Mapper, r: UserRange.Range) {
    forall b :: r.start <= b < r.start + r.len ==> Reaches(m, b)
  }

  lemma RangeAllowedIsPermitted(m: Mapper, r: UserRange.Range)
    ensures AllBytesPermitted(r, Resolver(m)) <==> RangeAllowed(m, r) && RangeReached(m, r)
  {
    forall b: nat
      ensures Permits(Resolver(m)(PageStart(PageOf(b))), r.access) <==> ByteAllowed(m, b, r.access) && Reaches(m, b)
    {
      EffectiveIsWalk(m, b, r.access);
    }
  }
}
