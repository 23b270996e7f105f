/** The Bulk-Only command engine over a transport that may do anything, and the block reads built on it. */
module UsbStorage {
  import opened Common
  import opened Endian
  import opened Block
  import opened UsbWire

  const BOUNCE := 4096

  /** One transport operation with what it carried and how it ended. */
  datatype Io = Out(data: seq<Byte>, result: Result<nat, UsbError>)
              | DataIn(bytes: seq<Byte>, result: Result<nat, UsbError>)
              | StatusIn(bytes: seq<Byte>, result: Result<nat, UsbError>)
              | Reset(ok: bool)

  /** Every operation returns any result, and fills its buffer with any bytes. */
  class Transport {
    ghost var log: seq<Io>

    method BulkOut(data: seq<Byte>) returns (r: Result<nat, UsbError>)
      modifies this
      ensures log == old(log) + [Out(data, r)]
    {
      r := *;
      log := log + [Out(data, r)];
    }

    method BulkIn(buffer: array<Byte>, n: nat) returns (r: Result<nat, UsbError>)
      requires n <= buffer.Length
      modifies this, buffer
      ensures log == old(log) + [DataIn(buffer[..n], r)]
    {
      var i := 0;
      while i < n
        modifies buffer
        invariant i <= n
      {
        var b: Byte := *;
        buffer[i] := b;
        i := i + 1;
      }
      r := *;
      log := log + [DataIn(buffer[..n], r)];
    }

    method BulkInCsw() returns (bytes: seq<Byte>, r: Result<nat, UsbError>)
      modifies this
      ensures |bytes| == CSW_BYTES && log == old(log) + [StatusIn(bytes, r)]
    {
      bytes := [];
      while |bytes| < CSW_BYTES
        invariant |bytes| <= CSW_BYTES
        decreases CSW_BYTES - |bytes|
      {
        var b: Byte := *;
        bytes := bytes + [b];
      }
      r := *;
      log := log + [StatusIn(bytes, r)];
    }

    method ResetRecovery() returns (ok: bool)
      modifies this
      ensures log == old(log) + [Reset(ok)]
    {
      ok := *;
      log := log + [Reset(ok)];
    }
  }

  // ---------------------------------------------------------------------
  // What one command may look like on the wire
  // ---------------------------------------------------------------------

  datatype Request = Request(tag: nat, command: Command, direction: Direction, length: nat)

  predicate Proper(q: Request) {
    && q.tag < U32 && Sized(q.command) && 1 <= q.command.len <= 16
    && q.length <= BOUNCE && (q.direction == NoData ==> q.length == 0)
  }

  predicate HasData(q: Request) { q.direction == In && q.length != 0 }

  function Phases(q: Request): nat { if HasData(q) then 3 else 2 }

  function Wrapper(q: Request): seq<Byte>
    requires Sized(q.command)
  {
    CbwBytes(CbwOf(q))
  }

  function CbwOf(q: Request): Cbw {
    Cbw(q.tag, q.length, if q.direction == In then 0x80 else 0, 0, q.command)
  }

  /** Event `i` belongs to phase `i` of the command: wrapper, data if any, status. */
  predicate InPhase(q: Request, e: Io, i: nat)
    requires Sized(q.command)
  {
    if i == 0 then e.Out? && e.data == Wrapper(q)
    else if i == 1 && HasData(q) then e.DataIn? && |e.bytes| == q.length
    else i + 1 == Phases(q) && e.StatusIn? && |e.bytes| == CSW_BYTES
  }

  /** The phase succeeded as far as the transport can tell. */
  predicate Went(e: Io) {
    match e
    case Out(_, r) => r == Ok(CBW_BYTES)
    case DataIn(_, r) => r.Ok?
    case StatusIn(_, r) => r == Ok(CSW_BYTES)
    case Reset(ok) => ok
  }

  /** The bytes the data phase reported. */
  function Moved(q: Request, ev: seq<Io>): nat
    requires HasData(q) ==> |ev| > 1
  {
    if HasData(q) && !ev[1].Reset? && ev[1].result.Ok? then ev[1].result.value else 0
  }

  function StatusOf(q: Request, ev: seq<Io>): Result<Csw, UsbError>
    requires |ev| == Phases(q)
  {
    var e := ev[Phases(q) - 1];
    if e.StatusIn? then ParseCsw(e.bytes, q.tag, q.length) else Err(InvalidCsw)
  }

  /** All phases went through, the status carries the command's tag, and bytes moved plus residue is the length. */
  predicate Answered(q: Request, ev: seq<Io>)
    requires Sized(q.command)
  {
    && |ev| == Phases(q)
    && (forall i :: 0 <= i < |ev| ==> InPhase(q, ev[i], i) && Went(ev[i]))
    && StatusOf(q, ev).Ok? && Moved(q, ev) + StatusOf(q, ev).value.residue == q.length
  }

  /** Answered with success or an ordinary command failure: nothing to recover from. */
  predicate Clean(q: Request, ev: seq<Io>)
    requires Sized(q.command)
  {
    Answered(q, ev) && StatusOf(q, ev).value.status != Phase
  }

  /** The phases in order, all but the last successful, stopping at something that needs recovery. */
  predicate Broken(q: Request, ev: seq<Io>)
    requires Sized(q.command)
  {
    && 1 <= |ev| <= Phases(q)
    && (forall i :: 0 <= i < |ev| ==> InPhase(q, ev[i], i))
    && (forall i :: 0 <= i < |ev| - 1 ==> Went(ev[i]))
    && !Clean(q, ev)
  }

  datatype Call = Call(request: Request, events: seq<Io>)

  /** A clean command, or a broken one followed by one reset. */
  predicate Exchange(c: Call) {
    && Proper(c.request)
    && (Clean(c.request, c.events)
        || (c.events != [] && c.events[|c.events| - 1].Reset? && Broken(c.request, c.events[..|c.events| - 1])))
  }

  /** The reset itself failed. */
  predicate Dead(c: Call) { c.events != [] && c.events[|c.events| - 1] == Reset(false) }

  /** Exactly one command wrapper goes out per command, before anything else, and it decodes to that command. */
  lemma OneWrapper(c: Call)
    requires Exchange(c)
    ensures c.events != [] && c.events[0].Out?
    ensures DecodeCbw(c.events[0].data) == Some(CbwOf(c.request))
    ensures forall i :: 0 < i < |c.events| ==> !c.events[i].Out?
  {
    hide CbwBytes, DecodeCbw, StatusOf, Moved;
    var q := c.request;
    CbwRoundTrip(CbwOf(q));
    if !Clean(q, c.events) {
      var conv := c.events[..|c.events| - 1];
      assert InPhase(q, conv[0], 0);
      assert forall i :: 0 < i < |conv| ==> InPhase(q, conv[i], i) && c.events[i] == conv[i];
    } else {
      assert InPhase(q, c.events[0], 0);
      assert forall i :: 0 < i < |c.events| ==> InPhase(q, c.events[i], i);
    }
  }

  /** Recovery runs exactly when the command did not end cleanly, and then once, as the last operation. */
  lemma ResetIffBroken(c: Call)
    requires Exchange(c)
    ensures (exists i :: 0 <= i < |c.events| && c.events[i].Reset?) <==> !Clean(c.request, c.events)
    ensures forall i :: 0 <= i < |c.events| - 1 ==> !c.events[i].Reset?
  {
    hide StatusOf, Moved, Wrapper;
    var q := c.request;
    if Clean(q, c.events) {
      assert forall i :: 0 <= i < |c.events| ==> InPhase(q, c.events[i], i);
    } else {
      var conv := c.events[..|c.events| - 1];
      assert forall i :: 0 <= i < |conv| ==> InPhase(q, conv[i], i) && c.events[i] == conv[i];
      assert c.events[|c.events| - 1].Reset?;
    }
  }

  function Flat(calls: seq<Call>): seq<Io> {
    if calls == [] then [] else Flat(calls[..|calls| - 1]) + calls[|calls| - 1].events
  }

  /** A whole run: complete exchanges one after another, and nothing after a failed reset. */
  predicate Orderly(calls: seq<Call>) {
    && (forall i :: 0 <= i < |calls| ==> Exchange(calls[i]))
    && (forall i :: 0 <= i < |calls| - 1 ==> !Dead(calls[i]))
  }

  predicate Alive(calls: seq<Call>) {
    calls == [] || !Dead(calls[|calls| - 1])
  }

  /** On the wire of any run, a failed reset is the last operation ever made. */
  lemma {:induction false} NothingAfterFailedReset(calls: seq<Call>, i: nat)
    requires Orderly(calls) && i < |Flat(calls)| && Flat(calls)[i] == Reset(false)
    ensures i == |Flat(calls)| - 1
  {
    hide Exchange;
    var front, c := calls[..|calls| - 1], calls[|calls| - 1];
    if i < |Flat(front)| {
      NothingAfterFailedReset(front, i);
      LastOfFlat(front);
    } else {
      ResetIffBroken(c);
      assert c.events[i - |Flat(front)|] == Reset(false);
    }
  }

  lemma LastOfFlat(calls: seq<Call>)
    requires Orderly(calls) && calls != []
    ensures var ev := calls[|calls| - 1].events;
            ev != [] && Flat(calls) != [] && Flat(calls)[|Flat(calls)| - 1] == ev[|ev| - 1]
  {
    OneWrapper(calls[|calls| - 1]);
  }

  /** A command reported as done was answered with its own tag, a passed status, and a residue that
      together with the bytes reported makes up the length asked for. */
  lemma DoneMeansAnswered(c: Call, n: nat)
    requires Exchange(c) && Verdict(c.request, c.events, Ok(n))
    ensures n <= c.request.length
    ensures var e := c.events[|c.events| - 1];
            e.StatusIn? && e.bytes == CswBytes(c.request.tag, Csw(c.request.length - n, Passed))
  {
    hide ParseCsw, CswBytes, Wrapper;
    var q := c.request;
    var e := c.events[|c.events| - 1];
    assert InPhase(q, c.events[Phases(q) - 1], Phases(q) - 1);
    CswAcceptedIff(e.bytes, q.tag, q.length, Csw(q.length - n, Passed));
  }

  // ---------------------------------------------------------------------
  // The engine
  // ---------------------------------------------------------------------

  class MassStorage {
    var nextTag: nat
    const bounce: array<Byte>
    var available: bool
    /** The commands that reached the transport. */
    ghost var history: seq<Call>

    constructor (t: Transport)
      requires t.log == []
      ensures Valid(t) && fresh(bounce) && history == [] && available && nextTag == 1
    {
      nextTag := 1;
      bounce := new Byte[BOUNCE](_ => 0);
      available := true;
      history := [];
    }

    ghost predicate Valid(t: Transport)
      reads this, t
    {
      Mid(t, []) && (available <==> Alive(history))
    }

    /** Within a command: its operations so far follow the recorded ones. */
    ghost predicate Mid(t: Transport, ev: seq<Io>)
      reads this, t
    {
      bounce.Length == BOUNCE && nextTag < U32 && Orderly(history) && t.log == Flat(history) + ev
    }

    /** `recover`: one reset, after which a failed one retires the device. */
    method Recover(t: Transport, ghost q: Request, ghost ev: seq<Io>)
      requires Mid(t, ev) && available && Alive(history) && Proper(q) && Broken(q, ev)
      modifies t, this`available, this`history
      ensures Valid(t) && Added(old(history), history, q)
      ensures ev <= Last(history).events && !Clean(q, Last(history).events)
      ensures Failure(q, Last(history).events) == Cause(q, ev)
    {
      hide Orderly, Exchange, Broken, Clean, Proper, Flat, Cause;
      var ok := t.ResetRecovery();
      if !ok { available := false; }
      ResetEndsExchange(q, ev, ok);
      Record(t, q, ev + [Reset(ok)]);
      assert (ev + [Reset(ok)])[..|ev|] == ev;
    }

    /** Note a finished command in the history. */
    ghost method Record(t: Transport, q: Request, ev: seq<Io>)
      requires Orderly(history) && Alive(history) && t.log == Flat(history) + ev
      requires Exchange(Call(q, ev))
      modifies this`history
      ensures history == old(history) + [Call(q, ev)] && Orderly(history) && t.log == Flat(history) + []
    {
      var calls := history + [Call(q, ev)];
      assert calls[..|calls| - 1] == history;
      history := calls;
    }

    /** `execute_with`: refused without any transport operation, or one exchange whose verdict is returned. */
    method Execute(t: Transport, command: Command, direction: Direction, length: nat) returns (r: Result<nat, UsbError>)
      requires Valid(t) && Sized(command)
      modifies this, t, bounce
      ensures Valid(t)
      ensures var q := Request(old(nextTag), command, direction, length);
              if !old(available) then r == Err(Unavailable) && history == old(history)
              else if !Proper(q) then r == Err(InvalidCommand) && history == old(history)
              else && Added(old(history), history, q) && Verdict(q, Last(history).events, r)
                   && (r.Ok? && HasData(q) ==> Received(Last(history), bounce[..length]))
      ensures nextTag == if old(available) && Fits(direction, length) then Wrap32(old(nextTag) + 1) else old(nextTag)
    {
      if !available { return Err(Unavailable); }
      if length > BOUNCE || (direction == NoData && length != 0) { return Err(InvalidCommand); }
      var tag := nextTag;
      nextTag := Wrap32(nextTag + 1);
      var cbw := NewCbw(tag, length, direction, command);
      if cbw.Err? { return Err(cbw.error); }
      r := Converse(t, cbw.value, Request(tag, command, direction, length));
    }

    /** The three phases, each of which may end in recovery. */
    method Converse(t: Transport, cbw: Cbw, q: Request) returns (r: Result<nat, UsbError>)
      requires Valid(t) && available && Proper(q) && cbw == CbwOf(q)
      modifies t, this`available, this`history, bounce
      ensures Valid(t)
      ensures Added(old(history), history, q) && Verdict(q, Last(history).events, r)
      ensures r.Ok? && HasData(q) ==> Received(Last(history), bounce[..q.length])
    {
      hide Clean, Answered, Orderly, Flat, Exchange, ParseCsw, CbwBytes;
      var sent := t.BulkOut(CbwBytes(cbw));
      ghost var ev := [Out(Wrapper(q), sent)];
      assert Mid(t, ev);
      if sent.Err? { NotClean(q, ev); Recover(t, q, ev); return Err(sent.error); }
      if sent.value != CBW_BYTES { NotClean(q, ev); Recover(t, q, ev); return Err(ShortTransfer); }
      var moved := 0;
      if q.direction == In && q.length != 0 {
        var got := t.BulkIn(bounce, q.length);
        ev := ev + [DataIn(bounce[..q.length], got)];
        assert Mid(t, ev);
        if got.Err? { NotClean(q, ev); Recover(t, q, ev); return Err(got.error); }
        moved := got.value;
      }
      r := Finish(t, q, moved, ev);
    }

    /** The status phase. */
    method Finish(t: Transport, q: Request, moved: nat, ghost before: seq<Io>) returns (r: Result<nat, UsbError>)
      requires Mid(t, before) && available && Alive(history) && Proper(q)
      requires |before| + 1 == Phases(q)
      requires forall i :: 0 <= i < |before| ==> InPhase(q, before[i], i) && Went(before[i])
      requires moved == Moved(q, before)
      modifies t, this`available, this`history
      ensures Valid(t)
      ensures Added(old(history), history, q) && Verdict(q, Last(history).events, r) && before <= Last(history).events
    {
      hide Orderly, Flat, ParseCsw, Wrapper, Exchange, Broken, Answered, Moved, StatusOf;
      var bytes, got := t.BulkInCsw();
      ghost var ev := before + [StatusIn(bytes, got)];
      assert Mid(t, ev);
      StatusSettles(q, before, StatusIn(bytes, got));
      if got.Err? { Recover(t, q, ev); return Err(got.error); }
      if got.value != CSW_BYTES { Recover(t, q, ev); return Err(InvalidCsw); }
      var csw := ParseCsw(bytes, q.tag, q.length);
      if csw.Err? { Recover(t, q, ev); return Err(csw.error); }
      if moved + csw.value.residue != q.length { Recover(t, q, ev); return Err(InvalidCsw); }
      match csw.value.status
      case Passed => Record(t, q, ev); r := Ok(moved);
      case Failed => Record(t, q, ev); r := Err(CommandFailed);
      case Phase => Recover(t, q, ev); r := Err(PhaseError);
    }

    /** `read_10`: success is one passed READ(10) for these blocks, all of whose bytes are in the bounce buffer;
        a failed command adds one REQUEST SENSE. */
    method ReadTen(t: Transport, lba: nat, blocks: nat) returns (r: Result<nat, UsbError>)
      requires Valid(t) && lba < U32 && blocks < U16
      modifies this, t, bounce
      ensures Valid(t) && old(history) <= history && |history| <= |old(history)| + 2
      ensures r.Ok? ==> r.value == BLOCK * blocks <= BOUNCE && |history| == |old(history)| + 1
                        && ReadDone(Last(history), lba, blocks, bounce[..r.value])
      ensures |history| > |old(history)| ==> ReadAsked(history[|old(history)|].request, lba, blocks)
      ensures |history| == |old(history)| + 2 ==> r == Err(CommandFailed) && SenseAsked(Last(history).request)
      ensures if !old(available) || !(0 < blocks <= 8) then r.Err? && history == old(history)
              else |history| > |old(history)| && (r.Ok? <==> Delivered(history[|old(history)|]))
      ensures r.Ok? ==> available
      ensures r == Err(CommandFailed) ==> || |history| == |old(history)| + 2
                                          || (|history| == |old(history)| + 1 && Dead(Last(history)))
    {
      hide Orderly, Flat, Exchange, Clean, Moved, StatusOf, BeBytes, Dead;
      var bytes := blocks * BLOCK;
      var command := Read10(lba, blocks);
      if command.Err? { return Err(command.error); }
      var done := Execute(t, command.value, In, bytes);
      if done.Ok? {
        CleanIsAlive(history);
        if done.value == bytes { return done; }
        return Err(ShortTransfer);
      }
      if done.error == CommandFailed {
        var _ := Execute(t, REQUEST_SENSE, In, 18);
      }
      r := done;
    }

    /** The registered device's `read_blocks`: refused without I/O exactly on a bad length or a range past the end;
        success is a run of READ(10)s that tile the request in order, with their data in the output. */
    method ReadBlocks(t: Transport, blockCount: nat, lba: nat, output: array<Byte>) returns (e: Option<BlockError>)
      requires Valid(t) && blockCount < U32 && output != bounce
      modifies this, t, bounce, output
      ensures Valid(t) && old(history) <= history
      ensures e == Some(InvalidBuffer) <==> output.Length == 0 || output.Length % BLOCK != 0
      ensures e == Some(OutOfRange) <==> && output.Length != 0 && output.Length % BLOCK == 0
                                         && lba + output.Length / BLOCK > blockCount
      ensures e == Some(InvalidBuffer) || e == Some(OutOfRange) ==> history == old(history)
      ensures e == None ==> Tiled(history[|old(history)|..], lba, output[..])
      ensures e.Some? && e != Some(InvalidBuffer) && e != Some(OutOfRange) ==>
                if old(available) then exists k: nat :: StoppedAt(history[|old(history)|..], lba, output[..], k)
                else history == old(history)
    {
      if output.Length == 0 || output.Length % BLOCK != 0 { return Some(InvalidBuffer); }
      var blocks := output.Length / BLOCK;
      if lba + blocks >= U64 || lba + blocks > blockCount || lba >= U32 { return Some(OutOfRange); }
      var failed := ReadAll(t, lba, blocks, output);
      e := if failed.Some? then Some(MapError(failed.value)) else None;
    }

    /** The chunk loop, once the request is known to be in range. */
    method ReadAll(t: Transport, lba: nat, blocks: nat, output: array<Byte>) returns (failed: Option<UsbError>)
      requires Valid(t) && output != bounce && output.Length == BLOCK * blocks && blocks > 0 && lba + blocks < U32
      modifies this, t, bounce, output
      ensures Valid(t) && old(history) <= history
      ensures failed == None ==> Tiled(history[|old(history)|..], lba, output[..])
      ensures failed.Some? ==> if old(available)
                               then exists k: nat :: StoppedAt(history[|old(history)|..], lba, output[..], k)
                               else history == old(history)
    {
      hide MassStorage.Valid, Tiles, StoppedAt;
      var i, completed: nat := 0, 0;
      EmptyTiles(history[|history|..], lba, output[..]);
      while i * BOUNCE < output.Length
        modifies this, t, bounce, output
        invariant Valid(t) && old(history) <= history && |history| == |old(history)| + i
        invariant if old(available) then available else i == 0 && !available
        invariant i * BOUNCE < output.Length + BOUNCE && completed == Min(8 * i, blocks)
        invariant Tiles(history[|old(history)|..], lba, output[..], i)
        decreases output.Length - i * BOUNCE
      {
        var count := Min(BOUNCE, output.Length - i * BOUNCE) / BLOCK;
        assert count == Min(8, blocks - 8 * i);
        // The 32-bit address check inside the loop cannot fail.
        assert lba + completed < U32;
        failed := ReadChunk(t, lba, lba + completed, count, output, i, |old(history)|);
        if failed.Some? { return; }
        completed := completed + count;
        i := i + 1;
      }
      failed := None;
    }

    /** Read chunk `i` of the output and copy it into place. */
    method ReadChunk(t: Transport, ghost lba: nat, at: nat, count: nat, output: array<Byte>, i: nat, ghost base: nat)
      returns (failed: Option<UsbError>)
      requires Valid(t) && output != bounce && output.Length % BLOCK == 0 && i * BOUNCE < output.Length
      requires at == lba + 8 * i < U32 && count == Min(BOUNCE, output.Length - i * BOUNCE) / BLOCK
      requires base + i == |history| && Tiles(history[base..], lba, output[..], i)
      modifies this, t, bounce, output
      ensures Valid(t) && old(history) <= history
      ensures failed == None ==> && |history| == |old(history)| + 1 && Tiles(history[base..], lba, output[..], i + 1)
                                 && old(available) && available
      ensures failed.Some? ==> if old(available) then StoppedAt(history[base..], lba, output[..], i)
                               else history == old(history)
    {
      hide Orderly, Flat, Exchange, Alive, ReadDone, Delivered, StoppedAt, ReadAsked;
      var start := i * BOUNCE;
      ghost var before, calls := output[..], history[base..];
      var done := ReadTen(t, at, count);
      if done.Err? {
        if old(available) {
          assert history[base..][..i] == calls && history[base..][i] == history[|old(history)|];
          ChunkFailed(calls, history[base..], lba, output[..], i);
        }
        return Some(done.error);
      }
      ghost var data := bounce[..done.value];
      forall j | 0 <= j < done.value { output[start + j] := bounce[j]; }
      assert history[base..][..i] == calls && history[base..][i] == Last(history);
      assert output[..][..start] == before[..start];
      assert output[..][start..ChunkEnd(output.Length, i)] == data;
      assert |data| / BLOCK == count;
      TilesGrow(history[base..], lba, before, output[..], i, data);
      failed := None;
    }
  }

  function MapError(e: UsbError): BlockError {
    match e
    case Transport(XhciBusy) => BlockError.Busy
    case InvalidCommand => Unsupported
    case UnsupportedGeometry => Unsupported
    case _ => BlockError.Io
  }

  predicate ReadAsked(q: Request, lba: nat, blocks: nat) {
    && Read10(lba, blocks).Ok? && q.command == Read10(lba, blocks).value
    && q.length == BLOCK * blocks && q.direction == In
  }

  predicate SenseAsked(q: Request) { q.command == REQUEST_SENSE && q.length == 18 && q.direction == In }

  /** The call is a READ(10) of `blocks` blocks at `lba` that passed and delivered exactly `bytes`. */
  predicate ReadDone(c: Call, lba: nat, blocks: nat, bytes: seq<Byte>) {
    && ReadAsked(c.request, lba, blocks) && |bytes| == BLOCK * blocks
    && Clean(c.request, c.events) && StatusOf(c.request, c.events).value.status == Passed
    && Received(c, bytes)
  }

  /** Bytes of chunk `k` of an output of `n` bytes. */
  function ChunkEnd(n: nat, k: nat): nat { Min(BOUNCE * (k + 1), n) }

  predicate Chunk(c: Call, lba: nat, out: seq<Byte>, k: nat) {
    && BOUNCE * k < |out| && BOUNCE * k <= ChunkEnd(|out|, k) <= |out|
    && ReadDone(c, lba + 8 * k, (ChunkEnd(|out|, k) - BOUNCE * k) / BLOCK, out[BOUNCE * k..ChunkEnd(|out|, k)])
  }

  /** The first `n` calls read the first `n` chunks. */
  predicate Tiles(calls: seq<Call>, lba: nat, out: seq<Byte>, n: nat) {
    n <= |calls| && forall k :: 0 <= k < n ==> Chunk(calls[k], lba, out, k)
  }

  /** The calls read consecutive chunks, and together all of the output. */
  predicate Tiled(calls: seq<Call>, lba: nat, out: seq<Byte>) {
    Tiles(calls, lba, out, |calls|) && BOUNCE * |calls| >= |out| > BOUNCE * (|calls| - 1)
  }

  /** The call ended cleanly, with a passed status and every byte asked for. */
  predicate Delivered(c: Call) {
    && Sized(c.request.command) && Clean(c.request, c.events)
    && StatusOf(c.request, c.events).value.status == Passed && Moved(c.request, c.events) == c.request.length
  }

  /** The chunks before `k` were read; the READ(10) of chunk `k` did not deliver, and at most a sense request
      followed. */
  predicate StoppedAt(calls: seq<Call>, lba: nat, out: seq<Byte>, k: nat) {
    && Tiles(calls, lba, out, k) && k < |calls| <= k + 2 && BOUNCE * k < |out|
    && ReadAsked(calls[k].request, lba + 8 * k, Min(BOUNCE, |out| - BOUNCE * k) / BLOCK)
    && !Delivered(calls[k])
  }

  /** A clean command is no failed reset. */
  lemma CleanIsAlive(calls: seq<Call>)
    requires Orderly(calls) && calls != []
    ensures var c := Last(calls); Sized(c.request.command) && (Clean(c.request, c.events) ==> Alive(calls))
  {
    ResetIffBroken(Last(calls));
    hide Clean;
  }

  lemma ChunkFailed(calls: seq<Call>, more: seq<Call>, lba: nat, out: seq<Byte>, n: nat)
    requires Tiles(calls, lba, out, n) && n < |more| <= n + 2 && calls == more[..n] && BOUNCE * n < |out|
    requires ReadAsked(more[n].request, lba + 8 * n, Min(BOUNCE, |out| - BOUNCE * n) / BLOCK) && !Delivered(more[n])
    ensures StoppedAt(more, lba, out, n)
  {
    hide Chunk, ReadAsked, Delivered;
    forall k | 0 <= k < n ensures Chunk(more[k], lba, out, k) { assert more[k] == calls[k]; }
  }

  /** If the drive answers each READ(10) with the bytes at the address it decodes, the output is the disk's content
      from the first requested block on. */
  lemma TiledReadsDisk(calls: seq<Call>, lba: nat, out: seq<Byte>, disk: nat -> Byte, p: nat)
    requires Tiled(calls, lba, out) && lba + |out| / BLOCK < U32 && |out| % BLOCK == 0 && p < |out|
    requires forall k :: 0 <= k < |calls| ==> Answers(calls[k], disk)
    ensures out[p] == disk(BLOCK * lba + p)
  {
    hide Answers, ReadDone, ChunkEnd;
    var k := p / BOUNCE;
    ChunkOf(|out|, |calls|, p);
    assert Chunk(calls[k], lba, out, k);
    var end := ChunkEnd(|out|, k);
    DoneReadsDisk(calls[k], lba + 8 * k, (end - BOUNCE * k) / BLOCK, out[BOUNCE * k..end], disk, p - BOUNCE * k);
  }

  /** Where byte `p` of an output of `n` bytes is among `calls` chunks. */
  lemma ChunkOf(n: nat, calls: nat, p: nat)
    requires p < n && n % BLOCK == 0 && BOUNCE * calls >= n
    ensures var k := p / BOUNCE;
            && k < calls && 8 * k < n / BLOCK && BOUNCE * k <= p < ChunkEnd(n, k)
            && 0 < (ChunkEnd(n, k) - BOUNCE * k) / BLOCK <= 8
  {
  }

  /** The data phase holds the disk's bytes at the command's own address. */
  predicate Answers(c: Call, disk: nat -> Byte) {
    && Sized(c.request.command) && |c.events| > 1 && c.events[1].DataIn?
    && forall j :: 0 <= j < |c.events[1].bytes| ==>
         c.events[1].bytes[j] == disk(BLOCK * CommandLba(c.request.command) + j)
  }

  lemma DoneReadsDisk(c: Call, lba: nat, blocks: nat, bytes: seq<Byte>, disk: nat -> Byte, j: nat)
    requires ReadDone(c, lba, blocks, bytes) && Answers(c, disk) && lba < U32 && 0 < blocks <= 8 && j < |bytes|
    ensures bytes[j] == disk(BLOCK * lba + j)
  {
    hide Clean, CommandBlocks, StatusOf;
    Read10Fields(lba, blocks);
  }

  lemma EmptyTiles(calls: seq<Call>, lba: nat, out: seq<Byte>)
    ensures Tiles(calls, lba, out, 0)
  {
  }

  lemma TilesGrow(calls: seq<Call>, lba: nat, before: seq<Byte>, after: seq<Byte>, i: nat, data: seq<Byte>)
    requires |calls| == i + 1 && |before| == |after| && BOUNCE * i < |before|
    requires Tiles(calls[..i], lba, before, i)
    requires after[..BOUNCE * i] == before[..BOUNCE * i]
    requires BOUNCE * i <= ChunkEnd(|after|, i) && after[BOUNCE * i..ChunkEnd(|after|, i)] == data
    requires ReadDone(calls[i], lba + 8 * i, |data| / BLOCK, data)
    ensures Tiles(calls, lba, after, i + 1)
  {
    hide ReadDone;
    forall k | 0 <= k < i ensures Chunk(calls[k], lba, after, k) {
      assert Chunk(calls[..i][k], lba, before, k);
      assert after[BOUNCE * k..ChunkEnd(|after|, k)] == after[..BOUNCE * i][BOUNCE * k..ChunkEnd(|after|, k)];
      assert before[BOUNCE * k..ChunkEnd(|after|, k)] == before[..BOUNCE * i][BOUNCE * k..ChunkEnd(|after|, k)];
    }
  }

  function Last(calls: seq<Call>): Call
    requires calls != []
  {
    calls[|calls| - 1]
  }

  /** One more command, `q`, reached the transport. */
  predicate Added(before: seq<Call>, after: seq<Call>, q: Request) {
    |after| == |before| + 1 && after[..|before|] == before && Last(after).request == q
  }

  /** The data phase delivered `bytes`. */
  predicate Received(c: Call, bytes: seq<Byte>) {
    |c.events| > 1 && c.events[1].DataIn? && c.events[1].bytes == bytes
  }

  predicate Fits(direction: Direction, length: nat) {
    length <= BOUNCE && (direction == NoData ==> length == 0)
  }

  lemma ResetEndsExchange(q: Request, ev: seq<Io>, ok: bool)
    requires Proper(q) && Broken(q, ev)
    ensures Exchange(Call(q, ev + [Reset(ok)])) && !Clean(q, ev + [Reset(ok)])
    ensures ev != [] && (Dead(Call(q, ev + [Reset(ok)])) <==> !ok)
  {
    var all := ev + [Reset(ok)];
    assert all[..|all| - 1] == ev;
    assert !InPhase(q, all[|ev|], |ev|);
  }

  /** With the earlier phases done, the status event alone decides how the command ends. */
  lemma StatusSettles(q: Request, before: seq<Io>, e: Io)
    requires Proper(q) && |before| + 1 == Phases(q)
    requires forall i :: 0 <= i < |before| ==> InPhase(q, before[i], i) && Went(before[i])
    requires InPhase(q, e, |before|)
    ensures var ev := before + [e];
            var csw := ParseCsw(e.bytes, q.tag, q.length);
            && Moved(q, ev) == Moved(q, before) && StatusOf(q, ev) == csw
            && (csw.Err? ==> csw.error == InvalidCsw)
            && (Answered(q, ev) <==> Went(e) && csw.Ok? && Moved(q, ev) + csw.value.residue == q.length)
            && (Broken(q, ev) <==> !Clean(q, ev))
            && (Clean(q, ev) ==> Exchange(Call(q, ev)))
  {
    hide Wrapper;
    var ev := before + [e];
    assert ev[..|before|] == before && ev[|before|] == e;
    assert forall i :: 0 <= i < |ev| ==> InPhase(q, ev[i], i);
    if HasData(q) { assert InPhase(q, before[1], 1) && Went(before[1]); }
  }

  lemma NotClean(q: Request, ev: seq<Io>)
    requires Sized(q.command) && |ev| != Phases(q)
    ensures !Clean(q, ev)
  {
  }

  /** A 32-bit counter's wrap-around. */
  function Wrap32(n: nat): nat { if n == U32 then 0 else n }

  /** The result a command reports for what happened on the wire. */
  predicate Verdict(q: Request, ev: seq<Io>, r: Result<nat, UsbError>)
    requires Sized(q.command)
  {
    if Clean(q, ev) then
      if StatusOf(q, ev).value.status == Passed then r == Ok(Moved(q, ev)) else r == Err(CommandFailed)
    else r == Err(Failure(q, ev))
  }

  /** The error that a conversation needing recovery is reported with: the transport's own, a short wrapper, a phase
      error, or a status that is none for this command. */
  function Cause(q: Request, conv: seq<Io>): UsbError
    requires Sized(q.command) && conv != []
  {
    var e := conv[|conv| - 1];
    if !e.Reset? && e.result.Err? then e.result.error
    else if e.Out? then ShortTransfer
    else if Answered(q, conv) then PhaseError
    else InvalidCsw
  }

  /** The same, for the exchange with its final reset. */
  function Failure(q: Request, ev: seq<Io>): UsbError
    requires Sized(q.command)
  {
    if |ev| < 2 then InvalidCsw else Cause(q, ev[..|ev| - 1])
  }
}
