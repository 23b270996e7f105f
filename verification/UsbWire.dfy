/** Command and status wrappers of USB Mass Storage Class Bulk-Only Transport 1.0 (section 5), and the SCSI data
    they carry. */
module UsbWire {
  import opened Common
  import opened Endian

  datatype XhciError = XhciBusy | XhciOther(code: nat)

  datatype UsbError = AlreadyInitialized | NotFound | Transport(xhci: XhciError) | InvalidCommand | InvalidCsw
                    | ShortTransfer | CommandFailed | PhaseError | UnsupportedDevice | UnsupportedGeometry
                    | NotReady | Unavailable

  const BLOCK := 512
  const CBW_BYTES := 31
  const CSW_BYTES := 13
  const CBW_SIGNATURE := 0x4342_5355
  const CSW_SIGNATURE := 0x5342_5355

  datatype Direction = NoData | In

  /** A command block: sixteen bytes, of which the first `len` count. */
  datatype Command = Command(bytes: seq<Byte>, len: Byte)

  predicate Sized(c: Command) { |c.bytes| == 16 }

  const REQUEST_SENSE := Command([3, 0, 0, 0, 18, 0, 0, 0, 0, 0, 0, 0, 0, 0, 0, 0], 6)

  function Read10(lba: nat, blocks: nat): (r: Result<Command, UsbError>)
    ensures r.Ok? <==> blocks != 0
    ensures r.Ok? ==> Sized(r.value) && r.value.len == 10
  {
    if blocks == 0 then Err(InvalidCommand)
    else Ok(Command([0x28, 0] + BeBytes(lba, 4) + [0] + BeBytes(blocks, 2) + Zeros(7), 10))
  }

  function CommandLba(c: Command): nat
    requires Sized(c)
  {
    BeValue(c.bytes[2..6])
  }

  function CommandBlocks(c: Command): nat
    requires Sized(c)
  {
    BeValue(c.bytes[7..9])
  }

  /** A drive decoding READ(10) sees the address and count that were asked for. */
  lemma Read10Fields(lba: nat, blocks: nat)
    requires lba < U32 && 0 < blocks < U16
    ensures var c := Read10(lba, blocks).value;
            && c.len == 10 && c.bytes[0] == 0x28 && c.bytes[1] == c.bytes[6] == c.bytes[9] == 0
            && CommandLba(c) == lba && CommandBlocks(c) == blocks
  {
    var c := Read10(lba, blocks).value;
    Widths();
    BeRoundTrip(lba, 4);
    BeRoundTrip(blocks, 2);
    assert c.bytes[2..6] == BeBytes(lba, 4);
    assert c.bytes[7..9] == BeBytes(blocks, 2);
  }

  datatype Cbw = Cbw(tag: nat, length: nat, flags: Byte, lun: Byte, command: Command)

  function NewCbw(tag: nat, length: nat, direction: Direction, command: Command): (r: Result<Cbw, UsbError>)
    ensures r.Ok? <==> 1 <= command.len <= 16 && length < U32
  {
    if !(1 <= command.len <= 16) then Err(InvalidCommand)
    else if length >= U32 then Err(InvalidCommand)
    else Ok(Cbw(tag, length, if direction == In then 0x80 else 0, 0, command))
  }

  function CbwBytes(c: Cbw): (s: seq<Byte>)
    requires Sized(c.command)
    ensures |s| == CBW_BYTES
  {
    LeBytes(CBW_SIGNATURE, 4) + LeBytes(c.tag, 4) + LeBytes(c.length, 4)
    + [c.flags, c.lun, c.command.len] + c.command.bytes
  }

  /** What a device reads out of a command wrapper. */
  function DecodeCbw(s: seq<Byte>): Option<Cbw> {
    if |s| != CBW_BYTES || LeValue(s[0..4]) != CBW_SIGNATURE then None
    else Some(Cbw(LeValue(s[4..8]), LeValue(s[8..12]), s[12], s[13], Command(s[15..31], s[14])))
  }

  /** A device reads back exactly the wrapper that was sent. */
  lemma CbwRoundTrip(c: Cbw)
    requires Sized(c.command) && c.tag < U32 && c.length < U32
    ensures DecodeCbw(CbwBytes(c)) == Some(c)
  {
    hide LeBytes, LeValue, Pow256;
    var s := CbwBytes(c);
    Widths();
    LeRoundTrip(CBW_SIGNATURE, 4);
    LeRoundTrip(c.tag, 4);
    LeRoundTrip(c.length, 4);
    assert s[0..4] == LeBytes(CBW_SIGNATURE, 4);
    assert s[4..8] == LeBytes(c.tag, 4);
    assert s[8..12] == LeBytes(c.length, 4);
    assert s[15..31] == c.command.bytes;
  }

  datatype Status = Passed | Failed | Phase

  datatype Csw = Csw(residue: nat, status: Status)

  function ParseCsw(s: seq<Byte>, tag: nat, length: nat): Result<Csw, UsbError> {
    if |s| != CSW_BYTES then Err(InvalidCsw)
    else if LeValue(s[0..4]) != CSW_SIGNATURE || LeValue(s[4..8]) != tag || LeValue(s[8..12]) > length
    then Err(InvalidCsw)
    else match s[12]
         case 0 => Ok(Csw(LeValue(s[8..12]), Passed))
         case 1 => Ok(Csw(LeValue(s[8..12]), Failed))
         case 2 => Ok(Csw(LeValue(s[8..12]), Phase))
         case _ => Err(InvalidCsw)
  }

  /** A status wrapper as a conforming device writes it. */
  function CswBytes(tag: nat, c: Csw): seq<Byte> {
    LeBytes(CSW_SIGNATURE, 4) + LeBytes(tag, 4) + LeBytes(c.residue, 4)
    + [match c.status case Passed => 0 case Failed => 1 case Phase => 2]
  }

  /** A status is accepted as `c` exactly when it is the wrapper a device writes for this tag with a residue
      no larger than the transfer. */
  lemma CswAcceptedIff(s: seq<Byte>, tag: nat, length: nat, c: Csw)
    requires tag < U32 && length < U32
    ensures ParseCsw(s, tag, length) == Ok(c) <==> c.residue <= length && s == CswBytes(tag, c)
  {
    hide LeBytes, LeValue, Pow256;
    Widths();
    if ParseCsw(s, tag, length) == Ok(c) {
      LeCanonical(s[0..4]);
      LeCanonical(s[4..8]);
      LeCanonical(s[8..12]);
      assert s == s[0..4] + s[4..8] + s[8..12] + [s[12]];
    }
    if c.residue <= length && s == CswBytes(tag, c) {
      LeRoundTrip(CSW_SIGNATURE, 4);
      LeRoundTrip(tag, 4);
      LeRoundTrip(c.residue, 4);
      assert s[0..4] == LeBytes(CSW_SIGNATURE, 4);
      assert s[4..8] == LeBytes(tag, 4);
      assert s[8..12] == LeBytes(c.residue, 4);
    }
  }

  /** The block count of a READ CAPACITY(10) answer; every block of an accepted drive has a 32-bit address. */
  function ParseCapacity(s: seq<Byte>): (r: Result<nat, UsbError>)
    ensures r.Ok? <==> |s| == 8 && BeValue(s[0..4]) != U32 - 1 && BeValue(s[4..8]) == BLOCK
    ensures r.Ok? ==> r.value == BeValue(s[0..4]) + 1 && 0 < r.value < U32
  {
    if |s| != 8 then Err(UnsupportedGeometry)
    else
      BeBound(s[0..4]); Widths();
      if BeValue(s[0..4]) == U32 - 1 || BeValue(s[4..8]) != BLOCK then Err(UnsupportedGeometry)
      else Ok(BeValue(s[0..4]) + 1)
  }
}
