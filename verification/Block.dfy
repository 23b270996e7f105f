/** The block layer's range gate and the single-sector read that FAT32 performs through it. */
module Block {
  import opened Common

  const SECTOR_SIZE := 512

  datatype BlockError = InvalidBuffer | OutOfRange | Busy | Unsupported | Io

  /** A registered device: its published geometry and what its driver returns for each block.
      A block the driver fails to read is absent. */
  datatype Device = Device(blockSize: nat, blockCount: nat, blocks: map<nat, seq<Byte>>)

  predicate ValidDevice(d: Device) {
    d.blockSize > 0 && d.blockCount < U64 && forall lba :: lba in d.blocks ==> |d.blocks[lba]| == d.blockSize
  }

  /** `validate_transfer`: whole blocks only, and the last block within the device. */
  function ValidateTransfer(d: Device, lba: nat, length: nat): Result<(), BlockError>
    requires d.blockSize > 0
  {
    if length == 0 || length % d.blockSize != 0 then Err(InvalidBuffer)
    else if lba + length / d.blockSize >= U64 then Err(OutOfRange)
    else if lba + length / d.blockSize > d.blockCount then Err(OutOfRange)
    else Ok(())
  }

  /** `BlockDeviceHandle::read` into a one-block buffer. */
  function ReadBlock(d: Device, lba: nat): (r: Result<seq<Byte>, BlockError>)
    requires ValidDevice(d)
    ensures r.Ok? ==> |r.value| == d.blockSize && lba < d.blockCount
  {
    var gate := ValidateTransfer(d, lba, d.blockSize);
    if gate.Err? then Err(gate.error)
    else if lba in d.blocks then Ok(d.blocks[lba])
    else Err(Io)
  }

  /** Inside the device the gate never refuses, so only the driver can fail the read. */
  lemma InRangeReadsReachDriver(d: Device, lba: nat)
    requires ValidDevice(d) && lba < d.blockCount
    ensures ReadBlock(d, lba) == if lba in d.blocks then Ok(d.blocks[lba]) else Err(Io)
  {
    assert d.blockSize % d.blockSize == 0 && d.blockSize / d.blockSize == 1;
  }
}
