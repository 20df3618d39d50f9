/** Drives and partitions: sectors of 512 bytes, read one at a time, any read of which may fail. */
module Disk {
  import opened PhysicalMemory

  const SECTOR_SIZE: int := 512

  /** 28-bit addressing ends here. */
  const LAST_LBA: int := 0x0FFF_FFFF

  type Sector = s: seq<Byte> | |s| == SECTOR_SIZE witness seq(SECTOR_SIZE, _ => 0)

  class Drive {
    const content: int -> Sector
    /** Whether the n-th request to the hardware fails. */
    const fails: int -> bool
    var requests: nat

    constructor (c: int -> Sector, f: int -> bool)
      ensures content == c && fails == f && requests == 0
    {
      content := c;
      fails := f;
      requests := 0;
    }

    /** Reads one sector; the number of sectors read. */
    method ReadSector(lba: Word, buffer: array<Byte>) returns (count: int)
      requires buffer.Length == SECTOR_SIZE
      modifies `requests, buffer
      ensures requests == old(requests) + (if lba <= LAST_LBA then 1 else 0)
      ensures count == if lba <= LAST_LBA && !fails(old(requests)) then 1 else 0
      ensures buffer[..] == if count == 1 then content(lba) else old(buffer[..])
    {
      if lba > LAST_LBA {
        return 0;
      }
      requests := requests + 1;
      if fails(requests - 1) {
        return 0;
      }
      var bytes := content(lba);
      var i := 0;
      while i < SECTOR_SIZE
        invariant 0 <= i <= SECTOR_SIZE
        invariant buffer[..i] == bytes[..i] && requests == old(requests) + 1
      {
        buffer[i] := bytes[i];
        i := i + 1;
      }
      count := 1;
    }
  }

  /** No request numbered from `a` up to but not including `b` fails. */
  ghost predicate NoFailure(fails: int -> bool, a: int, b: int) {
    forall n :: a <= n < b ==> !fails(n)
  }

  /** A stretch of a drive, as the partition table describes it. */
  datatype Extent = Extent(start: nat, size: nat, content: int -> Sector) {
    /** The drive address of a sector; the driver takes 32-bit addresses. */
    function Target(lba: nat): Word {
      (lba + start) % 0x1_0000_0000
    }

    /** The sector lies inside the partition and can be addressed. */
    predicate Reaches(lba: nat) {
      lba < size && Target(lba) <= LAST_LBA
    }

    function At(lba: nat): Sector {
      content(Target(lba))
    }
  }

  class Partition {
    const start: nat
    const size: nat
    const drive: Drive

    constructor (start: nat, size: nat, drive: Drive)
      ensures this.start == start && this.size == size && this.drive == drive
    {
      this.start := start;
      this.size := size;
      this.drive := drive;
    }

    function View(): Extent {
      Extent(start, size, drive.content)
    }

    /** Reads one sector of the partition; the number of sectors read. */
    method ReadSector(lba: nat, buffer: array<Byte>) returns (count: int)
      requires buffer.Length == SECTOR_SIZE
      modifies drive`requests, buffer
      ensures drive.requests == old(drive.requests) + (if View().Reaches(lba) then 1 else 0)
      ensures count == if View().Reaches(lba) && NoFailure(drive.fails, old(drive.requests), drive.requests) then 1 else 0
      ensures buffer[..] == if count == 1 then View().At(lba) else old(buffer[..])
    {
      if lba >= size {
        return 0;
      }
      count := drive.ReadSector((lba + start) % 0x1_0000_0000, buffer);
    }
  }
}
