/** Reading files of a FAT32 volume through a one-sector table cache and a one-sector file buffer. */
module FatFile {
  import opened PhysicalMemory
  import opened Disk
  import opened FatVolume
  import opened FatTable

  const EOF: int := -1

  class Fat {
    const partition: Partition
    const firstFatSector: nat
    const firstDataSector: nat
    const sectorsPerCluster: nat
    /** The table sector last read, and its number; 0 when the buffer holds none. */
    const fatBuffer: array<Byte>
    var fatSector: nat

    ghost const Repr: set<object> := {this, fatBuffer, partition.drive}

    function View(): Volume {
      Volume(partition.View(), firstFatSector, firstDataSector, sectorsPerCluster)
    }

    /** A table sector marked as present is the one on the disk. */
    ghost predicate Valid()
      reads this, fatBuffer
    {
      && View().Valid() && fatBuffer.Length == SECTOR_SIZE
      && (fatSector != 0 ==> View().extent.Reaches(fatSector) && fatBuffer[..] == View().extent.At(fatSector))
    }

    constructor (p: Partition, fat: nat, data: nat, spc: nat, buffer: array<Byte>)
      requires Volume(p.View(), fat, data, spc).Valid() && buffer.Length == SECTOR_SIZE
      ensures Valid() && partition == p && fatBuffer == buffer
      ensures View() == Volume(p.View(), fat, data, spc)
    {
      partition := p;
      firstFatSector := fat;
      firstDataSector := data;
      sectorsPerCluster := spc;
      fatBuffer := buffer;
      fatSector := 0;
    }

    function Requests(): nat
      reads partition.drive
    {
      partition.drive.requests
    }

    /** No request to the drive numbered from `a` up to but not including `b` fails. */
    ghost predicate Quiet(a: int, b: int) {
      NoFailure(partition.drive.fails, a, b)
    }

    /** The cluster after `c`, or the bad-cluster mark when the table could not be read. */
    method NextCluster(c: nat) returns (next: nat)
      requires Valid()
      modifies `fatSector, fatBuffer, partition.drive`requests
      ensures Valid() && old(Requests()) <= Requests()
      ensures next == if Quiet(old(Requests()), Requests()) then View().Entry(c) else BAD_CLUSTER
      ensures c < 0x4000_0000 ==>
                next == if Quiet(old(Requests()), Requests()) && TableReaches(View(), c) then TableLink(View(), c) else 0x0FFF_FFF7
    {
      if c < 0x4000_0000 {
        EntryInTable(View(), c);
      }
      var fatOffset := c * 4 % 0x1_0000_0000;
      var targetFatSector := firstFatSector + fatOffset / SECTOR_SIZE;
      var entryOffset := fatOffset % SECTOR_SIZE;

      if fatSector != targetFatSector {
        var count := partition.ReadSector(targetFatSector, fatBuffer);
        if count == 0 {
          fatSector := 0;
          return BAD_CLUSTER;
        }
        fatSector := targetFatSector;
      }

      LittleEndian4(fatBuffer[entryOffset..entryOffset + 4]);
      var tableValue := fatBuffer[entryOffset] as int + 0x100 * fatBuffer[entryOffset + 1] as int
                      + 0x1_0000 * fatBuffer[entryOffset + 2] as int + 0x100_0000 * fatBuffer[entryOffset + 3] as int;
      next := tableValue % CLUSTER_MASK;
      assert fatBuffer[..][entryOffset..entryOffset + 4] == fatBuffer[entryOffset..entryOffset + 4];
      assert next == LinkIn(fatBuffer[..], entryOffset);
    }
  }

  class File {
    const fat: Fat
    const buffer: array<Byte>
    const firstCluster: nat
    const size: nat
    var currentCluster: nat
    var clusterIndex: nat
    var currentSectorInCluster: nat
    var position: nat
    var eof: bool
    var error: bool

    constructor (fat: Fat, buffer: array<Byte>, cluster: nat, size: nat)
      requires buffer.Length == SECTOR_SIZE && buffer != fat.fatBuffer
      ensures this.fat == fat && this.buffer == buffer && firstCluster == cluster && this.size == size
      ensures Separate() && CursorValid() && position == 0 && !eof && !error
    {
      this.fat := fat;
      this.buffer := buffer;
      firstCluster := cluster;
      this.size := size;
      currentCluster := cluster;
      clusterIndex := 0;
      currentSectorInCluster := 0;
      position := 0;
      eof := false;
      error := false;
    }

    ghost predicate Separate()
    {
      buffer.Length == SECTOR_SIZE && buffer != fat.fatBuffer
    }

    /** The cursor names a cluster that is really at its place in the chain. */
    ghost predicate CursorValid()
      reads this
    {
      currentCluster == fat.View().Link(firstCluster, clusterIndex) && fat.View().Chained(firstCluster, clusterIndex)
    }

    /** Moves the cursor to place `target` of the chain, from where it is or, to go back, from the start. */
    method SeekCluster(target: nat) returns (found: bool)
      requires fat.Valid() && Separate() && CursorValid()
      modifies fat`fatSector, fat.fatBuffer, fat.partition.drive`requests, `currentCluster, `clusterIndex
      ensures fat.Valid() && old(fat.Requests()) <= fat.Requests()
      ensures found <==> fat.Quiet(old(fat.Requests()), fat.Requests()) && fat.View().Chained(firstCluster, target)
      ensures found ==> CursorValid() && clusterIndex == target
    {
      if target < clusterIndex {
        clusterIndex := 0;
        currentCluster := firstCluster;
      }
      found := true;
      while clusterIndex < target && found
        invariant fat.Valid() && clusterIndex <= target && old(fat.Requests()) <= fat.Requests()
        invariant found ==> CursorValid() && fat.Quiet(old(fat.Requests()), fat.Requests())
        invariant !found ==> !(fat.Quiet(old(fat.Requests()), fat.Requests()) && fat.View().Chained(firstCluster, target))
        decreases target - clusterIndex, found
      {
        if fat.View().Chained(firstCluster, target) {
          fat.View().ChainedPrefix(firstCluster, clusterIndex + 1, target);
        }
        found := Follow();
      }
    }

    /** Moves the cursor one link on; false at the end of the chain or when the table cannot be read. */
    method Follow() returns (ok: bool)
      requires fat.Valid() && Separate() && CursorValid()
      modifies fat`fatSector, fat.fatBuffer, fat.partition.drive`requests, `currentCluster, `clusterIndex
      ensures fat.Valid() && old(fat.Requests()) <= fat.Requests() && clusterIndex == old(clusterIndex) + 1
      ensures ok <==> fat.Quiet(old(fat.Requests()), fat.Requests()) && fat.View().Chained(firstCluster, clusterIndex)
      ensures ok ==> CursorValid()
    {
      clusterIndex := clusterIndex + 1;
      currentCluster := fat.NextCluster(currentCluster);
      ok := currentCluster < BAD_CLUSTER;
    }

    /** Brings the sector at `position` into the buffer. It succeeds exactly when no request fails
        and the sector can be reached; `EOF` otherwise. */
    method LoadFileBuffer() returns (r: int)
      requires fat.Valid() && Separate() && CursorValid()
      modifies fat`fatSector, fat.fatBuffer, fat.partition.drive`requests, buffer
      modifies `currentCluster, `clusterIndex, `currentSectorInCluster
      ensures fat.Valid() && old(fat.Requests()) <= fat.Requests()
      ensures r == 0 || r == EOF
      ensures r == 0 <==> fat.Quiet(old(fat.Requests()), fat.Requests()) && fat.View().Readable(firstCluster, position / SECTOR_SIZE)
      ensures r == 0 ==>
                && CursorValid() && clusterIndex == position / SECTOR_SIZE / fat.sectorsPerCluster
                && buffer[..] == fat.View().FileSector(firstCluster, position / SECTOR_SIZE)
    {
      var targetSector := position / SECTOR_SIZE;
      var targetClusterIndex := targetSector / fat.sectorsPerCluster;
      targetSector := targetSector % fat.sectorsPerCluster;

      var found := SeekCluster(targetClusterIndex);
      if !found {
        return EOF;
      }
      currentSectorInCluster := targetSector;
      r := ReadCluster();
    }

    /** Reads the cursor's sector of the cursor's cluster. */
    method ReadCluster() returns (r: int)
      requires fat.Valid() && Separate()
      modifies fat.partition.drive`requests, buffer
      ensures fat.Valid() && old(fat.Requests()) <= fat.Requests() && (r == 0 || r == EOF)
      ensures var lba := fat.View().Lba(currentCluster, currentSectorInCluster);
              && (r == 0 <==> fat.Quiet(old(fat.Requests()), fat.Requests()) && fat.View().extent.Reaches(lba))
              && (r == 0 ==> buffer[..] == fat.View().extent.At(lba))
    {
      var lba := (fat.firstDataSector + (currentCluster - 2) * fat.sectorsPerCluster + currentSectorInCluster) % 0x1_0000_0000;
      var count := fat.partition.ReadSector(lba, buffer);
      r := if count != 1 then EOF else 0;
    }

    /** Between calls the buffer holds the sector at `position`, unless the file is at its end or in error. */
    ghost predicate Valid()
      reads this, buffer, fat, fat.fatBuffer
    {
      && fat.Valid() && Separate() && position <= size
      && (!error ==> CursorValid() && (position < size ==> Buffered()))
    }

    ghost predicate Buffered()
      requires 0 < fat.sectorsPerCluster && buffer.Length == SECTOR_SIZE
      reads this, buffer, fat
    {
      buffer[..] == fat.View().FileSector(firstCluster, position / SECTOR_SIZE)
    }

    /** Every sector of the file can be reached. */
    ghost predicate Intact()
      requires 0 < fat.sectorsPerCluster
    {
      forall s :: 0 <= s && s * SECTOR_SIZE < size ==> fat.View().Readable(firstCluster, s)
    }

    /** Opening a file ends with loading its first sector. */
    method Open() returns (r: int)
      requires fat.Valid() && Separate() && CursorValid() && position == 0 && !error
      modifies fat`fatSector, fat.fatBuffer, fat.partition.drive`requests, buffer
      modifies `currentCluster, `clusterIndex, `currentSectorInCluster
      ensures r == 0 ==> Valid()
      ensures r == 0 <==> fat.Quiet(old(fat.Requests()), fat.Requests()) && fat.View().Readable(firstCluster, 0)
    {
      r := LoadFileBuffer();
    }

    /** Copies `n` bytes from the buffer and moves on by as many. */
    method CopyOut(buff: array<Byte>, at: nat, n: nat)
      requires fat.View().Valid() && Separate() && Buffered() && buff != buffer && at + n <= buff.Length
      requires position % SECTOR_SIZE + n <= SECTOR_SIZE && position + n <= size
      modifies buff, `position
      ensures position == old(position) + n
      ensures buff[..] == old(buff[..at]) + fat.View().Bytes(firstCluster, old(position), position) + old(buff[at + n..])
    {
      ghost var before := buff[..];
      var offset := position % SECTOR_SIZE;
      ghost var bytes := fat.View().Bytes(firstCluster, position, position + n);
      BytesInSector(fat.View(), firstCluster, position, n);
      var i := 0;
      while i < n
        invariant 0 <= i <= n && position == old(position)
        invariant Copied(before, at, bytes, i, buff[..])
      {
        assert buffer[offset + i] == buffer[..][offset..offset + n][i] == bytes[i];
        CopyStep(before, at, bytes, i, buff[..]);
        buff[at + i] := buffer[offset + i];
        i := i + 1;
      }
      assert bytes[..n] == bytes;
      position := position + n;
    }

    /** One round of the read loop: what the buffer still holds of the wanted bytes, and the next
        sector when the buffer is used up. */
    method ReadOn(buff: array<Byte>, at: nat, remaining: nat) returns (copied: nat, stop: bool)
      requires Valid() && !error && position < size && 0 < remaining
      requires buff != buffer && buff != fat.fatBuffer && at + remaining <= buff.Length
      modifies this, buffer, buff, fat`fatSector, fat.fatBuffer, fat.partition.drive`requests
      ensures Valid() && old(fat.Requests()) <= fat.Requests()
      ensures 0 < copied <= remaining && position == old(position) + copied
      ensures buff[..] == old(buff[..at]) + fat.View().Bytes(firstCluster, old(position), position) + old(buff[at + copied..])
      ensures stop <==> error || position == size
      ensures error ==> position < size && !(fat.Quiet(old(fat.Requests()), fat.Requests()) && Intact())
      ensures eof <==> old(eof) || (position == size && copied < remaining)
    {
      stop := false;
      var remainingInSector := SECTOR_SIZE - position % SECTOR_SIZE;
      copied := if remaining > remainingInSector then remainingInSector else remaining;
      copied := if copied > size - position then size - position else copied;
      SectorOf(position, copied);
      CopyOut(buff, at, copied);
      if position == size {
        if remaining > copied {
          eof := true;
        }
        stop := true;
      } else if copied >= remainingInSector {
        var r := LoadFileBuffer();
        if r != 0 {
          error := true;
          stop := true;
        }
      }
    }

    /** `n` of `wanted` bytes from position `start` on were read into `buff` at `at`, which held
        `before`; `quiet` requests had been made before, and `ended` was the end-of-file flag. */
    ghost predicate ReadSoFar(buff: array<Byte>, before: seq<Byte>, at: nat, wanted: nat, start: nat, quiet: int, ended: bool,
                              n: nat, stop: bool)
      reads this, buffer, buff, fat, fat.fatBuffer, fat.partition.drive
    {
      && Valid() && quiet <= fat.Requests()
      && n <= wanted && at + wanted <= |before| && position == start + n
      && buff[..] == before[..at] + fat.View().Bytes(firstCluster, start, position) + before[at + n..]
      && (stop <==> error || position == size)
      && (error ==> position < size && !(fat.Quiet(quiet, fat.Requests()) && Intact()))
      && (eof <==> ended || (position == size && n < wanted))
    }

    /** One more round. */
    method ReadMore(buff: array<Byte>, ghost before: seq<Byte>, at: nat, wanted: nat, ghost start: nat, ghost quiet: int,
                    ghost ended: bool, n: nat) returns (n': nat, stop: bool)
      requires buff != buffer && buff != fat.fatBuffer && n < wanted
      requires ReadSoFar(buff, before, at, wanted, start, quiet, ended, n, false)
      modifies this, buffer, buff, fat`fatSector, fat.fatBuffer, fat.partition.drive`requests
      ensures n < n' && ReadSoFar(buff, before, at, wanted, start, quiet, ended, n', stop)
    {
      ghost var middle, reached := buff[..], position;
      var copied;
      copied, stop := ReadOn(buff, at + n, wanted - n);
      BytesJoin(fat.View(), firstCluster, start, reached, position);
      ExtendCopy(before, middle, buff[..], at, fat.View().Bytes(firstCluster, start, reached),
                 fat.View().Bytes(firstCluster, reached, position));
      n' := n + copied;
    }

    /** Reads up to `wanted` bytes from the current position. */
    method Read(buff: array<Byte>, at: nat, wanted: nat) returns (n: nat)
      requires Valid() && buff != buffer && buff != fat.fatBuffer && at + wanted <= buff.Length
      modifies this, buffer, buff, fat`fatSector, fat.fatBuffer, fat.partition.drive`requests
      ensures Valid() && old(fat.Requests()) <= fat.Requests()
      ensures n <= wanted && position == old(position) + n
      ensures buff[..] == old(buff[..at]) + fat.View().Bytes(firstCluster, old(position), position) + old(buff[at + n..])
      ensures old(error) ==> error && n == 0
      ensures error && !old(error) ==> !(fat.Quiet(old(fat.Requests()), fat.Requests()) && Intact())
      ensures !error ==> n == if wanted < size - old(position) then wanted else size - old(position)
      ensures eof <==> old(eof) || old(position) == size || (!error && size - old(position) < wanted)
    {
      n := 0;
      if position == size {
        eof := true;
      } else if !error {
        ghost var before, start, quiet, ended := buff[..], position, fat.Requests(), eof;
        var stop := false;
        while n < wanted && !stop
          invariant ReadSoFar(buff, before, at, wanted, start, quiet, ended, n, stop)
        {
          n, stop := ReadMore(buff, before, at, wanted, start, quiet, ended, n);
        }
      }
    }
  }

  /** The first `i` of `bytes` were written over `before` from `at` on. */
  ghost predicate Copied(before: seq<Byte>, at: nat, bytes: seq<Byte>, i: nat, now: seq<Byte>) {
    at + i <= |before| && i <= |bytes| && now == before[..at] + bytes[..i] + before[at + i..]
  }

  lemma CopyStep(before: seq<Byte>, at: nat, bytes: seq<Byte>, i: nat, now: seq<Byte>)
    requires Copied(before, at, bytes, i, now) && i < |bytes| && at + i < |before|
    ensures |now| == |before| && Copied(before, at, bytes, i + 1, now[at + i := bytes[i]])
  {
  }

  lemma ExtendCopy(b0: seq<Byte>, b1: seq<Byte>, b2: seq<Byte>, at: nat, done: seq<Byte>, more: seq<Byte>)
    requires at + |done| + |more| <= |b0|
    requires b1 == b0[..at] + done + b0[at + |done|..]
    requires b2 == b1[..at + |done|] + more + b1[at + |done| + |more|..]
    ensures b2 == b0[..at] + (done + more) + b0[at + |done| + |more|..]
  {
  }

  /** Whether copying `n` bytes from `pos` on stays in the sector. */
  lemma SectorOf(pos: nat, n: nat)
    requires pos % SECTOR_SIZE + n <= SECTOR_SIZE
    ensures pos % SECTOR_SIZE + n < SECTOR_SIZE ==> (pos + n) / SECTOR_SIZE == pos / SECTOR_SIZE
  {
  }
}
