/** Reading the partition table: a walk over cached sectors that appends to a linked list. */
module Gpt {
  import opened Arithmetic
  import opened PhysicalMemory
  import opened Disk
  import opened GptTable
  import opened LinkedList

  /** Memory allocation: whether the n-th request is granted. */
  class Allocator {
    const grants: int -> bool
    var requests: nat

    constructor (g: int -> bool)
      ensures grants == g && requests == 0
    {
      grants := g;
      requests := 0;
    }

    method Malloc() returns (granted: bool)
      modifies `requests
      ensures requests == old(requests) + 1 && granted == grants(old(requests))
    {
      requests := requests + 1;
      granted := grants(requests - 1);
    }
  }

  /** The table that the header of a drive describes. */
  function TableOf(drive: Drive): Table {
    var header := drive.content(1);
    Table(drive.content, TableStart(header), SizeOfEntry(header))
  }

  method IsUsed(buffer: array<Byte>, offset: nat) returns (present: bool)
    requires offset + 16 <= buffer.Length
    ensures present <==> Used(buffer[offset..offset + 16])
  {
    ghost var typeGuid := buffer[offset..offset + 16];
    present := false;
    var j := 0;
    while j < 16
      invariant 0 <= j <= 16
      invariant present <==> exists k :: 0 <= k < j && typeGuid[k] != 0
    {
      assert typeGuid[j] == buffer[offset + j];
      if buffer[offset + j] != 0 {
        present := true;
      }
      j := j + 1;
    }
  }

  lemma UsedByType(entry: seq<Byte>)
    requires |entry| >= 16
    ensures Used(entry) <==> Used(entry[..16])
  {
    forall j | 0 <= j < 16 ensures entry[j] == entry[..16][j] {
    }
  }

  /** The fields of an entry that are kept. */
  method CopyEntry(entry: seq<Byte>) returns (found: Found)
    requires |entry| >= NAME_OFFSET
    ensures found == Describe(entry)
  {
    var first, last := LittleEndian(entry[32..40]), LittleEndian(entry[40..48]);
    found := Found(first, (last - first) % TWO_64, LittleEndian(entry[48..56]), entry[NAME_OFFSET..]);
  }

  /** A sector number that was read is far from wrapping around at 64 bits. */
  lemma ReadIsBelow(t: nat)
    requires t < TWO_64 && t % TWO_32 <= LAST_LBA
    ensures t + 1 < TWO_64
  {
  }

  class Reader {
    const drive: Drive
    const memory: Allocator
    const partitions: List<Found>
    var partitionCount: int

    constructor (drive: Drive, memory: Allocator, partitions: List<Found>)
      ensures this.drive == drive && this.memory == memory && this.partitions == partitions && partitionCount == 0
    {
      this.drive, this.memory, this.partitions := drive, memory, partitions;
      partitionCount := 0;
    }

    /** Behind the values `before`, the list holds what could be stored of `found`; `a` allocations
        had been made before. */
    ghost predicate Holds(found: seq<Found>, a: int, before: seq<Found>)
      reads this, partitions
    {
      && partitions.values == before + Stored(found, memory.grants, a)
      && partitionCount == |found|
    }

    /** The outcome of reading the table, from a point where `r` requests had been made to the drive
        and `a` to the allocator: without a signed header nothing is found; otherwise the used entries
        among the first `done` are kept, and these are all entries unless the next was refused. Each
        sector was then read once. */
    ghost predicate Finished(done: nat, t: Table, r: int, a: int, before: seq<Found>)
      requires Signed(t.content(1)) ==> EntrySize(t.size)
      reads this, drive, memory, partitions
    {
      var header := t.content(1);
      if drive.fails(r) || !Signed(header) then
        Holds([], a, before)
      else
        && done <= EntryCount(header) && Holds(t.UsedIn(done), a, before)
        && if done < EntryCount(header) then Refused(done, t) else drive.requests == r + 1 + t.Loads(done)
    }

    /** Every sector of the first `i` entries was read; `r` requests had been made to the drive before
        them, and the buffer now holds sector `lba`. */
    ghost predicate Cached(i: nat, lba: nat, bytes: seq<Byte>, t: Table, r: int)
      reads drive
    {
      && lba == (if i == 0 then 0 else t.Target(i - 1)) && bytes == t.Seen(lba)
      && (i > 0 ==> lba < TWO_64 && lba % TWO_32 <= LAST_LBA)
      && drive.requests == r + t.Loads(i) && NoFailure(drive.fails, r, drive.requests)
    }

    /** The i-th entry could not be read or stored. */
    ghost predicate Refused(i: nat, t: Table)
      reads drive, memory
    {
      t.Target(i) % TWO_32 > LAST_LBA || drive.fails(drive.requests - 1) || LastRefused()
    }

    /** One of the last two allocations was refused. */
    ghost predicate LastRefused()
      reads memory
    {
      !memory.grants(memory.requests - 2) || !memory.grants(memory.requests - 1)
    }

    /** Where the i-th entry is; the 64-bit sum cannot wrap around once the sector before was read. */
    lemma EntryPosition(i: nat, lba: nat, t: Table)
      requires EntrySize(t.size) && t.start < TWO_64 && lba == (if i == 0 then 0 else t.Target(i - 1))
      requires i > 0 ==> lba < TWO_64 && lba % TWO_32 <= LAST_LBA
      ensures (i * t.size / SECTOR_SIZE + t.start) % TWO_64 == t.Target(i) < TWO_64 && i * t.size % SECTOR_SIZE == t.Offset(i)
      ensures t.Target(i) == 0 ==> lba == 0
      ensures t.Loads(i + 1) == t.Loads(i) + if lba != t.Target(i) then 1 else 0
    {
      t.Position(i);
      if i > 0 {
        ReadIsBelow(lba);
      }
    }

    /** Makes sure that the buffer holds the sector of the i-th entry. */
    method LoadSector(i: nat, lba: nat, buffer: array<Byte>, lbaStart: nat, entrySize: nat, ghost t: Table, ghost r: int)
      returns (lba': nat, ok: bool)
      requires buffer.Length == SECTOR_SIZE && t == Table(drive.content, lbaStart, entrySize) && EntrySize(entrySize)
      requires lbaStart < TWO_64 && Cached(i, lba, buffer[..], t, r)
      modifies drive`requests, buffer
      ensures if ok then Cached(i + 1, lba', buffer[..], t, r) else t.Target(i) % TWO_32 > LAST_LBA || drive.fails(drive.requests - 1)
    {
      EntryPosition(i, lba, t);
      lba' := (i * entrySize / SECTOR_SIZE + lbaStart) % TWO_64;
      ok := true;
      if lba != lba' {
        var count := drive.ReadSector(lba' % TWO_32, buffer);
        ok := count != 0;
      }
    }

    /** Asks for the memory of a partition and of its name. */
    method AskMemory() returns (ok: bool)
      modifies memory`requests
      ensures memory.requests == old(memory.requests) + 2
      ensures ok <==> memory.grants(old(memory.requests)) && memory.grants(old(memory.requests) + 1)
      ensures !ok ==> LastRefused()
    {
      var partitionGranted := memory.Malloc();
      var nameGranted := memory.Malloc();
      assert memory.requests - 2 == old(memory.requests);
      ok := partitionGranted && nameGranted;
    }

    /** Appends a partition, if there is memory for the list node. */
    method Append(d: Found)
      requires partitions.Valid()
      modifies `partitionCount, memory`requests, partitions, partitions.nodes
      ensures partitions.Valid() && fresh(set n | n in partitions.nodes && n !in old(partitions.nodes))
      ensures memory.requests == old(memory.requests) + 1 && partitionCount == old(partitionCount) + 1
      ensures partitions.values == old(partitions.values) + if memory.grants(old(memory.requests)) then [d] else []
    {
      var granted := memory.Malloc();
      var _ := partitions.AddTail(d, granted);
      partitionCount := partitionCount + 1;
    }

    /** Appends the description of a used entry. */
    method KeepEntry(entry: seq<Byte>) returns (ok: bool)
      requires |entry| >= NAME_OFFSET && partitions.Valid()
      modifies `partitionCount, memory`requests, partitions, partitions.nodes
      ensures partitions.Valid() && fresh(set n | n in partitions.nodes && n !in old(partitions.nodes))
      ensures ok ==> memory.requests == old(memory.requests) + 3 && partitionCount == old(partitionCount) + 1
      ensures ok ==> partitions.values == old(partitions.values)
                     + if memory.grants(old(memory.requests) + 2) then [Describe(entry)] else []
      ensures !ok ==> partitions.values == old(partitions.values) && partitionCount == old(partitionCount) && LastRefused()
    {
      ok := AskMemory();
      if ok {
        var d := CopyEntry(entry);
        Append(d);
      }
    }

    /** Keeps an entry if it is used. */
    method TakeEntry(buffer: array<Byte>, offset: nat, entrySize: nat, ghost found: seq<Found>, ghost a: int, ghost before: seq<Found>)
      returns (ok: bool)
      requires EntrySize(entrySize) && offset + entrySize <= buffer.Length
      requires partitions.Valid() && Holds(found, a, before) && memory.requests == a + 3 * |found|
      modifies `partitionCount, memory`requests, partitions, partitions.nodes
      ensures partitions.Valid() && fresh(set n | n in partitions.nodes && n !in old(partitions.nodes))
      ensures var entry := buffer[offset..offset + entrySize];
              var found' := if Used(entry) then found + [Describe(entry)] else found;
              if ok then Holds(found', a, before) && memory.requests == a + 3 * |found'|
              else Holds(found, a, before) && LastRefused()
    {
      ok := true;
      var entry := buffer[offset..offset + entrySize];
      assert buffer[offset..offset + 16] == entry[..16];
      UsedByType(entry);
      var used := IsUsed(buffer, offset);
      if used {
        StoredAppend(before, found, Describe(entry), memory.grants, a);
        ok := KeepEntry(entry);
      }
    }

    /** One round of the loop. */
    method ReadEntry(i: nat, lba: nat, buffer: array<Byte>, lbaStart: nat, entrySize: nat,
                     ghost t: Table, ghost r: int, ghost a: int, ghost before: seq<Found>) returns (lba': nat, ok: bool)
      requires buffer.Length == SECTOR_SIZE && t == Table(drive.content, lbaStart, entrySize) && EntrySize(entrySize)
      requires lbaStart < TWO_64 && Cached(i, lba, buffer[..], t, r)
      requires partitions.Valid() && Holds(t.UsedIn(i), a, before) && memory.requests == a + 3 * |t.UsedIn(i)|
      modifies `partitionCount, memory`requests, partitions, partitions.nodes, drive`requests, buffer
      ensures partitions.Valid() && fresh(set n | n in partitions.nodes && n !in old(partitions.nodes))
      ensures ok ==> Cached(i + 1, lba', buffer[..], t, r)
      ensures ok ==> Holds(t.UsedIn(i + 1), a, before) && memory.requests == a + 3 * |t.UsedIn(i + 1)|
      ensures !ok ==> Holds(t.UsedIn(i), a, before) && Refused(i, t)
    {
      t.Position(i);
      lba', ok := LoadSector(i, lba, buffer, lbaStart, entrySize, t, r);
      if ok {
        var offset := i * entrySize % SECTOR_SIZE;
        assert buffer[offset..offset + entrySize] == t.Entry(i);
        t.UsedNext(i);
        ok := TakeEntry(buffer, offset, entrySize, t.UsedIn(i), a, before);
      }
    }

    /** The loop has come to entry `i`; without `ok`, that entry was refused. */
    ghost predicate Reading(i: nat, ok: bool, lba: nat, bytes: seq<Byte>, t: Table, r: int, a: int, before: seq<Found>)
      requires EntrySize(t.size)
      reads this, drive, memory, partitions
    {
      && Holds(t.UsedIn(i), a, before)
      && if ok then Cached(i, lba, bytes, t, r) && memory.requests == a + 3 * |t.UsedIn(i)| else Refused(i, t)
    }

    /** The loop body: on to the next entry, unless this one is refused. */
    method ReadOn(i: nat, lba: nat, buffer: array<Byte>, lbaStart: nat, entrySize: nat,
                  ghost t: Table, ghost r: int, ghost a: int, ghost before: seq<Found>) returns (i': nat, lba': nat, ok: bool)
      requires buffer.Length == SECTOR_SIZE && t == Table(drive.content, lbaStart, entrySize) && EntrySize(entrySize)
      requires lbaStart < TWO_64 && partitions.Valid() && Reading(i, true, lba, buffer[..], t, r, a, before)
      modifies `partitionCount, memory`requests, partitions, partitions.nodes, drive`requests, buffer
      ensures partitions.Valid() && fresh(set n | n in partitions.nodes && n !in old(partitions.nodes))
      ensures i' == (if ok then i + 1 else i) && Reading(i', ok, lba', buffer[..], t, r, a, before)
    {
      i' := i;
      lba', ok := ReadEntry(i, lba, buffer, lbaStart, entrySize, t, r, a, before);
      if ok {
        i' := i + 1;
      }
    }

    /** Reads the entries of a table whose header has been read. */
    method ReadEntries(buffer: array<Byte>, lbaStart: nat, entryCount: nat, entrySize: nat,
                       ghost t: Table, ghost before: seq<Found>) returns (ghost done: nat)
      requires buffer.Length == SECTOR_SIZE && t == Table(drive.content, lbaStart, entrySize) && EntrySize(entrySize)
      requires lbaStart < TWO_64 && buffer[..] == t.Seen(0)
      requires partitions.Valid() && Holds([], memory.requests, before)
      modifies `partitionCount, memory`requests, partitions, partitions.nodes, drive`requests, buffer
      ensures partitions.Valid() && fresh(set n | n in partitions.nodes && n !in old(partitions.nodes))
      ensures done <= entryCount && Holds(t.UsedIn(done), old(memory.requests), before)
      ensures if done < entryCount then Refused(done, t)
              else drive.requests == old(drive.requests) + t.Loads(done)
    {
      ghost var r, a := drive.requests, memory.requests;
      var i, lba, ok := 0, 0, true;
      while ok && i < entryCount
        invariant i <= entryCount && (ok || i < entryCount)
        invariant partitions.Valid() && fresh(set n | n in partitions.nodes && n !in old(partitions.nodes))
        invariant Reading(i, ok, lba, buffer[..], t, r, a, before)
        decreases ok, entryCount - i
      {
        i, lba, ok := ReadOn(i, lba, buffer, lbaStart, entrySize, t, r, a, before);
      }
      done := i;
    }

    method ReadHeader(buffer: array<Byte>) returns (ok: bool, lbaStart: nat, entryCount: nat, entrySize: nat)
      requires buffer.Length == SECTOR_SIZE
      modifies drive`requests, buffer
      ensures drive.requests == old(drive.requests) + 1
      ensures ok <==> !drive.fails(old(drive.requests)) && Signed(drive.content(1))
      ensures ok ==> buffer[..] == drive.content(1) && TableOf(drive) == Table(drive.content, lbaStart, entrySize)
      ensures ok ==> entryCount == EntryCount(drive.content(1)) && lbaStart < TWO_64
    {
      lbaStart, entryCount, entrySize := 0, 0, 0;
      var count := drive.ReadSector(1, buffer);
      ok := count != 0;
      if ok {
        var header := buffer[..];
        assert header == drive.content(1);
        LittleEndian8(header[72..80]);
        ok := LittleEndian(header[0..8]) == SIGNATURE;
        lbaStart, entryCount, entrySize := LittleEndian(header[72..80]), LittleEndian(header[80..84]), LittleEndian(header[84..88]);
      }
    }

    /** Reads header and entries into a buffer. */
    method ReadTable(ghost t: Table, ghost before: seq<Found>) returns (ghost done: nat)
      requires partitions.Valid() && Holds([], memory.requests, before) && t == TableOf(drive)
      requires Signed(drive.content(1)) ==> EntrySize(t.size)
      modifies `partitionCount, memory`requests, partitions, partitions.nodes, drive`requests
      ensures partitions.Valid() && fresh(set n | n in partitions.nodes && n !in old(partitions.nodes))
      ensures Finished(done, t, old(drive.requests), old(memory.requests), before)
    {
      done := 0;
      var buffer := new Byte[512];
      var ok, lbaStart, entryCount, entrySize := ReadHeader(buffer);
      if ok {
        done := ReadEntries(buffer, lbaStart, entryCount, entrySize, t, before);
      }
    }

    /** Reads the partition table of the drive; `done` is the number of entries that were looked at. */
    method ReadGpt(ghost t: Table) returns (ghost done: nat)
      requires partitions.Valid() && t == TableOf(drive)
      requires Signed(drive.content(1)) ==> EntrySize(t.size)
      modifies `partitionCount, memory`requests, partitions, partitions.nodes, drive`requests
      ensures partitions.Valid() && fresh(set n | n in partitions.nodes && n !in old(partitions.nodes))
      ensures if memory.grants(old(memory.requests))
              then Finished(done, t, old(drive.requests), old(memory.requests) + 1, old(partitions.values))
              else partitions.values == old(partitions.values) && partitionCount == old(partitionCount)
    {
      done := 0;
      var granted := memory.Malloc();
      if granted {
        partitionCount := 0;
        done := ReadTable(t, partitions.values);
      }
    }

    /** If nothing was refused, all used entries were appended in table order, their number is right,
        and each sector of the table was read exactly once. */
    lemma Complete(done: nat, t: Table, r: int, a: int, before: seq<Found>)
      requires Signed(t.content(1)) && EntrySize(t.size) && t.start > 0 && Finished(done, t, r, a, before)
      requires (forall n :: !drive.fails(n)) && (forall n :: memory.grants(n))
      requires forall i: nat :: i < EntryCount(t.content(1)) ==> t.Target(i) % TWO_32 <= LAST_LBA
      ensures var n := EntryCount(t.content(1));
              && partitions.values == before + t.UsedIn(n) && partitionCount == |partitions.values| - |before|
              && drive.requests == r + 1 + (n * t.size + SECTOR_SIZE - 1) / SECTOR_SIZE
    {
      t.EachSectorOnce(done);
      AllStoredExactlyWhen(t.UsedIn(done), memory.grants, a);
    }
  }
}
