/** Drives with a GUID partition table written on them, and what reading them back finds. */
module GptImage {
  import opened Arithmetic
  import opened PhysicalMemory
  import opened Disk
  import opened GptTable
  import opened Gpt

  /** One entry of the table, as it was meant: the partition goes from sector `first` to sector `last`. */
  datatype Part = Part(typeGuid: seq<Byte>, guid: seq<Byte>, first: nat, last: nat, attributes: nat, name: seq<Byte>)

  predicate Sized(e: Part, size: nat) {
    && |e.typeGuid| == 16 && |e.guid| == 16 && e.first < TWO_64 && e.last < TWO_64 && e.attributes < TWO_64
    && 56 + |e.name| == size
  }

  /** The eight bytes of a number, least significant first. */
  function LongBytes(n: nat): (bs: seq<Byte>)
    requires n < TWO_64
    ensures |bs| == 8
  {
    WordBytes(n % TWO_32) + WordBytes(n / TWO_32)
  }

  lemma LongRoundTrip(n: nat)
    requires n < TWO_64
    ensures LittleEndian(LongBytes(n)) == n
  {
    var bs := LongBytes(n);
    SplitWords(bs);
    assert bs[..4] == WordBytes(n % TWO_32) && bs[4..] == WordBytes(n / TWO_32);
    WordRoundTrip(n % TWO_32);
    WordRoundTrip(n / TWO_32);
  }

  /** The bytes of an entry, by section 5.3.3 of the UEFI specification. */
  function EntryBytes(e: Part, size: nat): (bs: seq<Byte>)
    requires Sized(e, size)
    ensures |bs| == size
  {
    e.typeGuid + e.guid + LongBytes(e.first) + LongBytes(e.last) + LongBytes(e.attributes) + e.name
  }

  /** The fields of an entry are found where they were written. The size is that of the sectors before
      the last. */
  lemma EntryDescribed(e: Part, size: nat)
    requires Sized(e, size)
    ensures Describe(EntryBytes(e, size)) == Found(e.first, (e.last - e.first) % TWO_64, e.attributes, e.name)
    ensures Used(EntryBytes(e, size)) <==> exists j :: 0 <= j < 16 && e.typeGuid[j] != 0
  {
    var bs := EntryBytes(e, size);
    assert bs[32..40] == LongBytes(e.first) && bs[40..48] == LongBytes(e.last) && bs[48..56] == LongBytes(e.attributes);
    assert bs[56..] == e.name;
    LongRoundTrip(e.first);
    LongRoundTrip(e.last);
    LongRoundTrip(e.attributes);
    forall j | 0 <= j < 16
      ensures bs[j] == e.typeGuid[j]
    {
    }
  }

  // ----- the header -----

  const EFI_PART: seq<Byte> := [0x45, 0x46, 0x49, 0x20, 0x50, 0x41, 0x52, 0x54]

  lemma {:induction false} SameNumber(xs: seq<Byte>, ys: seq<Byte>)
    requires |xs| == |ys| && LittleEndian(xs) == LittleEndian(ys)
    ensures xs == ys
  {
    if xs != [] {
      LowDigit(xs[0], LittleEndian(xs[1..]), ys[0], LittleEndian(ys[1..]));
      SameNumber(xs[1..], ys[1..]);
      assert xs == [xs[0]] + xs[1..] && ys == [ys[0]] + ys[1..];
    }
  }

  lemma LowDigit(x: Byte, high: nat, y: Byte, high': nat)
    requires x + 0x100 * high == y + 0x100 * high'
    ensures x == y && high == high'
  {
  }

  lemma {:induction false} EfiPartNumber()
    ensures LittleEndian(EFI_PART) == SIGNATURE
  {
    SplitWords(EFI_PART);
    LittleEndian4(EFI_PART[..4]);
    LittleEndian4(EFI_PART[4..]);
  }

  /** A sector is taken for a header exactly when it begins with the letters EFI PART. */
  lemma {:induction false} SignedExactlyWhen(header: Sector)
    ensures Signed(header) <==> header[..8] == EFI_PART
  {
    EfiPartNumber();
    assert header[..8] == header[0..8];
    if Signed(header) {
      SameNumber(header[..8], EFI_PART);
    }
  }

  /** A header for a table of `count` entries of `size` bytes from sector `start` on. */
  ghost predicate Headed(header: Sector, start: nat, count: nat, size: nat) {
    && start < TWO_64 && count < TWO_32 && size < TWO_32
    && header[..8] == EFI_PART && header[72..80] == LongBytes(start)
    && header[80..84] == WordBytes(count) && header[84..88] == WordBytes(size)
  }

  lemma HeaderRead(header: Sector, start: nat, count: nat, size: nat)
    requires Headed(header, start, count, size)
    ensures Signed(header) && TableStart(header) == start && EntryCount(header) == count && SizeOfEntry(header) == size
  {
    SignedExactlyWhen(header);
    LongRoundTrip(start);
    WordRoundTrip(count);
    WordRoundTrip(size);
  }

  // ----- the whole table -----

  /** Byte `b` of the drive. */
  function DriveByte(content: int -> Sector, b: nat): Byte {
    content(b / 512)[b % 512]
  }

  /** These bytes are on the drive from byte `at` on. */
  ghost predicate BytesAt(content: int -> Sector, at: nat, bs: seq<Byte>) {
    forall k :: 0 <= k < |bs| ==> DriveByte(content, at + k) == bs[k]
  }

  ghost predicate EntryWritten(content: int -> Sector, start: nat, size: nat, e: Part, i: nat) {
    Sized(e, size) && 0 <= i * size && BytesAt(content, 512 * start + i * size, EntryBytes(e, size))
  }

  /** The table is on the drive: a header in sector 1, and the entries one behind the other from the
      first byte of sector `start` on. */
  ghost predicate Written(content: int -> Sector, start: nat, size: nat, parts: seq<Part>) {
    && EntrySize(size) && 2 <= start && start + |parts| <= LAST_LBA && Headed(content(1), start, |parts|, size)
    && forall i: nat :: i < |parts| ==> EntryWritten(content, start, size, parts[i], i)
  }

  predicate InUse(e: Part) {
    exists j :: 0 <= j < |e.typeGuid| && e.typeGuid[j] != 0
  }

  /** What is to be found of an entry. */
  function Kept(e: Part): seq<Found> {
    if InUse(e) then [Found(e.first, (e.last - e.first) % TWO_64, e.attributes, e.name)] else []
  }

  /** The entries in use. */
  function Expected(parts: seq<Part>): seq<Found> {
    if parts == [] then [] else Expected(parts[..|parts| - 1]) + Kept(parts[|parts| - 1])
  }

  lemma {:induction false} TableOnDrive(t: Table, b: nat)
    requires t.start + b / 512 < TWO_32
    ensures t.TableByte(b) == DriveByte(t.content, 512 * t.start + b)
  {
    assert (512 * t.start + b) / 512 == t.start + b / 512 && (512 * t.start + b) % 512 == b % 512;
  }

  lemma {:induction false} EntryByte(t: Table, i: nat, k: nat)
    requires EntrySize(t.size) && t.start + i < TWO_32 && k < t.size
    ensures 0 <= i * t.size && t.TableByte(i * t.size + k) == DriveByte(t.content, 512 * t.start + i * t.size + k)
  {
    EntryStart(t, i, k);
    TableOnDrive(t, i * t.size + k);
  }

  /** An entry of the table is the bytes written for it. */
  lemma {:induction false} EntryFound(t: Table, i: nat, bs: seq<Byte>)
    requires EntrySize(t.size) && 2 <= t.start && t.start + i < TWO_32 && |bs| == t.size && 0 <= i * t.size
    requires BytesAt(t.content, 512 * t.start + i * t.size, bs)
    ensures t.Entry(i) == bs
  {
    var e := t.Entry(i);
    t.FaithfulEntry(i + 1, i);
    forall k: nat | k < t.size
      ensures e[k] == bs[k]
    {
      EntryByte(t, i, k);
      assert e[k] == t.TableByte(i * t.size + k);
    }
    assert e == bs;
  }

  lemma EntryStart(t: Table, i: nat, k: nat)
    requires EntrySize(t.size) && k < t.size
    ensures 0 <= i * t.size + k && (i * t.size + k) / 512 <= i
  {
    t.Position(i);
    assert i * t.size + k <= i * 512 + 511;
  }

  lemma {:induction false} UsedNextIs(t: Table, parts: seq<Part>, i: nat)
    requires Written(t.content, t.start, t.size, parts) && i < |parts|
    ensures t.UsedIn(i + 1) == t.UsedIn(i) + Kept(parts[i])
  {
    assert EntryWritten(t.content, t.start, t.size, parts[i], i);
    EntryFound(t, i, EntryBytes(parts[i], t.size));
    KeptIs(t, i, parts[i]);
  }

  lemma {:induction false} KeptOf(bs: seq<Byte>, e: Part, size: nat)
    requires EntrySize(size) && Sized(e, size) && bs == EntryBytes(e, size)
    ensures (if Used(bs) then [Describe(bs)] else []) == Kept(e)
  {
    EntryDescribed(e, size);
  }

  lemma {:induction false} KeptIs(t: Table, i: nat, e: Part)
    requires EntrySize(t.size) && Sized(e, t.size) && t.Entry(i) == EntryBytes(e, t.size)
    ensures t.UsedIn(i + 1) == t.UsedIn(i) + Kept(e)
  {
    var bs := t.Entry(i);
    KeptOf(bs, e, t.size);
    assert t.UsedIn(i + 1) == t.UsedIn(i) + if Used(bs) then [Describe(bs)] else [];
  }

  lemma {:induction false} UsedExpected(t: Table, parts: seq<Part>, n: nat)
    requires Written(t.content, t.start, t.size, parts) && n <= |parts|
    ensures t.UsedIn(n) == Expected(parts[..n])
  {
    if n > 0 {
      UsedExpected(t, parts, n - 1);
      UsedNextIs(t, parts, n - 1);
      assert parts[..n][..n - 1] == parts[..n - 1];
    }
  }

  /** Nothing is out of reach of the drive. */
  lemma TargetsReached(t: Table, n: nat)
    requires EntrySize(t.size) && t.start + n <= LAST_LBA
    ensures forall i: nat :: i < n ==> t.Target(i) % TWO_32 <= LAST_LBA
  {
    forall i: nat | i < n
      ensures t.Target(i) % TWO_32 <= LAST_LBA
    {
      t.Position(i);
      EntryStart(t, i, 0);
    }
  }

  /** Reading a drive with a table on it, when nothing is refused, appends the entries in use, in order,
      with the fields that were written. */
  lemma {:induction false} ImageRead(reader: Reader, start: nat, size: nat, parts: seq<Part>, done: nat, r: int, a: int, before: seq<Found>)
    requires Written(reader.drive.content, start, size, parts)
    requires var t := Table(reader.drive.content, start, size); Signed(t.content(1)) && reader.Finished(done, t, r, a, before)
    requires (forall n :: !reader.drive.fails(n)) && (forall n :: reader.memory.grants(n))
    ensures reader.partitions.values == before + Expected(parts) && reader.partitionCount == |Expected(parts)|
  {
    var t := Table(reader.drive.content, start, size);
    HeaderRead(t.content(1), start, |parts|, size);
    TargetsReached(t, |parts|);
    reader.Complete(done, t, r, a, before);
    UsedExpected(t, parts, |parts|);
    assert parts[..|parts|] == parts;
  }

  // ----- the last sector -----

  lemma ExtentReaches(first: nat, last: nat, content: int -> Sector, s: nat)
    requires first <= s <= last <= LAST_LBA
    ensures Extent(first, last - first, content).Reaches(s - first) <==> s < last
  {
  }

  lemma SmallLong(x: nat)
    requires x < TWO_64
    ensures x % TWO_64 == x
  {
  }

  lemma {:induction false} SizeKept(e: Part, size: nat)
    requires Sized(e, size) && e.first <= e.last
    ensures var found := Describe(EntryBytes(e, size)); found.start == e.first && found.size == e.last - e.first
  {
    EntryDescribed(e, size);
    SmallLong(e.last - e.first);
  }

  /** The size kept of a partition is one short: of its sectors first .. last, all can be read but the last. */
  lemma ReadableExactlyWhen(e: Part, size: nat, content: int -> Sector, s: nat)
    requires Sized(e, size) && e.first <= s <= e.last <= LAST_LBA
    ensures var found := Describe(EntryBytes(e, size));
            Extent(found.start, found.size, content).Reaches(s - e.first) <==> s < e.last
  {
    SizeKept(e, size);
    ExtentReaches(e.first, e.last, content, s);
  }

  /** The only sector of a one-sector partition cannot be read. */
  lemma LastSectorRefused(content: int -> Sector) returns (e: Part)
    ensures Sized(e, 128) && e.first == e.last == 34
    ensures var found := Describe(EntryBytes(e, 128)); found.start == 34 && !Extent(found.start, found.size, content).Reaches(0)
  {
    e := Part(seq(16, _ => 1), seq(16, _ => 0), 34, 34, 0, seq(72, _ => 0));
    EntryDescribed(e, 128);
  }
}
