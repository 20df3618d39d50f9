/** The GUID partition table of a drive: what its entries are and what reading them in order finds. */
module GptTable {
  import opened Arithmetic
  import opened PhysicalMemory
  import opened Disk

  /** The signature "EFI PART" as a little-endian number. */
  const SIGNATURE: int := 0x5452_4150_2049_4645

  /** Offset of the name in an entry. */
  const NAME_OFFSET: nat := 0x38

  /** What is kept of a used entry. */
  datatype Found = Found(start: nat, size: nat, attributes: nat, name: seq<Byte>)

  predicate EntrySize(n: int) {
    n == 128 || n == 256 || n == 512
  }

  // ----- the header in sector 1 -----

  predicate Signed(header: Sector) {
    LittleEndian(header[0..8]) == SIGNATURE
  }

  function TableStart(header: Sector): nat {
    LittleEndian(header[72..80])
  }

  function EntryCount(header: Sector): nat {
    LittleEndian(header[80..84])
  }

  function SizeOfEntry(header: Sector): nat {
    LittleEndian(header[84..88])
  }

  lemma LittleEndian8(bs: seq<Byte>)
    requires |bs| == 8
    ensures LittleEndian(bs) < TWO_64
  {
    LittleEndian4(bs[4..]);
    LittleEndian4(bs[..4]);
    SplitWords(bs);
  }

  lemma SplitWords(bs: seq<Byte>)
    requires |bs| == 8
    ensures LittleEndian(bs) == LittleEndian(bs[..4]) + TWO_32 * LittleEndian(bs[4..])
  {
    LittleEndian4(bs[..4]);
    assert LittleEndian(bs[3..]) == bs[3] as int + 0x100 * LittleEndian(bs[4..]) by { assert bs[3..][1..] == bs[4..]; }
    assert LittleEndian(bs[2..]) == bs[2] as int + 0x100 * LittleEndian(bs[3..]) by { assert bs[2..][1..] == bs[3..]; }
    assert LittleEndian(bs[1..]) == bs[1] as int + 0x100 * LittleEndian(bs[2..]) by { assert bs[1..][1..] == bs[2..]; }
  }

  // ----- entries -----

  /** An entry is used if its type is not all zeros. */
  predicate Used(entry: seq<Byte>)
    requires |entry| >= 16
  {
    exists j :: 0 <= j < 16 && entry[j] != 0
  }

  function Describe(entry: seq<Byte>): Found
    requires |entry| >= NAME_OFFSET
  {
    var (first, last) := (LittleEndian(entry[32..40]), LittleEndian(entry[40..48]));
    Found(first, (last - first) % TWO_64, LittleEndian(entry[48..56]), entry[NAME_OFFSET..])
  }

  /** A table of entries of one size from a sector on. */
  datatype Table = Table(content: int -> Sector, start: nat, size: nat) {

    /** How many sectors behind the first the i-th entry is. */
    function Ahead(i: nat): nat {
      if size == 128 then i / 4 else if size == 256 then i / 2 else i
    }

    function Offset(i: nat): (o: nat)
      requires EntrySize(size)
      ensures o + size <= SECTOR_SIZE
    {
      if size == 128 then 128 * (i % 4) else if size == 256 then 256 * (i % 2) else 0
    }

    lemma Position(i: nat)
      requires EntrySize(size)
      ensures (i * size) / 512 == Ahead(i) && (i * size) % 512 == Offset(i)
      ensures i > 0 ==> Ahead(i - 1) <= Ahead(i) <= Ahead(i - 1) + 1
    {
      if size == 128 {
        assert i * 128 == 512 * (i / 4) + 128 * (i % 4);
      } else if size == 256 {
        assert i * 256 == 512 * (i / 2) + 256 * (i % 2);
      }
    }

    /** The sector the i-th entry is in. */
    function Target(i: nat): nat {
      start + Ahead(i)
    }

    /** What the buffer holds when sector `t` of the table is wanted. Sector 0 counts as read from the
        beginning, although the buffer then holds the header. */
    function Seen(t: nat): Sector {
      if t == 0 then content(1) else content(t % TWO_32)
    }

    /** The i-th entry as it is found in the buffer. */
    function Entry(i: nat): (e: seq<Byte>)
      requires EntrySize(size)
      ensures |e| == size
    {
      Seen(Target(i))[Offset(i)..Offset(i) + size]
    }

    /** Numbers of the used entries before the n-th. */
    function Indices(n: nat): seq<nat>
      requires EntrySize(size)
    {
      if n == 0 then [] else Indices(n - 1) + if Used(Entry(n - 1)) then [n - 1] else []
    }

    /** Descriptions of the used entries before the n-th. */
    function UsedIn(n: nat): seq<Found>
      requires EntrySize(size)
    {
      if n == 0 then [] else UsedIn(n - 1) + if Used(Entry(n - 1)) then [Describe(Entry(n - 1))] else []
    }

    lemma UsedNext(n: nat)
      requires EntrySize(size)
      ensures UsedIn(n + 1) == if Used(Entry(n)) then UsedIn(n) + [Describe(Entry(n))] else UsedIn(n)
    {
    }

    /** Exactly the used entries. */
    lemma {:induction false} AllUsed(n: nat, i: nat)
      requires EntrySize(size)
      ensures i in Indices(n) <==> i < n && Used(Entry(i))
    {
      if n > 0 {
        AllUsed(n - 1, i);
        var before, more := Indices(n - 1), if Used(Entry(n - 1)) then [n - 1] else [];
        assert Indices(n) == before + more;
      }
    }

    /** In table order, each once. */
    lemma {:induction false} UsedInOrder(n: nat)
      requires EntrySize(size)
      ensures forall j, k :: 0 <= j < k < |Indices(n)| ==> Indices(n)[j] < Indices(n)[k] < n
    {
      if n > 0 {
        UsedInOrder(n - 1);
        var before := Indices(n - 1);
        forall j, k | 0 <= j < k < |Indices(n)| ensures Indices(n)[j] < Indices(n)[k] < n {
          AllUsed(n - 1, before[j]);
        }
      }
    }

    lemma {:induction false} UsedDescribed(n: nat)
      requires EntrySize(size)
      ensures |UsedIn(n)| == |Indices(n)|
      ensures forall k :: 0 <= k < |Indices(n)| ==> UsedIn(n)[k] == Describe(Entry(Indices(n)[k]))
    {
      if n > 0 {
        UsedDescribed(n - 1);
      }
    }

    /** How many sectors are read for the first n entries. */
    function Loads(n: nat): nat {
      if n == 0 then 0 else Loads(n - 1) + if Target(n - 1) != (if n == 1 then 0 else Target(n - 2)) then 1 else 0
    }

    /** As many as n entries occupy: every sector is read once. */
    lemma {:induction false} EachSectorOnce(n: nat)
      requires EntrySize(size) && start > 0
      ensures Loads(n) == (n * size + SECTOR_SIZE - 1) / SECTOR_SIZE
      ensures n > 0 ==> Loads(n) == Ahead(n - 1) + 1
    {
      if n > 0 {
        EachSectorOnce(n - 1);
        Position(n - 1);
        if n > 1 {
          Position(n - 2);
        }
        assert n * size == (n - 1) * size + size;
      }
    }

    // ----- the table as a stretch of bytes -----

    /** The b-th byte of the table. */
    function TableByte(b: nat): Byte {
      content((start + b / SECTOR_SIZE) % TWO_32)[b % SECTOR_SIZE]
    }

    /** The i-th entry is `size` bytes of the table, wherever the sectors end. */
    predicate Faithful(i: nat)
      requires EntrySize(size)
    {
      forall k :: 0 <= k < size ==> Entry(i)[k] == TableByte(i * size + k)
    }

    lemma ByteOfEntry(i: nat, k: nat)
      requires EntrySize(size) && k < size
      ensures i * size + k >= 0 && TableByte(i * size + k) == content(Target(i) % TWO_32)[Offset(i) + k]
    {
      Position(i);
      var b := i * size + k;
      assert b == 512 * Ahead(i) + (Offset(i) + k);
    }

    /** How many bytes of its first sector the first n entries take. */
    function InFirst(n: nat): (m: nat)
      ensures m <= SECTOR_SIZE
    {
      if n * size < SECTOR_SIZE then n * size else SECTOR_SIZE
    }

    lemma FaithfulEntry(n: nat, i: nat)
      requires EntrySize(size) && i < n && (start != 0 || content(0)[..InFirst(n)] == content(1)[..InFirst(n)])
      ensures Faithful(i)
    {
      Position(i);
      WholeEntries(n, i);
      forall k: nat | k < size ensures Entry(i)[k] == TableByte(i * size + k) {
        ByteOfEntry(i, k);
        assert Entry(i)[k] == Seen(Target(i))[Offset(i) + k];
        if Target(i) == 0 {
          assert content(0)[..InFirst(n)][Offset(i) + k] == content(1)[..InFirst(n)][Offset(i) + k];
        }
      }
    }

    /** An entry in the first sector lies within what the first n entries take of it. */
    lemma WholeEntries(n: nat, i: nat)
      requires EntrySize(size) && i < n
      ensures Ahead(i) == 0 ==> Offset(i) + size <= InFirst(n)
    {
      Position(i);
      assert (i + 1) * size <= n * size;
    }

    /** The first n entries are found as the table has them exactly when the table does not start in
        sector 0, or what they take of sector 0 is the same in the header. */
    lemma FaithfulExactlyWhen(n: nat)
      requires EntrySize(size)
      ensures (forall i: nat :: i < n ==> Faithful(i)) <==> start != 0 || content(0)[..InFirst(n)] == content(1)[..InFirst(n)]
    {
      if start != 0 || content(0)[..InFirst(n)] == content(1)[..InFirst(n)] {
        forall i: nat | i < n ensures Faithful(i) {
          FaithfulEntry(n, i);
        }
      }
      if start == 0 && forall i: nat :: i < n ==> Faithful(i) {
        forall b: nat | b < InFirst(n) ensures content(0)[b] == content(1)[b] {
          SectorZero(n, b);
        }
      }
    }

    /** Byte `b` of the table is in entry `i`, at `k`. */
    lemma InEntry(b: nat) returns (i: nat, k: nat)
      requires EntrySize(size)
      ensures k < size && 0 <= i * size && b == i * size + k
      ensures b < SECTOR_SIZE ==> Ahead(i) == 0 && Offset(i) + k == b
    {
      if size == 128 {
        i, k := b / 128, b % 128;
      } else if size == 256 {
        i, k := b / 256, b % 256;
      } else {
        i, k := b / 512, b % 512;
      }
    }

    lemma SectorZero(n: nat, b: nat)
      requires EntrySize(size) && start == 0 && b < InFirst(n) && (forall i: nat :: i < n ==> Faithful(i))
      ensures content(0)[b] == content(1)[b]
    {
      var i, k := InEntry(b);
      WithinEntries(n, i, k);
      assert Faithful(i);
      ByteOfEntry(i, k);
      assert Entry(i)[k] == TableByte(i * size + k);
    }

    lemma WithinEntries(n: nat, i: nat, k: nat)
      requires 0 <= i * size + k < n * size
      ensures i < n
    {
      if n <= i {
        MoreEntries(n, i);
      }
    }

    lemma MoreEntries(n: nat, i: nat)
      requires n <= i
      ensures n * size <= i * size
    {
      assert 0 <= (i - n) * size == i * size - n * size;
    }
  }

  /** A table in sector 0 whose first entry is not what is found. */
  lemma UnfaithfulTable() returns (t: Table)
    ensures t.start == 0 && t.size == 128 && !t.Faithful(0)
  {
    t := Table(n => if n == 1 then seq(SECTOR_SIZE, _ => 1) else seq(SECTOR_SIZE, _ => 0), 0, 128);
    assert t.Entry(0)[0] == 1 && t.TableByte(0 * t.size + 0) == 0;
  }

  /** The descriptions for which there was memory for a list node; `a` is the number of the first
      allocation, and every description takes three. */
  function Stored(found: seq<Found>, grants: int -> bool, a: int): seq<Found> {
    if found == [] then []
    else
      var k := |found| - 1;
      Stored(found[..k], grants, a) + if grants(a + 3 * k + 2) then [found[k]] else []
  }

  /** Nothing gets lost exactly when every node got its memory. */
  lemma {:induction false} AllStoredExactlyWhen(found: seq<Found>, grants: int -> bool, a: int)
    ensures |Stored(found, grants, a)| <= |found|
    ensures |Stored(found, grants, a)| == |found| <==> forall k :: 0 <= k < |found| ==> grants(a + 3 * k + 2)
    ensures |Stored(found, grants, a)| == |found| ==> Stored(found, grants, a) == found
  {
    if found != [] {
      var k := |found| - 1;
      AllStoredExactlyWhen(found[..k], grants, a);
      assert found == found[..k] + [found[k]];
    }
  }

  /** One more description behind the others. */
  lemma StoredAppend(before: seq<Found>, found: seq<Found>, d: Found, grants: int -> bool, a: int)
    ensures before + Stored(found + [d], grants, a)
            == before + Stored(found, grants, a) + if grants(a + 3 * |found| + 2) then [d] else []
  {
    assert (found + [d])[..|found|] == found;
  }
}
