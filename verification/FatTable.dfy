/** Where the links and the bytes of a file stand on the disk, in bytes of the allocation table and of the data area. */
module FatTable {
  import opened PhysicalMemory
  import opened Disk
  import opened FatVolume

  /** Byte `b` of the allocation table, whose sectors lie one behind the other. */
  function TableByte(v: Volume, b: nat): Byte {
    v.extent.At(v.firstFatSector + b / 512)[b % 512]
  }

  /** The link of cluster `c`: the low 28 bits of the little-endian number in bytes 4c .. 4c + 3 of the table. */
  function TableLink(v: Volume, c: nat): nat {
    (TableByte(v, 4 * c) + 0x100 * TableByte(v, 4 * c + 1) + 0x1_0000 * TableByte(v, 4 * c + 2)
     + 0x100_0000 * TableByte(v, 4 * c + 3)) % 0x1000_0000
  }

  /** The table sector with the link of cluster `c` can be read. */
  predicate TableReaches(v: Volume, c: nat) {
    v.extent.Reaches(v.firstFatSector + 4 * c / 512)
  }

  lemma SameTableSector(c: nat, k: nat)
    requires k < 4
    ensures (4 * c + k) / 512 == 4 * c / 512 && (4 * c + k) % 512 == 4 * c % 512 + k <= 508 + k
  {
    var (q, r) := (c / 128, c % 128);
    InSector(q, 4 * r);
    InSector(q, 4 * r + k);
    assert 4 * c == 512 * q + 4 * r && 4 * c + k == 512 * q + (4 * r + k);
  }

  lemma InSector(q: nat, o: nat)
    requires o < 512
    ensures (512 * q + o) / 512 == q && (512 * q + o) % 512 == o
  {
  }

  lemma PlaceInTable(v: Volume, c: nat)
    requires c < 0x4000_0000
    ensures v.FatSector(c) == v.firstFatSector + 4 * c / 512 && v.FatOffset(c) == 4 * c % 512
  {
    assert c * 4 % 0x1_0000_0000 == 4 * c;
  }

  /** The four bytes of a link stand together in one sector. */
  lemma LinkBytes(v: Volume, c: nat, o: nat)
    requires o == 4 * c % 512
    ensures o <= 508 && v.extent.At(v.firstFatSector + 4 * c / 512)[o..o + 4]
            == [TableByte(v, 4 * c), TableByte(v, 4 * c + 1), TableByte(v, 4 * c + 2), TableByte(v, 4 * c + 3)]
  {
    SameTableSector(c, 0);
    SameTableSector(c, 1);
    SameTableSector(c, 2);
    SameTableSector(c, 3);
  }

  /** What follows a cluster is the number in its four bytes of the table, or the bad-cluster mark if
      they cannot be read. */
  lemma {:induction false} EntryInTable(v: Volume, c: nat)
    requires c < 0x4000_0000
    ensures v.Entry(c) == if TableReaches(v, c) then TableLink(v, c) else 0x0FFF_FFF7
  {
    var o := v.FatOffset(c);
    PlaceInTable(v, c);
    LinkBytes(v, c, o);
    LittleEndian4(v.extent.At(v.firstFatSector + 4 * c / 512)[o..o + 4]);
  }

  /** The position in the table is a 32-bit number, so the two high bits of a cluster number do not count. */
  lemma {:induction false} EntryWraps(v: Volume, c: nat)
    ensures v.Entry(c) == v.Entry(c % 0x4000_0000)
  {
    WordsWrap(c);
    assert v.FatSector(c) == v.FatSector(c % 0x4000_0000) && v.FatOffset(c) == v.FatOffset(c % 0x4000_0000);
  }

  lemma WordsWrap(c: nat)
    ensures c * 4 % 0x1_0000_0000 == c % 0x4000_0000 * 4 == c % 0x4000_0000 * 4 % 0x1_0000_0000
  {
    assert c * 4 == 0x1_0000_0000 * (c / 0x4000_0000) + c % 0x4000_0000 * 4;
  }

  // ----- files -----

  /** Cluster `d` follows `c` in the table. */
  predicate Next(v: Volume, c: nat, d: nat) {
    c < 0x4000_0000 && TableReaches(v, c) && d == TableLink(v, c) < 0x0FFF_FFF7
  }

  lemma NextEntry(v: Volume, c: nat, d: nat)
    requires c < 0x4000_0000
    ensures Next(v, c, d) <==> v.Entry(c) == d < BAD_CLUSTER
  {
    EntryInTable(v, c);
  }

  predicate LinkedAt(v: Volume, cs: seq<nat>, k: nat)
    requires 1 <= k < |cs|
  {
    Next(v, cs[k - 1], cs[k])
  }

  /** Clusters `cs` follow one another in the table. */
  ghost predicate LinkedInTable(v: Volume, cs: seq<nat>) {
    forall k: nat :: 1 <= k < |cs| ==> LinkedAt(v, cs, k)
  }

  lemma LinkedEntry(v: Volume, cs: seq<nat>, k: nat)
    requires LinkedInTable(v, cs) && 1 <= k < |cs|
    ensures v.Entry(cs[k - 1]) == cs[k] < BAD_CLUSTER
  {
    assert LinkedAt(v, cs, k);
    NextEntry(v, cs[k - 1], cs[k]);
  }

  /** The chain of a file is what the table links, cluster by cluster. */
  lemma {:induction false} ChainInTable(v: Volume, cs: seq<nat>, n: nat)
    requires LinkedInTable(v, cs) && n < |cs|
    ensures v.Link(cs[0], n) == cs[n] && v.Chained(cs[0], n) && (n > 0 ==> cs[n] < BAD_CLUSTER)
  {
    if n > 0 {
      ChainInTable(v, cs, n - 1);
      LinkedEntry(v, cs, n);
    }
  }

  /** A chain of `n` links stands in the table. */
  lemma {:induction false} TableHasChain(v: Volume, first: nat, n: nat) returns (cs: seq<nat>)
    requires v.Chained(first, n) && first < 0x4000_0000
    ensures |cs| == n + 1 && cs[0] == first && LinkedInTable(v, cs)
  {
    cs := [first];
    if n > 0 {
      var before := TableHasChain(v, first, n - 1);
      ChainInTable(v, before, n - 1);
      NextEntry(v, before[n - 1], v.Link(first, n));
      cs := before + [v.Link(first, n)];
      forall k: nat | 1 <= k < |cs|
        ensures LinkedAt(v, cs, k)
      {
        assert k < n ==> LinkedAt(v, before, k);
      }
    }
  }

  /** Byte `i` of a file is on the disk in the cluster that the table's chain has at its place, counted
      from the first data sector on. */
  lemma FileByteOnDisk(v: Volume, cs: seq<nat>, i: nat)
    requires 0 < v.sectorsPerCluster && LinkedInTable(v, cs) && i / 512 / v.sectorsPerCluster < |cs|
    ensures var (n, column) := (i / 512 / v.sectorsPerCluster, i / 512 % v.sectorsPerCluster);
            var lba := v.firstDataSector + (cs[n] - 2) * v.sectorsPerCluster + column;
            v.FileByte(cs[0], i) == v.extent.content((lba % 0x1_0000_0000 + v.extent.start) % 0x1_0000_0000)[i % 512]
  {
    ChainInTable(v, cs, i / 512 / v.sectorsPerCluster);
  }
}
