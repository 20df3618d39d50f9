/**
 Start-up of the heap: sorting the firmware's memory map and freeing what is
 available in it.
 */
module MemoryMap {
  import opened Arithmetic
  import opened FreeList
  import opened MapFrees
  import H = Heap

  // ----- sorting -----

  function SumOfBases(rs: seq<Region>): int {
    if rs == [] then 0 else rs[0].base + SumOfBases(rs[1..])
  }

  lemma {:induction false} SumConcat(xs: seq<Region>, ys: seq<Region>)
    ensures SumOfBases(xs + ys) == SumOfBases(xs) + SumOfBases(ys)
  {
    if xs == [] {
      assert xs + ys == ys;
    } else {
      SumConcat(xs[1..], ys);
      assert (xs + ys)[1..] == xs[1..] + ys;
    }
  }

  lemma SumWithout(rs: seq<Region>, j: int)
    requires 0 <= j < |rs|
    ensures SumOfBases(rs) == rs[j].base + SumOfBases(rs[..j] + rs[j + 1..])
  {
    var (before, one, after) := (rs[..j], [rs[j]], rs[j + 1..]);
    SumConcat(before, one + after);
    SumConcat(one, after);
    assert SumOfBases(one) == rs[j].base;
    SumConcat(before, after);
    assert rs == before + (one + after);
  }

  lemma SumAfterUpdate(rs: seq<Region>, j: int, r: Region)
    requires 0 <= j < |rs|
    ensures SumOfBases(rs[j := r]) == SumOfBases(rs) - rs[j].base + r.base
  {
    SumWithout(rs, j);
    SumWithout(rs[j := r], j);
    assert rs[j := r][..j] + rs[j := r][j + 1..] == rs[..j] + rs[j + 1..];
  }

  lemma MultisetWithout(rs: seq<Region>, j: int)
    requires 0 <= j < |rs|
    ensures multiset(rs[..j] + rs[j + 1..]) == multiset(rs) - multiset{rs[j]}
  {
    assert rs == rs[..j] + [rs[j]] + rs[j + 1..];
  }

  /** An element of one list found in the other, and the other without it. */
  lemma {:induction false} PickSame(xs: seq<Region>, ys: seq<Region>) returns (j: int)
    requires xs != [] && multiset(xs) == multiset(ys)
    ensures 0 <= j < |ys| && ys[j] == xs[0]
    ensures multiset(xs[1..]) == multiset(ys[..j] + ys[j + 1..])
  {
    assert xs[0] in multiset(ys);
    j :| 0 <= j < |ys| && ys[j] == xs[0];
    MultisetWithout(ys, j);
    TailMultiset(xs);
  }

  lemma TailMultiset(xs: seq<Region>)
    requires xs != []
    ensures multiset(xs[1..]) == multiset(xs) - multiset{xs[0]}
  {
    assert xs == [xs[0]] + xs[1..];
  }

  lemma {:induction false} SameRegionsSameSum(xs: seq<Region>, ys: seq<Region>)
    requires multiset(xs) == multiset(ys)
    ensures SumOfBases(xs) == SumOfBases(ys)
  {
    if xs == [] {
      assert |multiset(ys)| == 0;
    } else {
      var j := PickSame(xs, ys);
      SameRegionsSameSum(xs[1..], ys[..j] + ys[j + 1..]);
      SumWithout(ys, j);
    }
  }

  /** Where region `i` sinks to from place `j`. */
  function Place(rs: seq<Region>, i: nat, j: nat): (p: nat)
    requires j <= i < |rs|
    ensures p <= j && (p > 0 ==> rs[p - 1].base <= rs[i].base) && forall k :: p <= k < j ==> rs[k].base > rs[i].base
  {
    if j > 0 && rs[j - 1].base > rs[i].base then Place(rs, i, j - 1) else j
  }

  /** Copies of region `i` stand from there up to its old place. */
  function Sunk(rs: seq<Region>, i: nat): (ss: seq<Region>)
    requires i < |rs|
    ensures |ss| == |rs| && forall k :: 0 <= k < |rs| ==> ss[k] == if Place(rs, i, i) <= k <= i then rs[i] else rs[k]
  {
    var p := Place(rs, i, i);
    rs[..p] + seq(i - p + 1, _ => rs[i]) + rs[i + 1..]
  }

  /** The map once the first n regions were put in order. */
  function SortedMap(rs: seq<Region>, n: nat): (ss: seq<Region>)
    requires n <= |rs|
    ensures |ss| == |rs|
  {
    if n <= 1 then rs else Sunk(SortedMap(rs, n - 1), n - 1)
  }

  /** A list that is in order stays as it is. */
  lemma {:induction false} SortedKept(rs: seq<Region>, n: nat)
    requires n <= |rs| && SortedUpTo(rs, n)
    ensures SortedMap(rs, n) == rs
  {
    if n > 1 {
      SortedKept(rs, n - 1);
      assert Place(rs, n - 1, n - 1) == n - 1;
      assert Sunk(rs, n - 1) == rs;
    }
  }

  /** The first n regions are sorted: nothing has happened, or a region was lost. */
  ghost predicate Sorting(given: seq<Region>, now: seq<Region>, n: nat) {
    && n <= |given| && SortedUpTo(now, n) && now == SortedMap(given, n) && (forall r :: r in now ==> r in given)
    && ((now == given && SortedUpTo(given, n)) || (SumOfBases(now) < SumOfBases(given) && !Sorted(given)))
  }

  lemma SortingNext(given: seq<Region>, now: seq<Region>, next: seq<Region>, n: nat)
    requires Sorting(given, now, n) && 0 < n < |now| && next == Sunk(now, n) && SortedUpTo(next, n + 1)
    requires forall r :: r in next ==> r in now
    requires if SortedUpTo(now, n + 1) then next == now else SumOfBases(next) < SumOfBases(now)
    ensures Sorting(given, next, n + 1)
  {
  }

  /** Sorts by base address. The exchange at its heart loses the region it moves up, so the result
      holds the same regions exactly when the map was sorted to begin with. */
  method SortRegions(regions: array<Region>, count: int)
    requires count == regions.Length
    modifies regions
    ensures regions[..] == SortedMap(old(regions[..]), count) && Sorted(regions[..])
    ensures multiset(regions[..]) == multiset(old(regions[..])) <==> Sorted(old(regions[..]))
    ensures Sorted(old(regions[..])) ==> regions[..] == old(regions[..])
    ensures forall r :: r in regions[..] ==> r in old(regions[..])
  {
    ghost var given := regions[..];
    var i := 1;
    while i < count
      invariant 1 <= i && (i <= count || count == 0) && Sorting(given, regions[..], if count == 0 then 0 else i)
    {
      ghost var now := regions[..];
      SinkRegion(regions, i);
      SortingNext(given, now, regions[..], i);
      i := i + 1;
    }
    if multiset(regions[..]) == multiset(given) {
      SameRegionsSameSum(regions[..], given);
    }
  }

  /** A map that loses its second region. */
  method SortLosesRegion() returns (before: seq<Region>, after: seq<Region>)
    ensures before == [Region(0x2000, 0x1000, AVAILABLE), Region(0x1000, 0x1000, 2)]
    ensures after == [Region(0x1000, 0x1000, 2), Region(0x1000, 0x1000, 2)]
  {
    var regions := new Region[2];
    regions[0], regions[1] := Region(0x2000, 0x1000, AVAILABLE), Region(0x1000, 0x1000, 2);
    before := regions[..];
    SortRegions(regions, 2);
    after := regions[..];
  }

  /** Region `i` has sunk to `j`: from there on everything up to its old place was overwritten by it. */
  ghost predicate Sinking(given: seq<Region>, now: seq<Region>, i: int, j: int) {
    && 0 <= j <= i < |given| == |now|
    && (forall k :: 0 <= k < |now| ==> now[k] == if j <= k <= i then given[i] else given[k])
    && if j == i then now == given else SumOfBases(now) < SumOfBases(given) && given[i - 1].base > given[i].base
  }

  lemma SinkStep(given: seq<Region>, now: seq<Region>, i: int, j: int, next: seq<Region>)
    requires Sinking(given, now, i, j) && 0 < j && now[j - 1].base > now[j].base && next == now[j - 1 := now[j]]
    requires SumOfBases(next) == SumOfBases(now) - now[j - 1].base + now[j].base
    ensures Sinking(given, next, i, j - 1)
  {
  }

  lemma Sank(given: seq<Region>, now: seq<Region>, i: int, j: int)
    requires 0 < i && Sinking(given, now, i, j) && j == Place(given, i, i) && SortedUpTo(given, i)
    ensures now == Sunk(given, i) && (forall r :: r in now ==> r in given)
    ensures if SortedUpTo(given, i + 1) then now == given else SumOfBases(now) < SumOfBases(given)
  {
    assert now == Sunk(given, i);
    SunkSorted(given, i);
    PlacedAtEnd(given, i, j);
  }

  /** A region stays where it is exactly when it belongs there. */
  lemma PlacedAtEnd(given: seq<Region>, i: int, j: int)
    requires 0 < i < |given| && SortedUpTo(given, i) && j == Place(given, i, i)
    ensures j == i <==> SortedUpTo(given, i + 1)
  {
    if given[i - 1].base <= given[i].base {
      forall k | 0 <= k < i
        ensures given[k].base <= given[i].base
      {
        assert k < i - 1 ==> given[k].base <= given[i - 1].base;
      }
    }
  }

  /** Moves region `i` down to its place among the sorted regions before it. */
  method SinkRegion(regions: array<Region>, i: int)
    requires 0 < i < regions.Length && SortedUpTo(regions[..], i)
    modifies regions
    ensures regions[..] == Sunk(old(regions[..]), i) && SortedUpTo(regions[..], i + 1)
    ensures forall r :: r in regions[..] ==> r in old(regions[..])
    ensures if SortedUpTo(old(regions[..]), i + 1) then regions[..] == old(regions[..])
            else SumOfBases(regions[..]) < SumOfBases(old(regions[..]))
  {
    ghost var given := regions[..];
    var j := i;
    while j > 0 && !(regions[j - 1].base <= regions[j].base)
      invariant 0 <= j <= i && Place(given, i, i) == Place(given, i, j) && Sinking(given, regions[..], i, j)
    {
      ghost var now := regions[..];
      Exchange(regions, j);
      SinkStep(given, now, i, j, regions[..]);
      j := j - 1;
    }
    Sank(given, regions[..], i, j);
    SunkSorted(given, i);
  }

  /** The exchange of a region with the one before it, which is lost. */
  method Exchange(regions: array<Region>, j: int)
    requires 0 < j < regions.Length
    modifies regions
    ensures regions[..] == old(regions[..])[j - 1 := old(regions[j])]
    ensures SumOfBases(regions[..]) == SumOfBases(old(regions[..])) - old(regions[j - 1]).base + old(regions[j]).base
  {
    SumAfterUpdate(regions[..], j - 1, regions[j]);
    var temp := regions[j - 1];
    regions[j - 1] := regions[j];
    regions[j] := regions[j - 1];
  }

  lemma SunkSorted(rs: seq<Region>, i: nat)
    requires 0 < i < |rs| && SortedUpTo(rs, i)
    ensures SortedUpTo(Sunk(rs, i), i + 1) && forall r :: r in Sunk(rs, i) ==> r in rs
  {
    var p, ss := Place(rs, i, i), Sunk(rs, i);
    forall j, k | 0 <= j < k < i + 1 && k < |ss| ensures ss[j].base <= ss[k].base {
      if j < p <= k && j < p - 1 {
        assert rs[j].base <= rs[p - 1].base;
      }
    }
  }

  // ----- freeing -----

  lemma {:induction false} TotalLengthAppend(fs: seq<Range>, r: Range)
    ensures TotalLength(fs + [r]) == TotalLength(fs) + r.length
  {
    if fs == [] {
      assert fs + [r] == [r];
    } else {
      assert (fs + [r])[1..] == fs[1..] + [r];
      TotalLengthAppend(fs[1..], r);
    }
  }

  /** The heap after the ranges in `done` were freed, starting from list `ns`. */
  ghost predicate Freed(heap: H.Heap, ns: seq<Node>, done: seq<Range>, bytes: int)
    reads heap.Repr
  {
    && heap.ListValid()
    && bytes == TotalLength(done) && TotalSize(heap.nodes) == TotalSize(ns) + bytes
    && (forall a :: Covers(heap.nodes, a) <==> Covers(ns, a) || InRanges(done, a))
  }

  /** Frees the next of a list of acceptable ranges. */
  method FreeNext(heap: H.Heap, base: int, length: int, ghost ns: seq<Node>, ghost fs: seq<Range>, ghost done: seq<Range>,
                  bytes: int)
    returns (ghost done': seq<Range>, bytes': int)
    requires Acceptable(ns, fs, heap.Size()) && Freed(heap, ns, done, bytes)
    requires done + [Range(base, length)] <= fs
    modifies heap`start, heap`nodes, heap.ram`words, heap.ram.bytes
    ensures done' == done + [Range(base, length)] && bytes' == bytes + length
    ensures Freed(heap, ns, done', bytes')
  {
    ghost var r := Range(base, length);
    done', bytes' := done + [r], bytes + length;
    assert fs[|done|] == r && forall i :: 0 <= i < |done| ==> fs[i] == done[i];
    forall a | base <= a < base + length
      ensures !Covers(heap.nodes, a)
    {
      assert InRange(fs[|done|], a);
    }
    heap.FreeMemory(base, length);
    TotalLengthAppend(done, r);
    forall a
      ensures InRanges(done + [r], a) <==> InRanges(done, a) || base <= a < base + length
    {
      InRangesJoin(done, [r], a);
      InRangesOne(r, a);
    }
  }

  /** What is freed from an overlapping region on, in the form the loop needs. */
  lemma CutFrees(rs: seq<Region>, base: int, end: int, ignore: int, i: nat, fs: seq<Range>, done: seq<Range>)
    requires i < |rs| && i != ignore && base < rs[i].End() && rs[i].base < end
    requires !(base > rs[i].base && rs[i].kind == AVAILABLE)
    requires fs == done + Frees(rs, base, end, ignore, i)
    ensures var done' := if base <= rs[i].base then done + [Range(base, rs[i].base - base)] else done;
            fs == done' + Frees(rs, rs[i].base, end, ignore, i + 1)
  {
    var first := if base <= rs[i].base then [Range(base, rs[i].base - base)] else [];
    assert Frees(rs, base, end, ignore, i) == first + Frees(rs, rs[i].base, end, ignore, i + 1);
  }

  /** Frees what lies before an overlapping region. */
  method CutRegion(heap: H.Heap, region: Region, i: nat, base: int, end: int, ignore: int, bytes: int,
                   ghost rs: seq<Region>, ghost ns: seq<Node>, ghost fs: seq<Range>, ghost done: seq<Range>)
    returns (bytes': int, ghost done': seq<Range>)
    requires i < |rs| && region == rs[i] && i != ignore && base < region.End() && region.base < end
    requires !(base > region.base && region.kind == AVAILABLE)
    requires fs == done + Frees(rs, base, end, ignore, i)
    requires Acceptable(ns, fs, heap.Size()) && Freed(heap, ns, done, bytes)
    modifies heap`start, heap`nodes, heap.ram`words, heap.ram.bytes
    ensures fs == done' + Frees(rs, region.base, end, ignore, i + 1) && Freed(heap, ns, done', bytes')
  {
    CutFrees(rs, base, end, ignore, i, fs, done);
    done', bytes' := done, bytes;
    if base <= region.base {
      done', bytes' := FreeNext(heap, base, region.base - base, ns, fs, done, bytes);
    }
  }

  /** Performs exactly the frees that `Frees` lists. */
  method FreeNonrestrictedMem(heap: H.Heap, regions: array<Region>, count: int, base0: int, end: int, ignore: int)
    returns (bytesAdded: int)
    requires heap.ListValid() && count == regions.Length
    requires Acceptable(heap.nodes, Frees(regions[..], base0, end, ignore, 0), heap.Size())
    modifies heap`start, heap`nodes, heap.ram`words, heap.ram.bytes
    ensures Freed(heap, old(heap.nodes), Frees(regions[..], base0, end, ignore, 0), bytesAdded)
    ensures regions[..] == old(regions[..])
  {
    ghost var rs, ns := regions[..], heap.nodes;
    ghost var fs := Frees(rs, base0, end, ignore, 0);
    ghost var done: seq<Range> := [];
    var base, stop := base0, false;
    bytesAdded := 0;
    var i := 0;
    while i < count && !stop
      invariant 0 <= i <= count && regions[..] == rs
      invariant fs == done + if stop then Rest(base, end) else Frees(rs, base, end, ignore, i)
      invariant Freed(heap, ns, done, bytesAdded)
    {
      base, bytesAdded, stop, done := PassRegion(heap, regions[i], i, base, end, ignore, bytesAdded, rs, ns, fs, done);
      i := i + 1;
    }
    bytesAdded := FreeRest(heap, base, end, bytesAdded, ns, fs, done);
  }

  /** What is left of a stretch once no further region reaches into it. */
  function Rest(base: int, end: int): seq<Range> {
    if base < end then [Range(base, end - base)] else []
  }

  lemma StopFrees(rs: seq<Region>, base: int, end: int, ignore: int, i: nat)
    requires i < |rs| && i != ignore && base < rs[i].End() && rs[i].base >= end
    ensures Frees(rs, base, end, ignore, i) == Rest(base, end)
  {
  }

  lemma SkipFrees(rs: seq<Region>, base: int, end: int, ignore: int, i: nat)
    requires i < |rs|
    requires i == ignore || base >= rs[i].End() || (rs[i].base < end && base > rs[i].base && rs[i].kind == AVAILABLE)
    ensures Frees(rs, base, end, ignore, i) == Frees(rs, base, end, ignore, i + 1)
  {
  }

  /** One round of the loop; `stop` when it is left. */
  method PassRegion(heap: H.Heap, region: Region, i: nat, base: int, end: int, ignore: int, bytes: int,
                    ghost rs: seq<Region>, ghost ns: seq<Node>, ghost fs: seq<Range>, ghost done: seq<Range>)
    returns (base': int, bytes': int, stop: bool, ghost done': seq<Range>)
    requires i < |rs| && region == rs[i] && fs == done + Frees(rs, base, end, ignore, i)
    requires Acceptable(ns, fs, heap.Size()) && Freed(heap, ns, done, bytes)
    modifies heap`start, heap`nodes, heap.ram`words, heap.ram.bytes
    ensures fs == done' + if stop then Rest(base', end) else Frees(rs, base', end, ignore, i + 1)
    ensures Freed(heap, ns, done', bytes')
  {
    base', bytes', stop, done' := base, bytes, false, done;
    var regionBase := region.base;
    var regionEnd := regionBase + region.length;
    if ignore == i || base >= regionEnd {
      SkipFrees(rs, base, end, ignore, i);
    } else if regionBase >= end {
      StopFrees(rs, base, end, ignore, i);
      stop := true;
    } else if base > regionBase && region.kind == AVAILABLE {
      SkipFrees(rs, base, end, ignore, i);
    } else {
      bytes', done' := CutRegion(heap, region, i, base, end, ignore, bytes, rs, ns, fs, done);
      base' := regionBase;
    }
  }

  /** Frees what is left of a stretch. */
  method FreeRest(heap: H.Heap, base: int, end: int, bytes: int, ghost ns: seq<Node>, ghost fs: seq<Range>, ghost done: seq<Range>)
    returns (bytes': int)
    requires Acceptable(ns, fs, heap.Size()) && Freed(heap, ns, done, bytes)
    requires fs == done + Rest(base, end)
    modifies heap`start, heap`nodes, heap.ram`words, heap.ram.bytes
    ensures Freed(heap, ns, fs, bytes')
  {
    bytes' := bytes;
    if base < end {
      ghost var all;
      all, bytes' := FreeNext(heap, base, end - base, ns, fs, done, bytes);
    }
    assert done + [] == done;
  }

  // ----- start-up -----

  /** What is left of a list of acceptable ranges is acceptable once those before it were freed. */
  lemma AcceptableRest(ns: seq<Node>, all: seq<Range>, done: seq<Range>, fs: seq<Range>, nodes: seq<Node>, limit: int)
    requires Acceptable(ns, all, limit) && done + fs <= all
    requires forall a :: Covers(nodes, a) <==> Covers(ns, a) || InRanges(done, a)
    ensures Acceptable(nodes, fs, limit)
  {
    assert forall i :: 0 <= i < |done| ==> all[i] == done[i];
    assert forall i :: 0 <= i < |fs| ==> all[|done| + i] == fs[i];
    forall i, a | 0 <= i < |fs| && InRange(fs[i], a)
      ensures !Covers(nodes, a)
    {
      assert InRange(all[|done| + i], a);
    }
  }

  lemma {:induction false} TotalLengthJoin(fs: seq<Range>, gs: seq<Range>)
    ensures TotalLength(fs + gs) == TotalLength(fs) + TotalLength(gs)
  {
    if fs == [] {
      assert fs + gs == gs;
    } else {
      assert (fs + gs)[1..] == fs[1..] + gs;
      TotalLengthJoin(fs[1..], gs);
    }
  }

  /** Ranges freed after others. */
  lemma FreedJoin(heap: H.Heap, ns: seq<Node>, done: seq<Range>, mid: seq<Node>, fs: seq<Range>, more: int)
    requires TotalSize(mid) == TotalSize(ns) + TotalLength(done) && Freed(heap, mid, fs, more)
    requires forall a :: Covers(mid, a) <==> Covers(ns, a) || InRanges(done, a)
    ensures Freed(heap, ns, done + fs, TotalLength(done) + more)
  {
    TotalLengthJoin(done, fs);
    forall a ensures Covers(heap.nodes, a) <==> Covers(ns, a) || InRanges(done + fs, a) {
      InRangesJoin(done, fs, a);
    }
  }

  /** Frees one more stretch. */
  method FreeStretch(heap: H.Heap, regions: array<Region>, count: int, base: int, end: int, ignore: int, bytes: int,
                     ghost ns: seq<Node>, ghost all: seq<Range>, ghost done: seq<Range>)
    returns (bytes': int)
    requires count == regions.Length && Acceptable(ns, all, heap.Size()) && Freed(heap, ns, done, bytes)
    requires done + Frees(regions[..], base, end, ignore, 0) <= all
    modifies heap`start, heap`nodes, heap.ram`words, heap.ram.bytes
    ensures regions[..] == old(regions[..]) && Freed(heap, ns, done + Frees(regions[..], base, end, ignore, 0), bytes')
  {
    ghost var fs, mid := Frees(regions[..], base, end, ignore, 0), heap.nodes;
    AcceptableRest(ns, all, done, fs, mid, heap.Size());
    var more := FreeNonrestrictedMem(heap, regions, count, base, end, ignore);
    FreedJoin(heap, ns, done, mid, fs, more);
    bytes' := bytes + more;
  }

  /** Frees the stretches of available region `i`, on any map whose frees the heap can take. */
  method FreeRegion(heap: H.Heap, regions: array<Region>, count: int, i: int, kernelStart: int, kernelEnd: int)
    returns (bytes: int)
    requires heap.ListValid() && count == regions.Length && 0 <= i < count && regions[i].kind == AVAILABLE
    requires Acceptable(heap.nodes, RegionFrees(regions[..], kernelStart, kernelEnd, i), heap.Size())
    modifies heap`start, heap`nodes, heap.ram`words, heap.ram.bytes
    ensures regions[..] == old(regions[..])
    ensures Freed(heap, old(heap.nodes), RegionFrees(regions[..], kernelStart, kernelEnd, i), bytes)
  {
    RegionFreesTried(regions[..], kernelStart, kernelEnd, i);
    var base := regions[i].base;
    var end := base + regions[i].length;
    if base < kernelEnd && kernelStart < end {
      var startBytes := UnsignedDifference(kernelStart, base);
      var endBytes := UnsignedDifference(end, kernelEnd);
      bytes := FreeAround(heap, regions, count, startBytes > 0, (base, kernelStart), endBytes > 0, (kernelEnd, end), i);
    } else {
      bytes := FreeNonrestrictedMem(heap, regions, count, base, end, i);
    }
  }

  /** Frees the stretches below and above the kernel image. */
  method FreeAround(heap: H.Heap, regions: array<Region>, count: int, lower: bool, s: (int, int), upper: bool, t: (int, int), i: nat)
    returns (bytes: int)
    requires heap.ListValid() && count == regions.Length
    requires Acceptable(heap.nodes, TriedFrees(regions[..], lower, s, i) + TriedFrees(regions[..], upper, t, i), heap.Size())
    modifies heap`start, heap`nodes, heap.ram`words, heap.ram.bytes
    ensures regions[..] == old(regions[..])
    ensures Freed(heap, old(heap.nodes), TriedFrees(regions[..], lower, s, i) + TriedFrees(regions[..], upper, t, i), bytes)
  {
    ghost var ns, low, high := heap.nodes, TriedFrees(regions[..], lower, s, i), TriedFrees(regions[..], upper, t, i);
    bytes := 0;
    assert [] + low == low && low + [] == low;
    if lower {
      bytes := FreeStretch(heap, regions, count, s.0, s.1, i, bytes, ns, low + high, []);
    }
    if upper {
      bytes := FreeStretch(heap, regions, count, t.0, t.1, i, bytes, ns, low + high, low);
    }
  }

  lemma PrefixLonger(fs: seq<Range>, gs: seq<Range>, hs: seq<Range>)
    requires fs <= gs
    ensures fs <= gs + hs
  {
  }

  ghost predicate GrowsAt(all: nat -> seq<Range>, k: nat) {
    all(k) <= all(k + 1)
  }

  lemma {:induction false} PrefixesGrow(all: nat -> seq<Range>, n: nat, m: nat)
    requires n <= m && forall k: nat :: k < m ==> GrowsAt(all, k)
    ensures all(n) <= all(m)
  {
    if n < m {
      PrefixesGrow(all, n, m - 1);
      assert GrowsAt(all, m - 1);
    }
  }

  function FreesUpTo(rs: seq<Region>, kernelStart: int, kernelEnd: int): nat -> seq<Range> {
    (n: nat) => if n <= |rs| then StartupFrees(rs, kernelStart, kernelEnd, n) else []
  }

  lemma {:induction false} StartupPrefix(rs: seq<Region>, kernelStart: int, kernelEnd: int, n: nat, m: nat)
    requires n <= m <= |rs|
    ensures StartupFrees(rs, kernelStart, kernelEnd, n) <= StartupFrees(rs, kernelStart, kernelEnd, m)
  {
    var all := FreesUpTo(rs, kernelStart, kernelEnd);
    forall k: nat | k < m
      ensures GrowsAt(all, k)
    {
      StartupMore(rs, kernelStart, kernelEnd, k);
    }
    PrefixesGrow(all, n, m);
  }

  lemma {:induction false} StartupMore(rs: seq<Region>, kernelStart: int, kernelEnd: int, k: nat)
    requires k < |rs|
    ensures GrowsAt(FreesUpTo(rs, kernelStart, kernelEnd), k)
  {
    PrefixLonger(StartupFrees(rs, kernelStart, kernelEnd, k), StartupFrees(rs, kernelStart, kernelEnd, k), RegionFrees(rs, kernelStart, kernelEnd, k));
  }

  /** Makes region 0 start no lower than the first available byte. */
  method ClampFirst(regions: array<Region>, first: int)
    requires regions.Length > 0
    modifies regions
    ensures regions[..] == Clamped(old(regions[..]), first)
  {
    if regions[0].base < first {
      regions[0] := Region(first, regions[0].base + regions[0].length - first, regions[0].kind);
    }
  }

  lemma StartupNext(rs: seq<Region>, kernelStart: int, kernelEnd: int, i: nat)
    requires i < |rs|
    ensures var done := StartupFrees(rs, kernelStart, kernelEnd, i) + RegionFrees(rs, kernelStart, kernelEnd, i);
            done == StartupFrees(rs, kernelStart, kernelEnd, i + 1) <= StartupFrees(rs, kernelStart, kernelEnd, |rs|)
  {
    StartupPrefix(rs, kernelStart, kernelEnd, i + 1, |rs|);
  }

  /** Start-up performs exactly the frees that `StartupFrees` lists for the clamped map, and returns how
      many bytes they add. */
  method FreeAvailableRegions(heap: H.Heap, regions: array<Region>, count: int, first: int, kernelStart: int, kernelEnd: int)
    returns (availableBytes: int)
    requires heap.ListValid() && count == regions.Length > 0
    requires Acceptable(heap.nodes, StartupFrees(Clamped(regions[..], first), kernelStart, kernelEnd, count), heap.Size())
    modifies regions, heap`start, heap`nodes, heap.ram`words, heap.ram.bytes
    ensures regions[..] == Clamped(old(regions[..]), first)
    ensures Freed(heap, old(heap.nodes), StartupFrees(regions[..], kernelStart, kernelEnd, count), availableBytes)
  {
    ClampFirst(regions, first);
    ghost var rs, ns := regions[..], heap.nodes;
    availableBytes := 0;
    var i := 0;
    while i < count
      invariant 0 <= i <= count && regions[..] == rs
      invariant Freed(heap, ns, StartupFrees(rs, kernelStart, kernelEnd, i), availableBytes)
    {
      availableBytes := FreeNextRegion(heap, regions, count, i, kernelStart, kernelEnd, availableBytes, ns);
      i := i + 1;
    }
  }

  method FreeNextRegion(heap: H.Heap, regions: array<Region>, count: int, i: int, kernelStart: int, kernelEnd: int,
                        availableBytes: int, ghost ns: seq<Node>)
    returns (bytes: int)
    requires 0 <= i < count == regions.Length
    requires Acceptable(ns, StartupFrees(regions[..], kernelStart, kernelEnd, count), heap.Size())
    requires Freed(heap, ns, StartupFrees(regions[..], kernelStart, kernelEnd, i), availableBytes)
    modifies heap`start, heap`nodes, heap.ram`words, heap.ram.bytes
    ensures regions[..] == old(regions[..])
    ensures Freed(heap, ns, StartupFrees(regions[..], kernelStart, kernelEnd, i + 1), bytes)
  {
    ghost var rs, mid := regions[..], heap.nodes;
    ghost var done, fs := StartupFrees(rs, kernelStart, kernelEnd, i), RegionFrees(rs, kernelStart, kernelEnd, i);
    bytes := availableBytes;
    StartupNext(rs, kernelStart, kernelEnd, i);
    if regions[i].kind == AVAILABLE {
      AcceptableRest(ns, StartupFrees(rs, kernelStart, kernelEnd, count), done, fs, mid, heap.Size());
      var more := FreeRegion(heap, regions, count, i, kernelStart, kernelEnd);
      FreedJoin(heap, ns, done, mid, fs, more);
      bytes := bytes + more;
    } else {
      assert done + fs == done;
    }
  }

  /** From the firmware's map to a heap that manages exactly the bytes freed. */
  method MemoryInitialize(heap: H.Heap, regions: array<Region>, count: int, first: int, kernelStart: int, kernelEnd: int)
    returns (availableBytes: int)
    requires heap.ListValid() && heap.nodes == [] && heap.live == map[] && count == regions.Length > 0
    requires var rs := Clamped(SortedMap(regions[..], count), first);
             Acceptable([], StartupFrees(rs, kernelStart, kernelEnd, count), heap.Size())
    modifies regions, heap`start, heap`nodes, heap`pool, heap.ram`words, heap.ram.bytes
    ensures regions[..] == Clamped(SortedMap(old(regions[..]), count), first)
    ensures heap.Valid() && heap.live == map[] && availableBytes == TotalSize(heap.nodes)
    ensures var rs := Clamped(SortedMap(old(regions[..]), count), first);
            forall a :: a in heap.pool <==> InRanges(StartupFrees(rs, kernelStart, kernelEnd, count), a)
    ensures SuitableMap(old(regions[..]), first, kernelStart, kernelEnd, heap.Size()) ==>
              forall a :: a in heap.pool <==> UsableIn(old(regions[..]), first, kernelStart, kernelEnd, a)
  {
    ghost var given := regions[..];
    SortRegions(regions, count);
    availableBytes := FreeAvailableRegions(heap, regions, count, first, kernelStart, kernelEnd);
    heap.Adopt();
    if SuitableMap(given, first, kernelStart, kernelEnd, heap.Size()) {
      DisjointStartup(given, first, kernelStart, kernelEnd, heap.Size());
    }
  }

  /** Sorting leaves a disjoint map as it is, and of its bytes start-up frees exactly the available ones
      outside the kernel image, in region 0 from `first` on; the heap can take them. */
  lemma DisjointStartup(given: seq<Region>, first: int, kernelStart: int, kernelEnd: int, limit: int)
    requires given != [] && limit < TWO_32 && SuitableMap(given, first, kernelStart, kernelEnd, limit)
    ensures SortedMap(given, |given|) == given
    ensures var fs := StartupFrees(Clamped(SortedMap(given, |given|), first), kernelStart, kernelEnd, |given|);
            Acceptable([], fs, limit) && forall a :: InRanges(fs, a) <==> UsableIn(given, first, kernelStart, kernelEnd, a)
  {
    assert Sorted(given) by {
      forall i, j | 0 <= i < j < |given|
        ensures given[i].base <= given[j].base
      {
        assert given[i].End() <= given[j].base && 0 <= given[i].length;
      }
    }
    SortedKept(given, |given|);
    StartupFreesUsable(given, first, kernelStart, kernelEnd, limit);
  }

  /** A reserved byte in the heap: an available region with a reserved one inside it is freed from end
      to end. */
  method ReservedByteFreed() returns (heap: H.Heap, regions: array<Region>)
    ensures regions[..] == [Region(0x1000, 0x1000, AVAILABLE), Region(0x1800, 0x100, 2)]
    ensures heap.Valid() && InRegion(regions[1], 0x1800) && Covers(heap.nodes, 0x1800)
  {
    regions := new Region[2];
    regions[0], regions[1] := Region(0x1000, 0x1000, AVAILABLE), Region(0x1800, 0x100, 2);
    heap := H.NewHeap(0x2000);
    ghost var rs := regions[..];
    NestedFrees(rs);
    SortedKept(rs, 2);
    var _ := MemoryInitialize(heap, regions, 2, 0x1000, 0x100, 0x200);
  }

  lemma NestedFrees(rs: seq<Region>)
    requires rs == [Region(0x1000, 0x1000, AVAILABLE), Region(0x1800, 0x100, 2)]
    ensures Sorted(rs) && Clamped(rs, 0x1000) == rs
    ensures StartupFrees(rs, 0x100, 0x200, 2) == [Range(0x1000, 0x800), Range(0x1800, 0x800)]
    ensures InRanges(StartupFrees(rs, 0x100, 0x200, 2), 0x1800)
    ensures Acceptable([], StartupFrees(rs, 0x100, 0x200, 2), 0x2000)
  {
    assert Frees(rs, 0x1800, 0x2000, 0, 2) == [Range(0x1800, 0x800)];
    assert Frees(rs, 0x1000, 0x2000, 0, 1) == [Range(0x1000, 0x800)] + [Range(0x1800, 0x800)];
    assert StretchFrees(rs, [(0x1000, 0x2000)], 0) == Frees(rs, 0x1000, 0x2000, 0, 0) + [];
    assert StartupFrees(rs, 0x100, 0x200, 1) == [] + RegionFrees(rs, 0x100, 0x200, 0);
    var fs := [Range(0x1000, 0x800), Range(0x1800, 0x800)];
    assert InRange(fs[1], 0x1800);
  }
}
