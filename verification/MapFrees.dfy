/**
 The firmware's memory map, and which of its bytes start-up hands to the heap:
 the frees made for every stretch of available memory, and for the whole map.
 */
module MapFrees {
  import opened Arithmetic
  import opened FreeList

  const AVAILABLE: int := 1

  datatype Region = Region(base: int, length: int, kind: int) {
    function End(): int { base + length }
  }

  ghost predicate SortedUpTo(rs: seq<Region>, n: int) {
    forall i, j :: 0 <= i < j < n && j < |rs| ==> rs[i].base <= rs[j].base
  }

  ghost predicate Sorted(rs: seq<Region>) {
    SortedUpTo(rs, |rs|)
  }

  /** A stretch of memory handed to the allocator. */
  datatype Range = Range(base: int, length: int)

  ghost predicate InRange(r: Range, a: int) {
    r.base <= a < r.base + r.length
  }

  ghost predicate InRanges(fs: seq<Range>, a: int) {
    exists i :: 0 <= i < |fs| && InRange(fs[i], a)
  }

  ghost predicate InRegion(r: Region, a: int) {
    r.base <= a < r.End()
  }

  function TotalLength(fs: seq<Range>): int {
    if fs == [] then 0 else fs[0].length + TotalLength(fs[1..])
  }

  /** The calls to free_memory made while cutting the regions from `i` on out of base .. end - 1. */
  function Frees(rs: seq<Region>, base: int, end: int, ignore: int, i: nat): (fs: seq<Range>)
    decreases |rs| - i
  {
    if i >= |rs| || (i != ignore && base < rs[i].End() && rs[i].base >= end) then
      if base < end then [Range(base, end - base)] else []
    else if i == ignore || base >= rs[i].End() || (base > rs[i].base && rs[i].kind == AVAILABLE) then
      Frees(rs, base, end, ignore, i + 1)
    else
      (if base <= rs[i].base then [Range(base, rs[i].base - base)] else []) + Frees(rs, rs[i].base, end, ignore, i + 1)
  }

  /** Ranges the allocator can take one after the other. */
  ghost predicate Acceptable(ns: seq<Node>, fs: seq<Range>, limit: int) {
    && (forall i :: 0 <= i < |fs| ==>
          0 < fs[i].base && NODE_BYTES <= fs[i].length && fs[i].base + fs[i].length <= limit
          && Unused(ns, fs[i].base, fs[i].length))
    && (forall i, j, a :: 0 <= i < j < |fs| ==> !(InRange(fs[i], a) && InRange(fs[j], a)))
  }

  // ----- what is freed of one stretch -----

  /** Region `i` is one that must not be handed out and reaches into base .. end - 1. */
  ghost predicate Restricts(rs: seq<Region>, i: int, base: int, end: int, ignore: int) {
    0 <= i < |rs| && i != ignore && rs[i].kind != AVAILABLE && exists a :: base <= a < end && InRegion(rs[i], a)
  }

  /** How far down freeing reaches: to `base`, unless a region that is not available and reaches over
      the point reached moves it back to where that region starts. */
  function Low(rs: seq<Region>, base: int, end: int, ignore: int, i: nat): (lo: int)
    ensures lo <= base
    decreases |rs| - i
  {
    if i >= |rs| || (i != ignore && base < rs[i].End() && rs[i].base >= end) then base
    else if i == ignore || base >= rs[i].End() || (base > rs[i].base && rs[i].kind == AVAILABLE) then Low(rs, base, end, ignore, i + 1)
    else
      var lo := Low(rs, rs[i].base, end, ignore, i + 1);
      if lo < base then lo else base
  }

  /** Cutting the regions out of a stretch always ends up freeing one whole interval. */
  lemma {:induction false} FreesInterval(rs: seq<Region>, base: int, end: int, ignore: int, i: nat, a: int)
    requires base < end
    ensures InRanges(Frees(rs, base, end, ignore, i), a) <==> Low(rs, base, end, ignore, i) <= a < end
    decreases |rs| - i
  {
    if i >= |rs| || (i != ignore && base < rs[i].End() && rs[i].base >= end) {
      InRangesOne(Range(base, end - base), a);
    } else if i == ignore || base >= rs[i].End() || (base > rs[i].base && rs[i].kind == AVAILABLE) {
      FreesInterval(rs, base, end, ignore, i + 1, a);
    } else {
      FreesInterval(rs, rs[i].base, end, ignore, i + 1, a);
      FreesCut(rs, base, end, ignore, i, a);
    }
  }

  /** At a region that overlaps, what lies before it is freed, and freeing goes on from its start. */
  lemma FreesCut(rs: seq<Region>, base: int, end: int, ignore: int, i: nat, a: int)
    requires i < |rs| && i != ignore && base < rs[i].End() && rs[i].base < end && !(base > rs[i].base && rs[i].kind == AVAILABLE)
    ensures InRanges(Frees(rs, base, end, ignore, i), a)
            <==> base <= a < rs[i].base || InRanges(Frees(rs, rs[i].base, end, ignore, i + 1), a)
  {
    var rest := Frees(rs, rs[i].base, end, ignore, i + 1);
    if base <= rs[i].base {
      InRangesPrepend(Range(base, rs[i].base - base), rest, a);
    } else {
      assert Frees(rs, base, end, ignore, i) == [] + rest == rest;
    }
  }

  lemma {:induction false} LowWitness(rs: seq<Region>, base: int, end: int, ignore: int, i: nat)
    requires base < end
    ensures Low(rs, base, end, ignore, i) == base || exists k :: Restricts(rs, k, base, end, ignore)
    decreases |rs| - i
  {
    if i >= |rs| || (i != ignore && base < rs[i].End() && rs[i].base >= end) {
    } else if i == ignore || base >= rs[i].End() || (base > rs[i].base && rs[i].kind == AVAILABLE) {
      LowWitness(rs, base, end, ignore, i + 1);
    } else if base <= rs[i].base {
      LowWitness(rs, rs[i].base, end, ignore, i + 1);
      if k :| Restricts(rs, k, rs[i].base, end, ignore) {
        var a :| rs[i].base <= a < end && InRegion(rs[k], a);
        assert Restricts(rs, k, base, end, ignore);
      }
    } else {
      assert InRegion(rs[i], base);
      assert Restricts(rs, i, base, end, ignore);
    }
  }

  lemma InRangesOne(r: Range, a: int)
    ensures InRanges([r], a) <==> InRange(r, a)
  {
    assert [r][0] == r;
  }

  lemma InRangesPrepend(r: Range, fs: seq<Range>, a: int)
    ensures InRanges([r] + fs, a) <==> InRange(r, a) || InRanges(fs, a)
  {
    var gs := [r] + fs;
    if InRanges(gs, a) {
      var i :| 0 <= i < |gs| && InRange(gs[i], a);
      assert i > 0 ==> InRange(fs[i - 1], a);
    }
    if InRange(r, a) { assert InRange(gs[0], a); }
    if InRanges(fs, a) {
      var i :| 0 <= i < |fs| && InRange(fs[i], a);
      assert InRange(gs[i + 1], a);
    }
  }

  /** Some freed byte belongs to another region, one that is not available. */
  ghost predicate FreesForbidden(rs: seq<Region>, base: int, end: int, ignore: int) {
    exists i, a :: 0 <= i < |rs| && i != ignore && rs[i].kind != AVAILABLE && InRegion(rs[i], a)
                   && InRanges(Frees(rs, base, end, ignore, 0), a)
  }

  /** The promise that no byte of a region that is not available is freed is broken, on any map, exactly
      when such a region reaches into the stretch at all: an overlap is not cut out, because `base`
      continues at the start of the overlapping region rather than after it. */
  lemma {:induction false} ForbiddenExactlyWhen(rs: seq<Region>, base: int, end: int, ignore: int)
    requires base < end
    ensures FreesForbidden(rs, base, end, ignore) <==> exists i :: Restricts(rs, i, base, end, ignore)
  {
    if FreesForbidden(rs, base, end, ignore) {
      var i, a :| 0 <= i < |rs| && i != ignore && rs[i].kind != AVAILABLE && InRegion(rs[i], a)
                  && InRanges(Frees(rs, base, end, ignore, 0), a);
      FreesInterval(rs, base, end, ignore, 0, a);
      LowWitness(rs, base, end, ignore, 0);
      if base <= a {
        assert Restricts(rs, i, base, end, ignore);
      }
    }
    if i :| Restricts(rs, i, base, end, ignore) {
      var a :| base <= a < end && InRegion(rs[i], a);
      FreesInterval(rs, base, end, ignore, 0, a);
    }
  }

  /** Every region ends before those behind it begin. */
  ghost predicate Apart(rs: seq<Region>) {
    forall i, j :: 0 <= i < j < |rs| ==> rs[i].End() <= rs[j].base
  }

  /** Sorted, with no two regions sharing a byte. */
  ghost predicate Disjoint(rs: seq<Region>) {
    Apart(rs) && forall i :: 0 <= i < |rs| ==> 0 <= rs[i].length
  }

  /** In a disjoint map, cutting the other regions out of (part of) a region leaves it whole. */
  lemma {:induction false} FreesWhole(rs: seq<Region>, base: int, end: int, ignore: int, i: nat)
    requires Apart(rs) && 0 <= ignore < |rs| && i <= |rs|
    requires rs[ignore].base <= base && end <= rs[ignore].End()
    ensures Frees(rs, base, end, ignore, i) == if base < end then [Range(base, end - base)] else []
    decreases |rs| - i
  {
    if i < |rs| {
      if i < ignore {
        assert rs[i].End() <= rs[ignore].base;
      } else if i > ignore {
        assert rs[ignore].End() <= rs[i].base;
      }
      FreesWhole(rs, base, end, ignore, i + 1);
    }
  }

  // ----- stretches that end before they begin -----

  /** Region `i` must not be handed out and reaches from below `end` beyond `base`. */
  ghost predicate ReachesOver(rs: seq<Region>, i: int, base: int, end: int, ignore: int) {
    0 <= i < |rs| && i != ignore && rs[i].kind != AVAILABLE && rs[i].base < end && base < rs[i].End()
  }

  /** The loop ends at region `i`. */
  ghost predicate Stops(rs: seq<Region>, i: int, base: int, end: int, ignore: int) {
    0 <= i < |rs| && i != ignore && base < rs[i].End() && end <= rs[i].base
  }

  /** From region `i` on, `k` is one that reaches over the stretch, and the loop gets to it. */
  ghost predicate Opens(rs: seq<Region>, k: int, base: int, end: int, ignore: int, i: int) {
    i <= k && ReachesOver(rs, k, base, end, ignore) && forall j :: i <= j < k ==> !Stops(rs, j, base, end, ignore)
  }

  /** Then a region that reaches over the stretch has its first byte freed. */
  lemma {:induction false} OpenedFrees(rs: seq<Region>, k: int, base: int, end: int, ignore: int, i: nat) returns (m: int)
    requires end <= base && Opens(rs, k, base, end, ignore, i)
    ensures ReachesOver(rs, m, base, end, ignore) && InRanges(Frees(rs, base, end, ignore, i), rs[m].base)
    decreases |rs| - i
  {
    assert i < k ==> !Stops(rs, i, base, end, ignore);
    if i == ignore || base >= rs[i].End() || (base > rs[i].base && rs[i].kind == AVAILABLE) {
      m := OpenedFrees(rs, k, base, end, ignore, i + 1);
    } else {
      m := i;
      FreesCut(rs, base, end, ignore, i, rs[i].base);
      FreesInterval(rs, rs[i].base, end, ignore, i + 1, rs[i].base);
    }
  }

  lemma {:induction false} FreesOpened(rs: seq<Region>, base: int, end: int, ignore: int, i: nat, a: int) returns (k: int)
    requires end <= base && InRanges(Frees(rs, base, end, ignore, i), a)
    ensures Opens(rs, k, base, end, ignore, i)
    decreases |rs| - i
  {
    k := i;
    if i == ignore || base >= rs[i].End() || (base > rs[i].base && rs[i].kind == AVAILABLE) {
      k := FreesOpened(rs, base, end, ignore, i + 1, a);
    }
  }

  /** Of such a stretch a byte of a region that is not available is freed, on any map, exactly when one
      reaches over it and the loop gets that far. */
  lemma {:induction false} InvertedForbidden(rs: seq<Region>, base: int, end: int, ignore: int)
    requires end <= base
    ensures FreesForbidden(rs, base, end, ignore) <==> exists k :: Opens(rs, k, base, end, ignore, 0)
  {
    if FreesForbidden(rs, base, end, ignore) {
      var i, a :| 0 <= i < |rs| && i != ignore && rs[i].kind != AVAILABLE && InRegion(rs[i], a)
                  && InRanges(Frees(rs, base, end, ignore, 0), a);
      var k := FreesOpened(rs, base, end, ignore, 0, a);
    }
    if k :| Opens(rs, k, base, end, ignore, 0) {
      var m := OpenedFrees(rs, k, base, end, ignore, 0);
      assert InRegion(rs[m], rs[m].base);
    }
  }

  /** On a sorted map nothing else of it is freed: a region that reaches over it is freed up to `end`. */
  lemma {:induction false} InvertedFrees(rs: seq<Region>, base: int, end: int, ignore: int, i: nat, a: int)
    requires Sorted(rs) && end <= base && i <= |rs|
    ensures InRanges(Frees(rs, base, end, ignore, i), a) <==>
            exists k :: i <= k && ReachesOver(rs, k, base, end, ignore) && rs[k].base <= a < end
    decreases |rs| - i
  {
    if i < |rs| {
      if i != ignore && base < rs[i].End() && rs[i].base >= end {
        assert Frees(rs, base, end, ignore, i) == [];
        assert forall k :: i <= k < |rs| ==> rs[i].base <= rs[k].base;
      } else if i == ignore || base >= rs[i].End() || (base > rs[i].base && rs[i].kind == AVAILABLE) {
        InvertedFrees(rs, base, end, ignore, i + 1, a);
      } else {
        FreedUpTo(rs, base, end, ignore, i, a);
      }
    }
  }

  lemma {:induction false} FreedUpTo(rs: seq<Region>, base: int, end: int, ignore: int, i: nat, a: int)
    requires Sorted(rs) && end <= base && i < |rs| && ReachesOver(rs, i, base, end, ignore)
    ensures InRanges(Frees(rs, base, end, ignore, i), a) <==> rs[i].base <= a < end
    ensures rs[i].base <= a < end <==> exists k :: i <= k && ReachesOver(rs, k, base, end, ignore) && rs[k].base <= a < end
  {
    FreesCut(rs, base, end, ignore, i, a);
    FreesInterval(rs, rs[i].base, end, ignore, i + 1, a);
    LowSorted(rs, rs[i].base, end, ignore, i + 1);
    if k :| i <= k && ReachesOver(rs, k, base, end, ignore) && rs[k].base <= a < end {
      assert rs[i].base <= rs[k].base;
    }
  }

  /** Once the regions from `i` on start at or after `base`, freeing starts at `base`. */
  lemma {:induction false} LowSorted(rs: seq<Region>, base: int, end: int, ignore: int, i: nat)
    requires Sorted(rs) && i <= |rs| && (i < |rs| ==> base <= rs[i].base)
    ensures Low(rs, base, end, ignore, i) == base
    decreases |rs| - i
  {
    if i < |rs| {
      if i + 1 < |rs| {
        assert rs[i].base <= rs[i + 1].base;
      }
      LowSorted(rs, base, end, ignore, i + 1);
      LowSorted(rs, if rs[i].base < end then rs[i].base else base, end, ignore, i + 1);
    }
  }

  /** A reserved byte freed below a stretch that ends before it begins. */
  lemma InvertedByteFreed()
    ensures var rs := [Region(0x800, 0x2000, 2), Region(0x2000, 0x2000, AVAILABLE)];
            && Sorted(rs) && InRegion(rs[0], 0x800) && (0x2000, 0x1000) in Stretches(rs[1], 0x1000, 0x3000)
            && InRanges(Frees(rs, 0x2000, 0x1000, 1, 0), 0x800)
  {
    var rs := [Region(0x800, 0x2000, 2), Region(0x2000, 0x2000, AVAILABLE)];
    assert Stretches(rs[1], 0x1000, 0x3000)[0] == (0x2000, 0x1000);
    InvertedFrees(rs, 0x2000, 0x1000, 1, 0, 0x800);
    assert ReachesOver(rs, 0, 0x2000, 0x1000, 1);
  }

  // ----- the loop with `base` moved past the overlap -----

  /** The calls to free_memory if `base` went on at the end of the overlapping region. */
  function RepairedFrees(rs: seq<Region>, base: int, end: int, ignore: int, i: nat): (fs: seq<Range>)
    decreases |rs| - i
  {
    if i >= |rs| || (i != ignore && base < rs[i].End() && rs[i].base >= end) then
      if base < end then [Range(base, end - base)] else []
    else if i == ignore || base >= rs[i].End() || (base > rs[i].base && rs[i].kind == AVAILABLE) then
      RepairedFrees(rs, base, end, ignore, i + 1)
    else
      (if base <= rs[i].base then [Range(base, rs[i].base - base)] else []) + RepairedFrees(rs, rs[i].End(), end, ignore, i + 1)
  }

  /** On a sorted map that loop frees no byte of a region that is not available, and none outside the
      stretch. */
  lemma {:induction false} RepairedSafe(rs: seq<Region>, base: int, end: int, ignore: int, i: nat, a: int)
    requires Sorted(rs) && i <= |rs| && InRanges(RepairedFrees(rs, base, end, ignore, i), a)
    ensures base <= a < end
    ensures forall k :: i <= k < |rs| && k != ignore && rs[k].kind != AVAILABLE ==> !InRegion(rs[k], a)
    decreases |rs| - i
  {
    assert forall k :: i <= k < |rs| ==> rs[i].base <= rs[k].base;
    if i >= |rs| || (i != ignore && base < rs[i].End() && rs[i].base >= end) {
      InRangesOne(Range(base, end - base), a);
    } else if i == ignore || base >= rs[i].End() || (base > rs[i].base && rs[i].kind == AVAILABLE) {
      RepairedSafe(rs, base, end, ignore, i + 1, a);
    } else {
      RepairedCut(rs, base, end, ignore, i, a);
      if !(base <= a < rs[i].base) {
        RepairedSafe(rs, rs[i].End(), end, ignore, i + 1, a);
      }
    }
  }

  /** And it frees all of the stretch that no other region takes. */
  lemma {:induction false} RepairedComplete(rs: seq<Region>, base: int, end: int, ignore: int, i: nat, a: int)
    requires i <= |rs| && base <= a < end && forall k :: i <= k < |rs| && k != ignore ==> !InRegion(rs[k], a)
    ensures InRanges(RepairedFrees(rs, base, end, ignore, i), a)
    decreases |rs| - i
  {
    if i >= |rs| || (i != ignore && base < rs[i].End() && rs[i].base >= end) {
      InRangesOne(Range(base, end - base), a);
    } else if i == ignore || base >= rs[i].End() || (base > rs[i].base && rs[i].kind == AVAILABLE) {
      RepairedComplete(rs, base, end, ignore, i + 1, a);
    } else {
      RepairedCut(rs, base, end, ignore, i, a);
      if !(base <= a < rs[i].base) {
        RepairedComplete(rs, rs[i].End(), end, ignore, i + 1, a);
      }
    }
  }

  lemma RepairedCut(rs: seq<Region>, base: int, end: int, ignore: int, i: nat, a: int)
    requires i < |rs| && i != ignore && base < rs[i].End() && rs[i].base < end && !(base > rs[i].base && rs[i].kind == AVAILABLE)
    ensures InRanges(RepairedFrees(rs, base, end, ignore, i), a)
            <==> base <= a < rs[i].base || InRanges(RepairedFrees(rs, rs[i].End(), end, ignore, i + 1), a)
  {
    var rest := RepairedFrees(rs, rs[i].End(), end, ignore, i + 1);
    if base <= rs[i].base {
      InRangesPrepend(Range(base, rs[i].base - base), rest, a);
    } else {
      assert RepairedFrees(rs, base, end, ignore, i) == [] + rest == rest;
    }
  }

  // ----- the whole of start-up -----

  /** The difference of two unsigned 32-bit addresses. */
  function UnsignedDifference(x: int, y: int): (d: nat)
    ensures 0 <= x - y < TWO_32 ==> d == x - y
  {
    (x - y) % TWO_32
  }

  /** The stretches of an available region that start-up tries to free, first and last address. A
      region that overlaps the kernel image has two; as the differences are unsigned, the one below is
      tried whenever the addresses differ, and so is the one above. */
  function Stretches(r: Region, kernelStart: int, kernelEnd: int): seq<(int, int)> {
    if r.base < kernelEnd && kernelStart < r.End() then
      (if UnsignedDifference(kernelStart, r.base) > 0 then [(r.base, kernelStart)] else [])
      + (if UnsignedDifference(r.End(), kernelEnd) > 0 then [(kernelEnd, r.End())] else [])
    else [(r.base, r.End())]
  }

  /** The frees made for a list of stretches of region `i`. */
  function StretchFrees(rs: seq<Region>, ss: seq<(int, int)>, i: nat): seq<Range> {
    if ss == [] then [] else Frees(rs, ss[0].0, ss[0].1, i, 0) + StretchFrees(rs, ss[1..], i)
  }

  function RegionFrees(rs: seq<Region>, kernelStart: int, kernelEnd: int, i: nat): seq<Range>
    requires i < |rs|
  {
    if rs[i].kind == AVAILABLE then StretchFrees(rs, Stretches(rs[i], kernelStart, kernelEnd), i) else []
  }

  /** What is freed for a stretch that is only tried if `tried`. */
  function TriedFrees(rs: seq<Region>, tried: bool, s: (int, int), i: nat): seq<Range> {
    if tried then Frees(rs, s.0, s.1, i, 0) else []
  }

  lemma SomeStretches(rs: seq<Region>, lower: bool, s: (int, int), upper: bool, t: (int, int), i: nat)
    ensures StretchFrees(rs, (if lower then [s] else []) + (if upper then [t] else []), i)
            == TriedFrees(rs, lower, s, i) + TriedFrees(rs, upper, t, i)
  {
    var rest, tail := if upper then [t] else [], TriedFrees(rs, upper, t, i);
    assert StretchFrees(rs, rest, i) == tail by {
      assert upper ==> rest[1..] == [] && tail + [] == tail;
    }
    assert [] + rest == rest && [] + tail == tail && ([s] + rest)[1..] == rest;
  }

  /** The frees for an available region: below and above the kernel image, or of the whole region. */
  lemma {:induction false} RegionFreesTried(rs: seq<Region>, kernelStart: int, kernelEnd: int, i: nat)
    requires i < |rs| && rs[i].kind == AVAILABLE
    ensures var base, end := rs[i].base, rs[i].End();
            RegionFrees(rs, kernelStart, kernelEnd, i) ==
              if base < kernelEnd && kernelStart < end then
                TriedFrees(rs, UnsignedDifference(kernelStart, base) > 0, (base, kernelStart), i)
                + TriedFrees(rs, UnsignedDifference(end, kernelEnd) > 0, (kernelEnd, end), i)
              else Frees(rs, base, end, i, 0)
  {
    var (base, end) := (rs[i].base, rs[i].End());
    if base < kernelEnd && kernelStart < end {
      SomeStretches(rs, UnsignedDifference(kernelStart, base) > 0, (base, kernelStart),
                    UnsignedDifference(end, kernelEnd) > 0, (kernelEnd, end), i);
    } else {
      SomeStretches(rs, true, (base, end), false, (0, 0), i);
      assert [(base, end)] + [] == [(base, end)];
      assert Frees(rs, base, end, i, 0) + [] == Frees(rs, base, end, i, 0);
    }
  }

  /** Everything start-up frees for the first n regions, in order. */
  function StartupFrees(rs: seq<Region>, kernelStart: int, kernelEnd: int, n: nat): seq<Range>
    requires n <= |rs|
  {
    if n == 0 then [] else StartupFrees(rs, kernelStart, kernelEnd, n - 1) + RegionFrees(rs, kernelStart, kernelEnd, n - 1)
  }

  lemma InRangesJoin(fs: seq<Range>, gs: seq<Range>, a: int)
    ensures InRanges(fs + gs, a) <==> InRanges(fs, a) || InRanges(gs, a)
  {
    var hs := fs + gs;
    if InRanges(hs, a) {
      var i :| 0 <= i < |hs| && InRange(hs[i], a);
      assert if i < |fs| then InRange(fs[i], a) else InRange(gs[i - |fs|], a);
    }
    if InRanges(fs, a) {
      var i :| 0 <= i < |fs| && InRange(fs[i], a);
      assert InRange(hs[i], a);
    }
    if InRanges(gs, a) {
      var i :| 0 <= i < |gs| && InRange(gs[i], a);
      assert InRange(hs[|fs| + i], a);
    }
  }

  lemma {:induction false} InStretchFrees(rs: seq<Region>, ss: seq<(int, int)>, i: nat, a: int)
    ensures InRanges(StretchFrees(rs, ss, i), a) <==> exists s :: s in ss && InRanges(Frees(rs, s.0, s.1, i, 0), a)
  {
    if ss != [] {
      InStretchFrees(rs, ss[1..], i, a);
      InRangesJoin(Frees(rs, ss[0].0, ss[0].1, i, 0), StretchFrees(rs, ss[1..], i), a);
      assert forall s :: s in ss <==> s == ss[0] || s in ss[1..];
    }
  }

  /** Byte `a` is freed for region `i`. */
  ghost predicate FreedFor(rs: seq<Region>, kernelStart: int, kernelEnd: int, i: int, a: int) {
    0 <= i < |rs| && InRanges(RegionFrees(rs, kernelStart, kernelEnd, i), a)
  }

  /** Byte `a` is freed for one of the first n regions. */
  ghost predicate FreedBelow(rs: seq<Region>, kernelStart: int, kernelEnd: int, n: nat, a: int) {
    n > 0 && (FreedBelow(rs, kernelStart, kernelEnd, n - 1, a) || FreedFor(rs, kernelStart, kernelEnd, n - 1, a))
  }

  lemma {:induction false} FreedBelowWitness(rs: seq<Region>, kernelStart: int, kernelEnd: int, n: nat, a: int) returns (i: nat)
    requires FreedBelow(rs, kernelStart, kernelEnd, n, a)
    ensures i < n && FreedFor(rs, kernelStart, kernelEnd, i, a)
  {
    i := n - 1;
    if !FreedFor(rs, kernelStart, kernelEnd, i, a) {
      i := FreedBelowWitness(rs, kernelStart, kernelEnd, n - 1, a);
    }
  }

  lemma {:induction false} FreedForBelow(rs: seq<Region>, kernelStart: int, kernelEnd: int, n: nat, i: nat, a: int)
    requires i < n && FreedFor(rs, kernelStart, kernelEnd, i, a)
    ensures FreedBelow(rs, kernelStart, kernelEnd, n, a)
  {
    if i < n - 1 {
      FreedForBelow(rs, kernelStart, kernelEnd, n - 1, i, a);
    }
  }

  /** What start-up frees is what it frees for the regions. */
  lemma {:induction false} InStartupFrees(rs: seq<Region>, kernelStart: int, kernelEnd: int, n: nat, a: int)
    requires n <= |rs|
    ensures InRanges(StartupFrees(rs, kernelStart, kernelEnd, n), a) <==> FreedBelow(rs, kernelStart, kernelEnd, n, a)
  {
    if n > 0 {
      var fs, gs := StartupFrees(rs, kernelStart, kernelEnd, n - 1), RegionFrees(rs, kernelStart, kernelEnd, n - 1);
      InStartupFrees(rs, kernelStart, kernelEnd, n - 1, a);
      InRangesJoin(fs, gs, a);
    }
  }

  lemma InRegionFrees(rs: seq<Region>, kernelStart: int, kernelEnd: int, i: nat, a: int)
    requires i < |rs|
    ensures FreedFor(rs, kernelStart, kernelEnd, i, a) <==>
            rs[i].kind == AVAILABLE
            && exists s :: s in Stretches(rs[i], kernelStart, kernelEnd) && InRanges(Frees(rs, s.0, s.1, i, 0), a)
  {
    InStretchFrees(rs, Stretches(rs[i], kernelStart, kernelEnd), i, a);
  }

  /** The map after region 0 was made to start no lower than the first available byte. */
  function Clamped(rs: seq<Region>, first: int): (cs: seq<Region>)
    requires rs != []
    ensures |cs| == |rs|
  {
    if rs[0].base < first then rs[0 := Region(first, rs[0].End() - first, rs[0].kind)] else rs
  }

  /** Clamping takes the bytes below `first` off region 0 and leaves every other byte and kind as it was. */
  lemma ClampedBytes(rs: seq<Region>, first: int, i: nat, a: int)
    requires i < |rs|
    ensures var c := Clamped(rs, first)[i];
            && (InRegion(c, a) <==> InRegion(rs[i], a) && (i > 0 || first <= a))
            && c.kind == rs[i].kind && c.End() == rs[i].End() && (i > 0 ==> c == rs[i])
  {
  }

  /** Region `k` spoils a stretch of region `i`. */
  ghost predicate Spoils(rs: seq<Region>, k: int, stretch: (int, int), i: int) {
    if stretch.0 < stretch.1 then Restricts(rs, k, stretch.0, stretch.1, i) else Opens(rs, k, stretch.0, stretch.1, i, 0)
  }

  /** Start-up hands a byte of a region that is not available to the heap. */
  ghost predicate StartupForbidden(rs: seq<Region>, kernelStart: int, kernelEnd: int) {
    exists k, a :: 0 <= k < |rs| && rs[k].kind != AVAILABLE && InRegion(rs[k], a)
                   && InRanges(StartupFrees(rs, kernelStart, kernelEnd, |rs|), a)
  }

  /** Some stretch that start-up tries is spoiled. */
  ghost predicate StartupSpoiled(rs: seq<Region>, kernelStart: int, kernelEnd: int) {
    exists i: nat, s, k :: i < |rs| && rs[i].kind == AVAILABLE && s in Stretches(rs[i], kernelStart, kernelEnd) && Spoils(rs, k, s, i)
  }

  /** Over the whole of start-up, a byte of a region that is not available is handed to the heap exactly
      when such a region spoils one of the stretches tried: for any map, and so for a sorted one whatever
      clamping made of it. */
  lemma {:induction false} StartupForbiddenExactlyWhen(given: seq<Region>, first: int, kernelStart: int, kernelEnd: int)
    requires given != []
    ensures var rs := Clamped(given, first);
            StartupForbidden(rs, kernelStart, kernelEnd) <==> StartupSpoiled(rs, kernelStart, kernelEnd)
  {
    var rs := Clamped(given, first);
    if StartupForbidden(rs, kernelStart, kernelEnd) {
      var k, a :| 0 <= k < |rs| && rs[k].kind != AVAILABLE && InRegion(rs[k], a)
                  && InRanges(StartupFrees(rs, kernelStart, kernelEnd, |rs|), a);
      InStartupFrees(rs, kernelStart, kernelEnd, |rs|, a);
      var i := FreedBelowWitness(rs, kernelStart, kernelEnd, |rs|, a);
      InRegionFrees(rs, kernelStart, kernelEnd, i, a);
      var s :| s in Stretches(rs[i], kernelStart, kernelEnd) && InRanges(Frees(rs, s.0, s.1, i, 0), a);
      assert FreesForbidden(rs, s.0, s.1, i);
      var j := StretchSpoiled(rs, s, i);
    }
    if StartupSpoiled(rs, kernelStart, kernelEnd) {
      var i: nat, s, k :| i < |rs| && rs[i].kind == AVAILABLE && s in Stretches(rs[i], kernelStart, kernelEnd) && Spoils(rs, k, s, i);
      SpoiledForbidden(rs, s, i, k);
      var j, a :| 0 <= j < |rs| && j != i && rs[j].kind != AVAILABLE && InRegion(rs[j], a) && InRanges(Frees(rs, s.0, s.1, i, 0), a);
      InRegionFrees(rs, kernelStart, kernelEnd, i, a);
      FreedForBelow(rs, kernelStart, kernelEnd, |rs|, i, a);
      InStartupFrees(rs, kernelStart, kernelEnd, |rs|, a);
    }
  }

  lemma StretchSpoiled(rs: seq<Region>, s: (int, int), i: int) returns (k: int)
    requires FreesForbidden(rs, s.0, s.1, i)
    ensures Spoils(rs, k, s, i)
  {
    if s.0 < s.1 {
      ForbiddenExactlyWhen(rs, s.0, s.1, i);
      k :| Restricts(rs, k, s.0, s.1, i);
    } else {
      InvertedForbidden(rs, s.0, s.1, i);
      k :| Opens(rs, k, s.0, s.1, i, 0);
    }
  }

  lemma SpoiledForbidden(rs: seq<Region>, s: (int, int), i: int, k: int)
    requires Spoils(rs, k, s, i)
    ensures FreesForbidden(rs, s.0, s.1, i)
  {
    if s.0 < s.1 {
      ForbiddenExactlyWhen(rs, s.0, s.1, i);
    } else {
      InvertedForbidden(rs, s.0, s.1, i);
    }
  }

  // ----- disjoint maps -----

  /** Byte `a` is available memory outside the kernel image. */
  ghost predicate Usable(rs: seq<Region>, kernelStart: int, kernelEnd: int, n: int, a: int) {
    !(kernelStart <= a < kernelEnd) && exists i :: 0 <= i < n <= |rs| && rs[i].kind == AVAILABLE && InRegion(rs[i], a)
  }

  /** The part of a region below the kernel image, and the part above it. */
  function LowPart(r: Region, kernelStart: int, kernelEnd: int): (int, int) {
    (r.base, if r.base < kernelEnd && kernelStart < r.End() then kernelStart else r.End())
  }

  function HighPart(r: Region, kernelStart: int, kernelEnd: int): (int, int) {
    (if r.base < kernelEnd && kernelStart < r.End() then kernelEnd else r.End(), r.End())
  }

  /** A stretch is empty or long enough to hold a free node, inside the managed memory. */
  predicate Holds(part: (int, int), limit: int) {
    part.0 >= part.1 || (0 < part.0 && part.0 + NODE_BYTES <= part.1 <= limit)
  }

  /** A map whose available parts outside the kernel image the heap can take one after the other. */
  ghost predicate Suitable(rs: seq<Region>, kernelStart: int, kernelEnd: int, limit: int) {
    && Apart(rs) && kernelStart <= kernelEnd
    && (forall i :: 0 <= i < |rs| && rs[i].kind == AVAILABLE ==>
          Holds(LowPart(rs[i], kernelStart, kernelEnd), limit) && Holds(HighPart(rs[i], kernelStart, kernelEnd), limit))
  }

  function Whole(part: (int, int)): seq<Range> {
    if part.0 < part.1 then [Range(part.0, part.1 - part.0)] else []
  }

  /** On a disjoint map an available region is freed whole, except for the kernel image. */
  lemma {:induction false} RegionFreesWhole(rs: seq<Region>, kernelStart: int, kernelEnd: int, limit: int, i: nat)
    requires Suitable(rs, kernelStart, kernelEnd, limit) && limit < TWO_32 && i < |rs| && rs[i].kind == AVAILABLE
    ensures RegionFrees(rs, kernelStart, kernelEnd, i)
            == Whole(LowPart(rs[i], kernelStart, kernelEnd)) + Whole(HighPart(rs[i], kernelStart, kernelEnd))
  {
    var r := rs[i];
    RegionFreesTried(rs, kernelStart, kernelEnd, i);
    if r.base < kernelEnd && kernelStart < r.End() {
      FreesWhole(rs, r.base, kernelStart, i, 0);
      FreesWhole(rs, kernelEnd, r.End(), i, 0);
      assert Whole((r.base, kernelStart)) != [] ==> UnsignedDifference(kernelStart, r.base) > 0;
      assert Whole((kernelEnd, r.End())) != [] ==> UnsignedDifference(r.End(), kernelEnd) > 0;
    } else {
      FreesWhole(rs, r.base, r.End(), i, 0);
    }
  }

  lemma AcceptableJoin(ns: seq<Node>, fs: seq<Range>, gs: seq<Range>, limit: int)
    requires Acceptable(ns, fs, limit) && Acceptable(ns, gs, limit)
    requires forall a :: !(InRanges(fs, a) && InRanges(gs, a))
    ensures Acceptable(ns, fs + gs, limit)
  {
    var hs := fs + gs;
    forall i | 0 <= i < |hs|
      ensures 0 < hs[i].base && NODE_BYTES <= hs[i].length && hs[i].base + hs[i].length <= limit && Unused(ns, hs[i].base, hs[i].length)
    {
      assert hs[i] == if i < |fs| then fs[i] else gs[i - |fs|];
    }
    forall i, j, a | 0 <= i < j < |hs|
      ensures !(InRange(hs[i], a) && InRange(hs[j], a))
    {
      if i < |fs| <= j && InRange(hs[i], a) && InRange(hs[j], a) {
        assert InRanges(fs, a) && InRange(gs[j - |fs|], a);
        assert InRanges(gs, a);
      }
    }
  }

  lemma WholeAcceptable(part: (int, int), limit: int, a: int)
    requires Holds(part, limit)
    ensures Acceptable([], Whole(part), limit)
    ensures InRanges(Whole(part), a) <==> part.0 <= a < part.1
  {
    if part.0 < part.1 {
      InRangesOne(Range(part.0, part.1 - part.0), a);
    }
  }

  /** On a suitable map the heap can take all that start-up frees, and that is exactly the available
      memory outside the kernel image. */
  lemma {:induction false} SuitableStartup(rs: seq<Region>, kernelStart: int, kernelEnd: int, limit: int, n: nat)
    requires Suitable(rs, kernelStart, kernelEnd, limit) && limit < TWO_32 && n <= |rs|
    ensures Acceptable([], StartupFrees(rs, kernelStart, kernelEnd, n), limit)
    ensures forall a :: InRanges(StartupFrees(rs, kernelStart, kernelEnd, n), a) <==> Usable(rs, kernelStart, kernelEnd, n, a)
  {
    if n > 0 {
      SuitableStartup(rs, kernelStart, kernelEnd, limit, n - 1);
      var fs, gs := StartupFrees(rs, kernelStart, kernelEnd, n - 1), RegionFrees(rs, kernelStart, kernelEnd, n - 1);
      SuitableRegion(rs, kernelStart, kernelEnd, limit, n - 1);
      forall a
        ensures !(InRanges(fs, a) && InRanges(gs, a))
        ensures InRanges(fs + gs, a) <==> Usable(rs, kernelStart, kernelEnd, n, a)
      {
        InRangesJoin(fs, gs, a);
        UsableOnce(rs, kernelStart, kernelEnd, n - 1, a);
      }
      AcceptableJoin([], fs, gs, limit);
    }
  }

  /** In a disjoint map, region n adds its bytes outside the kernel image, none of which was usable before. */
  lemma UsableOnce(rs: seq<Region>, kernelStart: int, kernelEnd: int, n: nat, a: int)
    requires Apart(rs) && n < |rs|
    ensures var more := rs[n].kind == AVAILABLE && InRegion(rs[n], a) && !(kernelStart <= a < kernelEnd);
            && (Usable(rs, kernelStart, kernelEnd, n + 1, a) <==> Usable(rs, kernelStart, kernelEnd, n, a) || more)
            && !(Usable(rs, kernelStart, kernelEnd, n, a) && more)
  {
    if Usable(rs, kernelStart, kernelEnd, n, a) {
      var i :| 0 <= i < n && rs[i].kind == AVAILABLE && InRegion(rs[i], a);
      assert rs[i].End() <= rs[n].base;
      assert 0 <= i < n + 1 <= |rs| && rs[i].kind == AVAILABLE && InRegion(rs[i], a);
    }
  }

  lemma {:induction false} SuitableRegion(rs: seq<Region>, kernelStart: int, kernelEnd: int, limit: int, i: nat)
    requires Suitable(rs, kernelStart, kernelEnd, limit) && limit < TWO_32 && i < |rs|
    ensures Acceptable([], RegionFrees(rs, kernelStart, kernelEnd, i), limit)
    ensures forall a :: InRanges(RegionFrees(rs, kernelStart, kernelEnd, i), a)
                        <==> rs[i].kind == AVAILABLE && InRegion(rs[i], a) && !(kernelStart <= a < kernelEnd)
  {
    if rs[i].kind == AVAILABLE {
      var low, high := LowPart(rs[i], kernelStart, kernelEnd), HighPart(rs[i], kernelStart, kernelEnd);
      RegionFreesWhole(rs, kernelStart, kernelEnd, limit, i);
      forall a
        ensures InRanges(Whole(low), a) <==> low.0 <= a < low.1
        ensures InRanges(Whole(high), a) <==> high.0 <= a < high.1
        ensures InRanges(Whole(low) + Whole(high), a) <==> InRanges(Whole(low), a) || InRanges(Whole(high), a)
      {
        WholeAcceptable(low, limit, a);
        WholeAcceptable(high, limit, a);
        InRangesJoin(Whole(low), Whole(high), a);
      }
      WholeAcceptable(low, limit, 0);
      WholeAcceptable(high, limit, 0);
      AcceptableJoin([], Whole(low), Whole(high), limit);
    }
  }

  // ----- disjoint maps as the firmware gives them -----

  /** Where the bytes of region `i` that may be freed begin. */
  function From(given: seq<Region>, first: int, i: nat): int
    requires i < |given|
  {
    if i == 0 && given[0].base < first then first else given[i].base
  }

  /** What is left of the available regions above `first` and outside the kernel image is in pieces long
      enough to hold a free node, inside the managed memory. */
  ghost predicate SuitableMap(given: seq<Region>, first: int, kernelStart: int, kernelEnd: int, limit: int) {
    && Disjoint(given) && kernelStart <= kernelEnd
    && forall i {:trigger given[i]} :: 0 <= i < |given| && given[i].kind == AVAILABLE ==>
         var (from, end) := (From(given, first, i), given[i].End());
         if from < kernelEnd && kernelStart < end then Holds((from, kernelStart), limit) && Holds((kernelEnd, end), limit)
         else Holds((from, end), limit)
  }

  /** Byte `a` is in an available region of the given map, outside the kernel image, and in region 0 no
      lower than `first`. */
  ghost predicate UsableIn(given: seq<Region>, first: int, kernelStart: int, kernelEnd: int, a: int) {
    && !(kernelStart <= a < kernelEnd)
    && exists i :: 0 <= i < |given| && given[i].kind == AVAILABLE && InRegion(given[i], a) && (i > 0 || first <= a)
  }

  lemma ClampedSuitable(given: seq<Region>, first: int, kernelStart: int, kernelEnd: int, limit: int)
    requires given != [] && SuitableMap(given, first, kernelStart, kernelEnd, limit)
    ensures Suitable(Clamped(given, first), kernelStart, kernelEnd, limit)
  {
    var rs := Clamped(given, first);
    forall i | 0 <= i < |rs|
      ensures rs[i].base == From(given, first, i) && rs[i].End() == given[i].End() && rs[i].kind == given[i].kind
    {
      ClampedBytes(given, first, i, 0);
    }
    assert Apart(rs) by {
      forall i, j | 0 <= i < j < |rs|
        ensures rs[i].End() <= rs[j].base
      {
        assert given[i].End() <= given[j].base;
      }
    }
    forall i | 0 <= i < |rs| && rs[i].kind == AVAILABLE
      ensures Holds(LowPart(rs[i], kernelStart, kernelEnd), limit) && Holds(HighPart(rs[i], kernelStart, kernelEnd), limit)
    {
      assert given[i].kind == AVAILABLE;
    }
  }

  lemma ClampedUsable(given: seq<Region>, first: int, kernelStart: int, kernelEnd: int, a: int)
    requires given != []
    ensures Usable(Clamped(given, first), kernelStart, kernelEnd, |given|, a) <==> UsableIn(given, first, kernelStart, kernelEnd, a)
  {
    var rs := Clamped(given, first);
    forall i | 0 <= i < |rs|
      ensures InRegion(rs[i], a) <==> InRegion(given[i], a) && (i > 0 || first <= a)
      ensures rs[i].kind == given[i].kind
    {
      ClampedBytes(given, first, i, a);
    }
    if UsableIn(given, first, kernelStart, kernelEnd, a) {
      var i :| 0 <= i < |given| && given[i].kind == AVAILABLE && InRegion(given[i], a) && (i > 0 || first <= a);
      assert InRegion(rs[i], a);
    }
  }

  /** On a disjoint map start-up frees exactly the bytes of the available regions outside the kernel
      image, of region 0 only those from `first` on, and the heap can take them. */
  lemma StartupFreesUsable(given: seq<Region>, first: int, kernelStart: int, kernelEnd: int, limit: int)
    requires given != [] && SuitableMap(given, first, kernelStart, kernelEnd, limit) && limit < TWO_32
    ensures var fs := StartupFrees(Clamped(given, first), kernelStart, kernelEnd, |given|);
            && Acceptable([], fs, limit)
            && forall a :: InRanges(fs, a) <==> UsableIn(given, first, kernelStart, kernelEnd, a)
  {
    ClampedSuitable(given, first, kernelStart, kernelEnd, limit);
    SuitableStartup(Clamped(given, first), kernelStart, kernelEnd, limit, |given|);
    forall a
      ensures Usable(Clamped(given, first), kernelStart, kernelEnd, |given|, a) <==> UsableIn(given, first, kernelStart, kernelEnd, a)
    {
      ClampedUsable(given, first, kernelStart, kernelEnd, a);
    }
  }
}
