/**
 The kernel heap. Free nodes and block headers live in the managed bytes
 themselves; `nodes` is the list those bytes encode.
 */
module Heap {
  import opened Arithmetic
  import opened PhysicalMemory
  import opened FreeList
  import opened HeapStates

  class Heap {
    const ram: Ram
    var start: int
    ghost var nodes: seq<Node>
    ghost var live: map<int, Block>
    ghost var pool: iset<int>

    ghost const Repr: set<object> := {this, ram, ram.bytes}

    function Size(): int {
      ram.bytes.Length
    }

    /** The bytes encode a canonical free list, and addresses stay clear of 32-bit wrap-around. */
    ghost predicate ListValid()
      reads Repr
    {
      && Size() <= ADDRESS_LIMIT
      && ram.Valid()
      && start == AddrAt(nodes, 0)
      && Linked(ram.words, nodes)
      && Canonical(nodes) && Below(nodes, Size())
    }

    /** What it takes to follow the links. */
    ghost predicate Walkable()
      reads Repr
    {
      && ram.Valid()
      && start == AddrAt(nodes, 0)
      && Linked(ram.words, nodes)
      && (forall i :: 0 <= i < |nodes| ==> nodes[i].addr > 0 && nodes[i].addr + NODE_BYTES <= Size())
    }

    constructor (r: Ram)
      requires r.Valid() && r.bytes.Length <= ADDRESS_LIMIT
      ensures ram == r && ListValid() && nodes == [] && live == map[] && pool == iset{}
    {
      ram := r;
      start := 0;
      nodes := [];
      live := map[];
      pool := iset{};
    }

    /** The nodes on either side of `base`. */
    method Neighbours(base: int) returns (previous: int, next: int, ghost k: int)
      requires Walkable() && Separated(nodes)
      ensures SplitsAt(nodes, k, base)
      ensures previous == (if k == 0 then 0 else nodes[k - 1].addr) && next == AddrAt(nodes, k)
    {
      previous, next, k := 0, start, 0;
      while next != 0 && base > next
        invariant 0 <= k <= |nodes|
        invariant next == AddrAt(nodes, k)
        invariant previous == if k == 0 then 0 else nodes[k - 1].addr
        invariant forall i :: 0 <= i < k ==> nodes[i].addr < base
        decreases |nodes| - k
      {
        assert StoredAt(ram.words, nodes, k);
        previous := next;
        next := ram.LoadWord(next + 4);
        k := k + 1;
      }
    }

    /** Where the freed node starts: at its left neighbour when it touches it, otherwise at `base`,
        which the neighbour is then linked to. */
    method JoinOrLink(previous: int, base: int) returns (current: int)
      requires ram.Valid() && 0 < base && base + NODE_BYTES <= Size() <= ADDRESS_LIMIT
      requires previous == 0 || (0 < previous && NODE_BYTES <= ram.words(previous) <= base - previous)
      modifies ram`words, ram.bytes
      ensures ram.Valid()
      ensures var left := previous != 0 && previous + old(ram.words)(previous) == base;
              && current == (if left then previous else base)
              && (previous != 0 && !left ==> ram.words(previous + 4) == base)
              && (previous == 0 || left ==> ram.words == old(ram.words))
      ensures forall b :: b + 4 <= previous + 4 || previous + 8 <= b ==> ram.words(b) == old(ram.words)(b)
      ensures forall a :: 0 <= a < Size() && !(0 < previous <= a < previous + NODE_BYTES) ==> ram.bytes[a] == old(ram.bytes[a])
    {
      current := base;
      if previous != 0 {
        var previousSize := ram.LoadWord(previous);
        if previous + previousSize >= base {
          current := previous;
        } else {
          ram.StoreWord(previous + 4, current);
        }
      }
    }

    /** Writes size and link of the node at `current`. */
    method StoreNode(current: int, size: int, next: int)
      requires ram.Valid() && 0 < current && current + NODE_BYTES <= Size() <= ADDRESS_LIMIT
      requires 0 <= size < 0x1_0000_0000 && 0 <= next < 0x1_0000_0000
      modifies ram`words, ram.bytes
      ensures ram.Valid() && Untouched(old(ram.words), ram.words, current, current)
      ensures ram.words(current) == size && ram.words(current + 4) == next
      ensures forall a :: 0 <= a < Size() && !(current <= a < current + NODE_BYTES) ==> ram.bytes[a] == old(ram.bytes[a])
    {
      ram.StoreWord(current, size);
      ram.StoreWord(current + 4, next);
    }

    /** Extends the node at `current` over the adjoining node at `next`. */
    method AbsorbNext(current: int, next: int)
      requires ram.Valid() && 0 < current && current + NODE_BYTES <= next
      requires NODE_BYTES <= ram.words(next) <= Size() - next && Size() <= ADDRESS_LIMIT
      requires 0 <= ram.words(next + 4)
      modifies ram`words, ram.bytes
      ensures ram.Valid() && Untouched(old(ram.words), ram.words, current, current)
      ensures ram.words(current) == next + old(ram.words)(next) - current
      ensures ram.words(current + 4) == old(ram.words)(next + 4)
      ensures forall a :: 0 <= a < Size() && !(current <= a < current + NODE_BYTES) ==> ram.bytes[a] == old(ram.bytes[a])
    {
      var nextSize := ram.LoadWord(next);
      var nextEnd := next + nextSize;
      var nextNext := ram.LoadWord(next + 4);
      StoreNode(current, nextEnd - current, nextNext);
    }

    /** Writes the node from `current` to `end`, extended over the node at `next` if that adjoins. */
    method StoreMerged(current: int, next: int, end: int)
      requires ram.Valid() && 0 < current && current + NODE_BYTES <= end <= Size() <= ADDRESS_LIMIT
      requires next == 0 || (end <= next && NODE_BYTES <= ram.words(next) <= Size() - next && 0 <= ram.words(next + 4))
      modifies ram`words, ram.bytes
      ensures ram.Valid() && Untouched(old(ram.words), ram.words, current, current)
      ensures var right := next != 0 && next == end;
              && ram.words(current) == (if right then next + old(ram.words)(next) else end) - current
              && ram.words(current + 4) == (if right then old(ram.words)(next + 4) else next)
      ensures forall a :: 0 <= a < Size() && !(current <= a < current + NODE_BYTES) ==> ram.bytes[a] == old(ram.bytes[a])
    {
      StoreNode(current, end - current, next);
      if next != 0 && next <= end {
        AbsorbNext(current, next);
      }
    }

    /** Writes the node for base .. base + length - 1 between its neighbours, merged with those it touches. */
    method WriteNode(previous: int, next: int, base: int, length: int)
      requires ram.Valid()
      requires 0 < base && NODE_BYTES <= length && base + length <= Size() <= ADDRESS_LIMIT
      requires previous == 0 || (0 < previous && NODE_BYTES <= ram.words(previous) <= base - previous)
      requires next == 0 || (base + length <= next && NODE_BYTES <= ram.words(next) <= Size() - next)
      requires next != 0 ==> 0 <= ram.words(next + 4)
      modifies `start, ram`words, ram.bytes
      ensures ram.Valid() && NodeWritten(old(ram.words), ram.words, previous, next, base, length)
      ensures start == if next != old(start) then old(start)
                       else if previous != 0 && previous + old(ram.words)(previous) == base then previous else base
      ensures forall a :: 0 <= a < Size() && !(0 < previous <= a < previous + NODE_BYTES) && !(base <= a < base + NODE_BYTES) ==>
                ram.bytes[a] == old(ram.bytes[a])
    {
      var end := base + length;
      var current := JoinOrLink(previous, base);
      StoreMerged(current, next, end);
      if next == start {
        start := current;
      }
    }

    /** Returns `length` bytes from `base` on to the free list. */
    method FreeMemory(base: int, length: int)
      requires ListValid()
      requires 0 < base && NODE_BYTES <= length && base + length <= Size()
      requires Unused(nodes, base, length)
      modifies `start, `nodes, ram`words, ram.bytes
      ensures ListValid()
      ensures forall a :: Covers(nodes, a) <==> Covers(old(nodes), a) || base <= a < base + length
      ensures TotalSize(nodes) == TotalSize(old(nodes)) + length
      ensures forall a :: 0 <= a < Size() && !Covers(nodes, a) ==> ram.bytes[a] == old(ram.bytes[a])
    {
      CanonicalSeparated(nodes);
      var previous, next, k := Neighbours(base);
      NeighbourWords(ram.words, nodes, k, base, length, Size());
      ghost var before := ram.words;
      WriteNode(previous, next, base, length);
      nodes := InsertEdit(before, ram.words, nodes, k, base, length);
    }

    /** Header plus padding for a block carved from a node at `current`. */
    method OffsetIn(current: int, alignment: int) returns (offset: int)
      requires 0 < alignment <= MAX_OFFSET + 1 - HEADER_BYTES
      ensures offset == Offset(current, alignment) == HEADER_BYTES + (current + HEADER_BYTES) % alignment
      ensures HEADER_BYTES <= offset <= MAX_OFFSET
    {
      offset := HEADER_BYTES;
      var alignOffset := alignment - (current + offset) % alignment;
      offset := offset + (alignment - alignOffset) % alignment;
      OffsetValue(current, alignment);
      OffsetBounds(current, alignment);
    }

    /** Whether the node at `current` fits and is smaller than the best so far. */
    method Improves(current: int, bestFit: int, alignment: int, size: int, ghost pad: Padding)
      returns (better: bool, alignmentOffset: int)
      requires ram.Valid() && Request(alignment, size)
      requires 0 < current && current + NODE_BYTES <= Size()
      requires bestFit != 0 ==> 0 < bestFit && bestFit + NODE_BYTES <= Size()
      requires forall a {:trigger Offset(a, alignment)} :: pad(a) == Offset(a, alignment)
      ensures better <==> (size + pad(current)) % TWO_32 <= ram.words(current)
                          && (bestFit == 0 || ram.words(current) < ram.words(bestFit))
      ensures better ==> alignmentOffset == pad(current)
    {
      better, alignmentOffset := false, 0;
      var currentSize := ram.LoadWord(current);
      var skip := false;
      if bestFit != 0 {
        var bestSize := ram.LoadWord(bestFit);
        skip := bestSize <= currentSize;
      }
      if !skip {
        var offset := OffsetIn(current, alignment);
        if (size + offset) % TWO_32 <= currentSize {
          better := true;
          alignmentOffset := SignedChar(ToChar(offset));
        }
      }
    }

    /** One round of the search: the node at `current`, number `c`, is taken if it is better. */
    method Consider(current: int, previous: int, alignment: int, size: int, bestFit0: int, bestPrev0: int, offset0: int,
                    ghost c: int, ghost best0: int, ghost pad: Padding, ghost fit: Fit)
      returns (bestFit: int, bestPrev: int, alignmentOffset: int, ghost best: int)
      requires Walkable() && Request(alignment, size)
      requires forall a {:trigger Offset(a, alignment)} :: pad(a) == Offset(a, alignment)
      requires forall n {:trigger fit(n)} :: fit(n) <==> Passes(n, pad, size)
      requires 0 <= c < |nodes| && current == nodes[c].addr && previous == (if c == 0 then 0 else nodes[c - 1].addr)
      requires Searched(nodes, c, bestFit0, bestPrev0, offset0, best0, pad, fit)
      ensures Searched(nodes, c + 1, bestFit, bestPrev, alignmentOffset, best, pad, fit)
    {
      bestFit, bestPrev, alignmentOffset, best := bestFit0, bestPrev0, offset0, best0;
      assert StoredAt(ram.words, nodes, c);
      assert bestFit != 0 ==> StoredAt(ram.words, nodes, best);
      SearchStep(nodes, c, bestFit, bestPrev, alignmentOffset, best, pad, fit);
      var better, offset := Improves(current, bestFit, alignment, size, pad);
      if better {
        alignmentOffset := offset;
        bestFit := current;
        bestPrev := previous;
        best := c;
      }
    }

    /** The smallest node that passes the test for a fit, and its predecessor; NULL when none passes. */
    method Search(alignment: int, size: int, ghost pad: Padding, ghost fit: Fit)
      returns (bestFit: int, bestPrev: int, alignmentOffset: int, ghost best: int)
      requires Walkable() && Request(alignment, size)
      requires forall a {:trigger Offset(a, alignment)} :: pad(a) == Offset(a, alignment)
      requires forall n {:trigger fit(n)} :: fit(n) <==> Passes(n, pad, size)
      ensures BestSoFar(nodes, |nodes|, bestFit != 0, best, fit)
      ensures bestFit != 0 ==> ChosenAt(nodes, best, bestFit, bestPrev) && alignmentOffset == pad(bestFit)
    {
      var previous, current := 0, start;
      bestPrev, bestFit, alignmentOffset, best := 0, 0, 0, 0;
      ghost var c := 0;
      while current != 0
        invariant 0 <= c <= |nodes| && current == AddrAt(nodes, c)
        invariant previous == if c == 0 then 0 else nodes[c - 1].addr
        invariant Searched(nodes, c, bestFit, bestPrev, alignmentOffset, best, pad, fit)
        decreases |nodes| - c
      {
        bestFit, bestPrev, alignmentOffset, best :=
          Consider(current, previous, alignment, size, bestFit, bestPrev, alignmentOffset, c, best, pad, fit);
        assert StoredAt(ram.words, nodes, c);
        previous := current;
        current := ram.LoadWord(current + 4);
        c := c + 1;
      }
    }

    /** Writes the node left behind a block, linked as the node it is taken from was. */
    method StoreRemainder(bestFit: int, next: int, size: int)
      requires ram.Valid() && 0 < bestFit && bestFit + NODE_BYTES <= next && next + NODE_BYTES <= Size()
      requires 0 <= size < TWO_32 && 0 <= ram.words(bestFit + 4) < TWO_32
      modifies ram`words, ram.bytes
      ensures ram.Valid() && ram.words(next) == size && ram.words(next + 4) == old(ram.words)(bestFit + 4)
      ensures Untouched(old(ram.words), ram.words, next, next)
      ensures forall a :: 0 <= a < Size() && !(next <= a < next + NODE_BYTES) ==> ram.bytes[a] == old(ram.bytes[a])
    {
      var after := ram.LoadWord(bestFit + 4);
      ram.StoreWord(next + 4, after);
      ram.StoreWord(next, size);
    }

    /** Takes the front of the node at `bestFit` off the list, leaving a remainder when it can hold a node. */
    method Unlink(bestFit: int, bestPrev: int, wanted: int) returns (taken: int)
      requires ram.Valid() && 0 < bestFit && NODE_BYTES <= wanted <= ram.words(bestFit) <= Size() - bestFit
      requires Size() <= ADDRESS_LIMIT && 0 <= ram.words(bestFit + 4)
      requires bestPrev == 0 || 0 < bestPrev <= bestPrev + NODE_BYTES <= bestFit
      requires ram.words(bestFit + 4) <= ADDRESS_LIMIT
      modifies `start, ram`words, ram.bytes
      ensures ram.Valid() && TakeWritten(old(ram.words), ram.words, bestFit, bestPrev, taken)
      ensures taken == if wanted + NODE_BYTES < old(ram.words)(bestFit) then wanted else old(ram.words)(bestFit)
      ensures start == if bestPrev != 0 then old(start)
                       else if taken < old(ram.words)(bestFit) then bestFit + taken else old(ram.words)(bestFit + 4)
      ensures forall a :: 0 <= a < Size() && !(bestFit <= a < bestFit + old(ram.words)(bestFit))
                          && !(0 < bestPrev <= a < bestPrev + NODE_BYTES) ==>
                ram.bytes[a] == old(ram.bytes[a])
    {
      var next := ram.LoadWord(bestFit + 4);
      var size := ram.LoadWord(bestFit);
      taken := wanted;
      if taken + NODE_BYTES < size {
        next := bestFit + taken;
        StoreRemainder(bestFit, next, size - taken);
      } else {
        taken := size;
      }
      if bestPrev == 0 {
        start := next;
      } else {
        ram.StoreWord(bestPrev + 4, next);
      }
    }

    /** Writes a block's header, and the length in front of the payload into the byte before it. */
    method WriteHeader(base: int, total: int, requested: int, offset: int)
      requires ram.Valid() && 0 < base && 0 <= requested && 0 <= total <= ADDRESS_LIMIT
      requires HEADER_BYTES <= offset <= MAX_OFFSET && offset + requested <= total && base + total <= Size()
      modifies ram`words, ram.bytes
      ensures ram.Valid() && HeaderStored(base + offset, Block(base, total, requested, offset))
      ensures forall b :: b + 4 <= base || base + offset <= b ==> ram.words(b) == old(ram.words)(b)
      ensures forall a :: 0 <= a < Size() && !(base <= a < base + offset) ==> ram.bytes[a] == old(ram.bytes[a])
    {
      ram.StoreWord(base, total);
      ram.StoreWord(base + 4, requested);
      ram.StoreByte(base + 8, ToChar(offset));
      ram.StoreByte(base + offset - 1, ToChar(offset));
    }

    ghost predicate HeaderStored(p: int, b: Block)
      reads Repr
    {
      HeaderIn(ram.words, ram.bytes[..], p, b)
    }

    ghost function State(): State
      reads this
    {
      HeapStates.State.State(nodes, live)
    }

    /** The list is sound, free nodes and live blocks partition `pool`, and every live block can be found again. */
    ghost predicate Valid()
      reads Repr
    {
      && ListValid()
      && Partition(State(), pool)
      && (forall p :: p in live ==> HeaderStored(p, live[p]))
    }

    /** Turns the front of node `best` into a block. */
    method Carve(bestFit: int, bestPrev: int, size: int, offset: int, ghost best: int) returns (taken: int)
      requires ListValid() && 0 <= best < |nodes|
      requires bestFit == nodes[best].addr && bestPrev == (if best == 0 then 0 else nodes[best - 1].addr)
      requires 0 < size && HEADER_BYTES <= offset <= MAX_OFFSET && size + offset <= nodes[best].size
      modifies `start, `nodes, ram`words, ram.bytes
      ensures ListValid() && nodes == Take(old(nodes), best, taken)
      ensures taken == if size + offset + NODE_BYTES < old(nodes)[best].size then size + offset else old(nodes)[best].size
      ensures HeaderStored(bestFit + offset, Block(bestFit, taken, size, offset))
      ensures forall a :: 0 <= a < Size() && !Covers(old(nodes), a) ==> ram.bytes[a] == old(ram.bytes[a])
    {
      NodeWords(ram.words, nodes, best, Size());
      ghost var before := ram.words;
      taken := Unlink(bestFit, bestPrev, size + offset);
      WriteHeader(bestFit, taken, size, offset);
      assert TakeWritten(before, ram.words, bestFit, bestPrev, taken);
      forall a | 0 <= a < Size() && !Covers(nodes, a)
        ensures ram.bytes[a] == old(ram.bytes[a])
      {
        assert !InNode(nodes[best], a) && (best > 0 ==> !InNode(nodes[best - 1], a));
      }
      nodes := TakeEdit(before, ram.words, nodes, best, taken);
    }

    /** Takes what start-up freed as the memory to manage. */
    ghost method Adopt()
      requires ListValid() && live == map[]
      modifies `pool
      ensures Valid() && pool == iset a | Covers(nodes, a)
    {
      pool := iset a | Covers(nodes, a);
    }

    /** NULL or a fresh block; nothing the owners of live blocks can see changes. */
    method AlignedAlloc(alignment: int, size: int) returns (p: int)
      requires Valid() && Request(alignment, size) && TestedRight(nodes, PaddingFor(alignment), size)
      modifies `start, `nodes, `live, ram`words, ram.bytes
      ensures Valid()
      ensures AllocStep(old(State()), alignment, size, p, State())
      ensures forall a :: 0 <= a < Size() && Allocated(old(live), a) ==> ram.bytes[a] == old(ram.bytes[a])
    {
      p := 0;
      if size != 0 {
        ghost var pad := PaddingFor(alignment);
        ghost var fit: Fit := n => Passes(n, pad, size);
        PaddingInRange(alignment);
        CanonicalSeparated(nodes);
        var bestFit, bestPrev, offset, best := Search(alignment, size, pad, fit);
        BestFits(nodes, bestFit != 0, best, pad, size, fit);
        if bestFit != 0 {
          p := AllocateFrom(bestFit, bestPrev, offset, size, pad, best);
        }
      }
    }

    /** Hands out a block from the node the search chose. */
    method AllocateFrom(bestFit: int, bestPrev: int, offset: int, size: int, ghost pad: Padding, ghost best: int)
      returns (p: int)
      requires Valid() && 0 < size && PadInRange(pad)
      requires BestFit(nodes, best, pad, size) && offset == pad(bestFit)
      requires bestFit == nodes[best].addr && bestPrev == (if best == 0 then 0 else nodes[best - 1].addr)
      modifies `start, `nodes, `live, ram`words, ram.bytes
      ensures Valid()
      ensures AllocAt(old(State()), best, pad, size, p, State())
      ensures forall a :: 0 <= a < Size() && Allocated(old(live), a) ==> ram.bytes[a] == old(ram.bytes[a])
    {
      ghost var before, oldWords, oldBytes := State(), ram.words, ram.bytes[..];
      var taken := Carve(bestFit, bestPrev, size, offset, best);
      p := bestFit + offset;
      live := live[p := Block(bestFit, taken, size, offset)];

      AllocOutcome(before, best, pad, size, p, State(), pool, oldWords, oldBytes, ram.words, ram.bytes[..]);
    }

    /** Requests that stay clear of wrap-around are tested right. */
    lemma TestsRight(alignment: int, size: int)
      requires Valid() && Allowed(alignment, size)
      ensures TestedRight(nodes, PaddingFor(alignment), size)
    {
      CanonicalSeparated(nodes);
      AllowedTestedRight(nodes, alignment, size);
    }

    method Malloc(size: int) returns (p: int)
      requires Valid() && Request(8, size) && TestedRight(nodes, PaddingFor(8), size)
      modifies `start, `nodes, `live, ram`words, ram.bytes
      ensures Valid()
      ensures AllocStep(old(State()), 8, size, p, State())
      ensures forall a :: 0 <= a < Size() && Allocated(old(live), a) ==> ram.bytes[a] == old(ram.bytes[a])
    {
      p := AlignedAlloc(8, size);
    }

    /** Finds the block's header through the byte before the payload and frees exactly its bytes. */
    method Free(ptr: int)
      requires Valid() && ptr in live
      modifies `start, `nodes, `live, ram`words, ram.bytes
      ensures Valid()
      ensures FreeStep(old(State()), ptr, State())
      ensures forall a :: 0 <= a < Size() && Allocated(live, a) ==> ram.bytes[a] == old(ram.bytes[a])
    {
      ghost var before, oldWords, oldBytes := State(), ram.words, ram.bytes[..];
      ghost var b := live[ptr];
      assert Shaped(ptr, b) && HeaderStored(ptr, b);
      var alignOffset := SignedChar(ram.bytes[ptr - 1]);
      var header := ptr - alignOffset;
      var totalSize := ram.LoadWord(header);
      BlockUnused(before, pool, ptr);
      FreeMemory(header, totalSize);
      live := live - {ptr};

      FreePreserves(before, ptr, State(), pool);
      HeadersKept(State(), pool, oldWords, oldBytes, ram.words, ram.bytes[..]);
    }

    /** An owner may write its payload at any time. */
    method WritePayload(ptr: int, i: int, v: Byte)
      requires Valid() && ptr in live && 0 <= i < live[ptr].requested
      modifies ram`words, ram.bytes
      ensures Valid()
      ensures ram.bytes[ptr + i] == v
      ensures forall a :: 0 <= a < Size() && a != ptr + i ==> ram.bytes[a] == old(ram.bytes[a])
    {
      ghost var before := ram.words;
      assert Shaped(ptr, live[ptr]) && HeaderStored(ptr, live[ptr]);
      ram.StoreByte(ptr + i, v);
      LinkedElsewhere(before, ram.words, State(), pool, ptr, ptr + i);
      forall q | q in live
        ensures HeaderStored(q, live[q])
      {
        assert Shaped(q, live[q]) && old(HeaderStored(q, live[q]));
        assert q != ptr ==> Apart(live[q], live[ptr]);
      }
    }
  }

  /** A heap over new memory, nothing of which is free yet. */
  method NewHeap(size: nat) returns (heap: Heap)
    requires size <= ADDRESS_LIMIT
    ensures heap.ListValid() && heap.nodes == [] && heap.live == map[] && heap.Size() == size
    ensures fresh(heap) && fresh(heap.ram) && fresh(heap.ram.bytes)
  {
    var bytes := new Byte[size];
    var ram := new Ram(bytes);
    heap := new Heap(ram);
  }

  /** A search that finds a node for nearly 4 GiB in one of 4 KiB: the sum of size and padding wraps
      around to 8. */
  method WrongFit() returns (heap: Heap, bestFit: int)
    ensures fresh(heap) && heap.ListValid() && heap.nodes == [Node(0x1000, 0x1000)] && bestFit == 0x1000
    ensures !Fits(heap.nodes[0], PaddingFor(8), 0xFFFF_FFF8)
  {
    heap := NewHeap(0x2000);
    heap.FreeMemory(0x1000, 0x1000);
    ghost var ns := [Node(0x1000, 0x1000)];
    assert ns[1..] == [] && Canonical(ns);
    forall a ensures Covers(heap.nodes, a) <==> Covers(ns, a) {
      assert InNode(ns[0], a) ==> Covers(ns, a);
    }
    CanonicalUnique(heap.nodes, ns);
    ghost var pad := PaddingFor(8);
    ghost var fit: Fit := n => Passes(n, pad, 0xFFFF_FFF8);
    assert pad(0x1000) == 16 && fit(ns[0]);
    CanonicalSeparated(ns);
    var found, _, _, best := heap.Search(8, 0xFFFF_FFF8, pad, fit);
    bestFit := found;
  }
}
