/**
 What the heap looks like from outside: free ranges and the blocks handed out,
 the steps malloc and free take, and what holds over every run of them.
 */
module HeapStates {
  import opened Arithmetic
  import opened FreeList
  import opened PhysicalMemory

  /** Managed memory ends far enough below 4 GiB that no address computation wraps. */
  const ADDRESS_LIMIT: int := 0xFFFF_FF00

  /** sizeof(AllocatedRegionHeader): two 32-bit sizes and a `char`, padded. */
  const HEADER_BYTES: int := 12

  /** The largest header-and-padding length a signed `char` can record. */
  const MAX_OFFSET: int := 127

  /** A block handed out: `total` bytes from `base`, of which the payload starts after `offset`. */
  datatype Block = Block(base: int, total: int, requested: int, offset: int)

  /** Free ranges, and live blocks by the pointer their owner holds. */
  datatype State = State(nodes: seq<Node>, live: map<int, Block>)

  ghost predicate InBlock(b: Block, a: int) {
    b.base <= a < b.base + b.total
  }

  ghost predicate Allocated(live: map<int, Block>, a: int) {
    exists p :: p in live && InBlock(live[p], a)
  }

  ghost predicate Shaped(p: int, b: Block) {
    && 0 < b.base && p == b.base + b.offset && 0 < b.requested
    && HEADER_BYTES <= b.offset <= MAX_OFFSET
    && b.offset + b.requested <= b.total
  }

  ghost predicate Apart(b: Block, c: Block) {
    b.base + b.total <= c.base || c.base + c.total <= b.base
  }

  /** Free nodes and live blocks are pairwise disjoint and cover exactly `pool`; the free list is
      canonical. */
  ghost predicate Partition(s: State, pool: iset<int>) {
    && Canonical(s.nodes)
    && (forall p :: p in s.live ==> Shaped(p, s.live[p]))
    && (forall p, q :: p in s.live && q in s.live && p != q ==> Apart(s.live[p], s.live[q]))
    && (forall a :: Allocated(s.live, a) ==> !Covers(s.nodes, a))
    && (forall a :: a in pool <==> Covers(s.nodes, a) || Allocated(s.live, a))
  }

  // ----- choosing and carving a node -----

  /** Header plus padding in front of a payload placed in a node at `addr`. */
  function Offset(addr: int, alignment: int): int
    requires 0 < alignment
  {
    var alignOffset := alignment - (addr + HEADER_BYTES) % alignment;
    HEADER_BYTES + (alignment - alignOffset) % alignment
  }

  lemma OffsetValue(addr: int, alignment: int)
    requires 0 < alignment
    ensures Offset(addr, alignment) == HEADER_BYTES + (addr + HEADER_BYTES) % alignment
  {
    var r := (addr + HEADER_BYTES) % alignment;
    assert (alignment - (alignment - r)) % alignment == r % alignment == r;
  }

  lemma OffsetBounds(addr: int, alignment: int)
    requires 0 < alignment <= MAX_OFFSET + 1 - HEADER_BYTES
    ensures HEADER_BYTES <= Offset(addr, alignment) <= MAX_OFFSET
  {
    OffsetValue(addr, alignment);
  }

  /** How much a payload placed in a node at a given address is pushed back. */
  type Padding = int -> int

  function PaddingFor(alignment: int): (pad: Padding)
    requires 0 < alignment
  {
    (addr: int) => Offset(addr, alignment)
  }

  predicate Fits(n: Node, pad: Padding, size: int) {
    size + pad(n.addr) <= n.size
  }

  /** A test for a fit. */
  type Fit = Node -> bool

  /** The test of the source, made on unsigned 32-bit numbers. */
  predicate Passes(n: Node, pad: Padding, size: int) {
    (size + pad(n.addr)) % TWO_32 <= n.size
  }

  /** Node `k` is the smallest of the first `c` nodes that pass the test, the lowest-addressed among equals. */
  ghost predicate BestAmong(ns: seq<Node>, c: int, k: int, fit: Fit)
    requires 0 <= c <= |ns|
  {
    && 0 <= k < c && fit(ns[k])
    && (forall j :: 0 <= j < c && fit(ns[j]) ==>
          ns[k].size < ns[j].size || (ns[k].size == ns[j].size && k <= j))
  }

  ghost predicate BestFit(ns: seq<Node>, k: int, pad: Padding, size: int)
  {
    BestAmong(ns, |ns|, k, n => Fits(n, pad, size))
  }

  /** The best of the first `c` nodes, or none of them passes. */
  ghost predicate BestSoFar(ns: seq<Node>, c: int, found: bool, k: int, fit: Fit)
    requires 0 <= c <= |ns|
  {
    if found then BestAmong(ns, c, k, fit)
    else forall j :: 0 <= j < c ==> !fit(ns[j])
  }

  /** Node `k` starts at `addr`, and the node before it (NULL for none) at `previous`. */
  predicate ChosenAt(ns: seq<Node>, k: int, addr: int, previous: int) {
    0 <= k < |ns| && addr == ns[k].addr && previous == if k == 0 then 0 else ns[k - 1].addr
  }

  lemma BestStep(ns: seq<Node>, c: int, found: bool, k: int, fit: Fit)
    requires 0 <= c < |ns| && BestSoFar(ns, c, found, k, fit)
    ensures if (found && ns[k].size <= ns[c].size) || !fit(ns[c])
            then BestSoFar(ns, c + 1, found, k, fit)
            else BestSoFar(ns, c + 1, true, c, fit)
  {
  }

  /** Where the search stands after `c` nodes: the best of them with its predecessor and its padding. */
  ghost predicate Searched(ns: seq<Node>, c: int, bestFit: int, bestPrev: int, offset: int, best: int, pad: Padding, fit: Fit)
    requires 0 <= c <= |ns|
  {
    && BestSoFar(ns, c, bestFit != 0, best, fit)
    && (bestFit != 0 ==> ChosenAt(ns, best, bestFit, bestPrev) && offset == pad(bestFit))
  }

  lemma {:induction false} SearchStep(ns: seq<Node>, c: int, bestFit: int, bestPrev: int, offset: int, best: int, pad: Padding, fit: Fit)
    requires 0 <= c < |ns| && Searched(ns, c, bestFit, bestPrev, offset, best, pad, fit) && ns[c].addr != 0
    ensures if fit(ns[c]) && (bestFit == 0 || ns[c].size < ns[best].size)
            then Searched(ns, c + 1, ns[c].addr, if c == 0 then 0 else ns[c - 1].addr, pad(ns[c].addr), c, pad, fit)
            else Searched(ns, c + 1, bestFit, bestPrev, offset, best, pad, fit)
  {
    BestStep(ns, c, bestFit != 0, best, fit);
  }

  /** The block carved from the front of node `n`; a tail too short for a node stays with it. */
  function BlockFor(n: Node, pad: Padding, size: int): Block
  {
    var offset := pad(n.addr);
    Block(n.addr, if size + offset + NODE_BYTES < n.size then size + offset else n.size, size, offset)
  }

  /** Requests whose padding the header can record. */
  predicate Request(alignment: int, size: int) {
    0 < alignment <= MAX_OFFSET + 1 - HEADER_BYTES && 0 <= size < TWO_32
  }

  /** Requests that stay clear of 32-bit wrap-around wherever they are placed. */
  predicate Allowed(alignment: int, size: int) {
    Request(alignment, size) && size + MAX_OFFSET < TWO_32
  }

  /** No node passes the test that is in fact too small. */
  ghost predicate TestedRight(ns: seq<Node>, pad: Padding, size: int) {
    forall k :: 0 <= k < |ns| && Passes(ns[k], pad, size) ==> Fits(ns[k], pad, size)
  }

  /** The sum of size and padding wraps around, and what is left of it fits. */
  predicate Wraps(n: Node, pad: Padding, size: int) {
    TWO_32 <= size + pad(n.addr) <= n.size + TWO_32
  }

  lemma PassesExactlyWhen(n: Node, pad: Padding, size: int)
    requires 0 <= size < TWO_32 && PadInRange(pad) && 0 <= n.size <= ADDRESS_LIMIT
    ensures Passes(n, pad, size) <==> Fits(n, pad, size) || Wraps(n, pad, size)
    ensures !(Fits(n, pad, size) && Wraps(n, pad, size))
  {
    var sum := size + pad(n.addr);
    if sum >= TWO_32 {
      DivisionUnique(sum, TWO_32, 1, sum - TWO_32);
    } else {
      SmallMod(sum, TWO_32);
    }
  }

  /** Some node passes although none is large enough, for a whole list: exactly when for some node the
      sum wraps around and what is left of it fits. Otherwise some node passes exactly when one fits. */
  lemma WrongFitExactlyWhen(ns: seq<Node>, pad: Padding, size: int)
    requires 0 <= size < TWO_32 && PadInRange(pad) && forall k :: 0 <= k < |ns| ==> 0 <= ns[k].size <= ADDRESS_LIMIT
    ensures (exists k :: 0 <= k < |ns| && Passes(ns[k], pad, size)) && (forall k :: 0 <= k < |ns| ==> !Fits(ns[k], pad, size))
            <==> exists k :: 0 <= k < |ns| && Wraps(ns[k], pad, size)
    ensures TestedRight(ns, pad, size) <==> forall k :: 0 <= k < |ns| ==> !Wraps(ns[k], pad, size)
  {
    forall k | 0 <= k < |ns|
      ensures Passes(ns[k], pad, size) <==> Fits(ns[k], pad, size) || Wraps(ns[k], pad, size)
      ensures !(Fits(ns[k], pad, size) && Wraps(ns[k], pad, size))
    {
      PassesExactlyWhen(ns[k], pad, size);
    }
    forall j, k | 0 <= j < |ns| && 0 <= k < |ns| && Wraps(ns[j], pad, size)
      ensures !Fits(ns[k], pad, size)
    {
      assert pad(ns[j].addr) <= MAX_OFFSET && pad(ns[k].addr) >= HEADER_BYTES;
    }
  }

  lemma AllowedTestedRight(ns: seq<Node>, alignment: int, size: int)
    requires Allowed(alignment, size) && forall k :: 0 <= k < |ns| ==> 0 <= ns[k].size <= ADDRESS_LIMIT
    ensures TestedRight(ns, PaddingFor(alignment), size)
  {
    PaddingInRange(alignment);
    WrongFitExactlyWhen(ns, PaddingFor(alignment), size);
  }

  /** When the test is right, the best of the nodes that pass is the best of those that fit. */
  lemma BestFits(ns: seq<Node>, found: bool, k: int, pad: Padding, size: int, fit: Fit)
    requires 0 <= size < TWO_32 && PadInRange(pad) && forall i :: 0 <= i < |ns| ==> 0 <= ns[i].size <= ADDRESS_LIMIT
    requires TestedRight(ns, pad, size) && forall n {:trigger fit(n)} :: fit(n) <==> Passes(n, pad, size)
    requires BestSoFar(ns, |ns|, found, k, fit)
    ensures if found then BestFit(ns, k, pad, size) else forall i :: 0 <= i < |ns| ==> !Fits(ns[i], pad, size)
  {
    forall i | 0 <= i < |ns|
      ensures fit(ns[i]) <==> Fits(ns[i], pad, size)
    {
      PassesExactlyWhen(ns[i], pad, size);
    }
  }

  ghost predicate AllocAt(s: State, k: int, pad: Padding, size: int, r: int, s': State)
  {
    && BestFit(s.nodes, k, pad, size)
    && var b := BlockFor(s.nodes[k], pad, size);
       r == b.base + b.offset && s' == State(Take(s.nodes, k, b.total), s.live[r := b])
  }

  /** NULL exactly for a zero size or when no node fits; otherwise a block from the best fit. */
  ghost predicate AllocStep(s: State, alignment: int, size: int, r: int, s': State)
    requires 0 < alignment
  {
    var pad := PaddingFor(alignment);
    if size == 0 || forall k :: 0 <= k < |s.nodes| ==> !Fits(s.nodes[k], pad, size)
    then r == 0 && s' == s
    else exists k :: AllocAt(s, k, pad, size, r, s')
  }

  /** The block's bytes, and no others, go back to the free list. */
  ghost predicate FreeStep(s: State, p: int, s': State) {
    && p in s.live && s'.live == s.live - {p}
    && Canonical(s'.nodes)
    && (forall a :: Covers(s'.nodes, a) <==> Covers(s.nodes, a) || InBlock(s.live[p], a))
  }

  // ----- one step -----

  ghost predicate PadInRange(pad: Padding) {
    forall a :: HEADER_BYTES <= pad(a) <= MAX_OFFSET
  }

  lemma PaddingInRange(alignment: int)
    requires 0 < alignment <= MAX_OFFSET + 1 - HEADER_BYTES
    ensures PadInRange(PaddingFor(alignment))
  {
    var pad := PaddingFor(alignment);
    forall a
      ensures HEADER_BYTES <= pad(a) <= MAX_OFFSET
    {
      OffsetBounds(a, alignment);
    }
  }

  lemma BlockInside(n: Node, pad: Padding, size: int)
    requires PadInRange(pad) && 0 < size && 0 < n.addr && Fits(n, pad, size)
    ensures var b := BlockFor(n, pad, size);
            Shaped(b.base + b.offset, b) && b.total <= n.size && Takeable(n, b.total)
  {
  }

  /** A live block and a free node share no byte, so one ends before the other starts. */
  lemma BlockClearOfNode(s: State, pool: iset<int>, p: int, i: int)
    requires Partition(s, pool) && p in s.live && 0 <= i < |s.nodes|
    ensures s.live[p].base + s.live[p].total <= s.nodes[i].addr || s.nodes[i].addr + s.nodes[i].size <= s.live[p].base
  {
    var b, n := s.live[p], s.nodes[i];
    CanonicalSeparated(s.nodes);
    var a := if b.base < n.addr then n.addr else b.base;
    if InBlock(b, a) && InNode(n, a) {
      assert Allocated(s.live, a) && Covers(s.nodes, a);
      assert false;
    }
  }

  lemma AllocAtPreserves(s: State, k: int, pad: Padding, size: int, r: int, s': State, pool: iset<int>)
    requires Partition(s, pool) && PadInRange(pad) && 0 < size
    requires AllocAt(s, k, pad, size, r, s')
    ensures r !in s.live && r != 0 && Partition(s', pool)
  {
    var n := s.nodes[k];
    var b := BlockFor(n, pad, size);
    CanonicalSeparated(s.nodes);
    BlockInside(n, pad, size);
    TakeCanonical(s.nodes, k, b.total);
    TakeCovers(s.nodes, k, b.total);
    forall p | p in s.live
      ensures Apart(s.live[p], b) && p != r
    {
      BlockClearOfNode(s, pool, p, k);
      assert Shaped(p, s.live[p]);
    }
    forall a
      ensures Allocated(s'.live, a) <==> Allocated(s.live, a) || InBlock(b, a)
    {
      if Allocated(s.live, a) {
        var p :| p in s.live && InBlock(s.live[p], a);
        assert p in s'.live && s'.live[p] == s.live[p];
      }
      if InBlock(b, a) {
        assert r in s'.live && InBlock(s'.live[r], a);
      }
    }
    forall a
      ensures Allocated(s'.live, a) ==> !Covers(s'.nodes, a)
      ensures a in pool <==> Covers(s'.nodes, a) || Allocated(s'.live, a)
    {
      assert InBlock(b, a) ==> InNode(n, a);
    }
  }

  lemma AllocPreserves(s: State, alignment: int, size: int, r: int, s': State, pool: iset<int>)
    requires Partition(s, pool) && Request(alignment, size) && AllocStep(s, alignment, size, r, s')
    ensures Partition(s', pool)
    ensures r == 0 ==> s' == s
    ensures r != 0 ==> r !in s.live && r in s'.live && s'.live - {r} == s.live
  {
    var pad := PaddingFor(alignment);
    if !(size == 0 || forall k :: 0 <= k < |s.nodes| ==> !Fits(s.nodes[k], pad, size)) {
      var k :| AllocAt(s, k, pad, size, r, s');
      PaddingInRange(alignment);
      AllocAtPreserves(s, k, pad, size, r, s', pool);
    }
  }

  lemma FreePreserves(s: State, p: int, s': State, pool: iset<int>)
    requires Partition(s, pool) && FreeStep(s, p, s')
    ensures Partition(s', pool)
  {
    var b := s.live[p];
    forall a
      ensures Allocated(s'.live, a) <==> Allocated(s.live, a) && !InBlock(b, a)
    {
      if Allocated(s.live, a) && !InBlock(b, a) {
        var q :| q in s.live && InBlock(s.live[q], a);
        assert q in s'.live && s'.live[q] == s.live[q];
      }
      if Allocated(s'.live, a) {
        var q :| q in s'.live && InBlock(s'.live[q], a);
        assert q in s.live && s'.live[q] == s.live[q] && Apart(s.live[q], b);
      }
    }
    forall a
      ensures Allocated(s'.live, a) ==> !Covers(s'.nodes, a)
      ensures a in pool <==> Covers(s'.nodes, a) || Allocated(s'.live, a)
    {
      assert InBlock(b, a) ==> Allocated(s.live, a);
    }
  }

  /** The header bytes of a live block are allocated, hence not free. */
  lemma KeptIn(s: State, pool: iset<int>, p: int)
    requires Partition(s, pool) && p in s.live
    ensures Shaped(p, s.live[p])
    ensures forall a :: s.live[p].base <= a < s.live[p].base + s.live[p].total ==> Allocated(s.live, a) && !Covers(s.nodes, a)
  {
    forall a | s.live[p].base <= a < s.live[p].base + s.live[p].total
      ensures Allocated(s.live, a) && !Covers(s.nodes, a)
    {
      assert InBlock(s.live[p], a);
    }
  }

  lemma BlockUnused(s: State, pool: iset<int>, p: int)
    requires Partition(s, pool) && p in s.live
    ensures Unused(s.nodes, s.live[p].base, s.live[p].total)
  {
    KeptIn(s, pool, p);
  }

  /** Writing inside a live block leaves the free list's words alone. */
  lemma LinkedElsewhere(words: int -> int, words': int -> int, s: State, pool: iset<int>, p: int, a: int)
    requires Partition(s, pool) && p in s.live && InBlock(s.live[p], a) && Linked(words, s.nodes)
    requires forall b :: b + 4 <= a || a < b ==> words'(b) == words(b)
    ensures Linked(words', s.nodes)
  {
    CanonicalSeparated(s.nodes);
    forall i | 0 <= i < |s.nodes|
      ensures StoredAt(words', s.nodes, i)
    {
      assert StoredAt(words, s.nodes, i);
      BlockClearOfNode(s, pool, p, i);
    }
  }

  /** Block `b`'s bytes let free find it again from the pointer `p` alone. */
  ghost predicate HeaderIn(words: int -> int, m: seq<Byte>, p: int, b: Block) {
    && 0 <= b.base && b.base + NODE_BYTES < p <= |m| && b.base + b.total <= |m|
    && words(b.base) == b.total && words(b.base + 4) == b.requested
    && SignedChar(m[p - 1]) == b.offset
  }

  /** Headers whose bytes did not change can still be read. */
  lemma HeadersKept(s: State, pool: iset<int>, words: int -> int, m: seq<Byte>, words': int -> int, m': seq<Byte>)
    requires Mirrors(words, m) && Mirrors(words', m') && |m| == |m'| && Partition(s, pool)
    requires forall p :: p in s.live ==> HeaderIn(words, m, p, s.live[p])
    requires forall a :: 0 <= a < |m| && Allocated(s.live, a) ==> m'[a] == m[a]
    ensures forall p :: p in s.live ==> HeaderIn(words', m', p, s.live[p])
  {
    forall p | p in s.live
      ensures HeaderIn(words', m', p, s.live[p])
    {
      var b := s.live[p];
      assert HeaderIn(words, m, p, b);
      KeptIn(s, pool, p);
      WordKept(words, m, words', m', b.base);
      WordKept(words, m, words', m', b.base + 4);
    }
  }

  /** After an allocation that left the bytes of live blocks alone, all headers can be read. */
  lemma AllocOutcome(s: State, k: int, pad: Padding, size: int, r: int, s': State, pool: iset<int>,
                     words: int -> int, m: seq<Byte>, words': int -> int, m': seq<Byte>)
    requires Partition(s, pool) && PadInRange(pad) && 0 < size && AllocAt(s, k, pad, size, r, s')
    requires Mirrors(words, m) && Mirrors(words', m') && |m| == |m'|
    requires forall p :: p in s.live ==> HeaderIn(words, m, p, s.live[p])
    requires forall a :: 0 <= a < |m| && !Covers(s.nodes, a) ==> m'[a] == m[a]
    requires HeaderIn(words', m', r, s'.live[r])
    ensures Partition(s', pool)
    ensures forall p :: p in s'.live ==> HeaderIn(words', m', p, s'.live[p])
  {
    AllocAtPreserves(s, k, pad, size, r, s', pool);
    HeadersKept(s, pool, words, m, words', m');
  }

  // ----- every run -----

  /** Writes to payloads do not show at this level; see Heap.WritePayload. */
  datatype Op = Alloc(alignment: int, size: int, result: int) | Free(ptr: int)

  ghost predicate Next(s: State, op: Op, s': State) {
    match op
    case Alloc(alignment, size, r) =>
      Request(alignment, size) && TestedRight(s.nodes, PaddingFor(alignment), size) && AllocStep(s, alignment, size, r, s')
    case Free(p) => FreeStep(s, p, s')
  }

  ghost predicate IsRun(ss: seq<State>, ops: seq<Op>) {
    |ss| == |ops| + 1 && forall i :: 0 <= i < |ops| ==> Next(ss[i], ops[i], ss[i + 1])
  }

  lemma NextPreserves(s: State, op: Op, s': State, pool: iset<int>)
    requires Partition(s, pool) && Next(s, op, s')
    ensures Partition(s', pool)
  {
    match op
    case Alloc(alignment, size, r) => AllocPreserves(s, alignment, size, r, s', pool);
    case Free(p) => FreePreserves(s, p, s', pool);
  }

  /** Conservation: in every state of every run, free nodes and live blocks split the bytes first
      handed over, and the free list is fully coalesced. */
  lemma {:induction false} RunPreserves(ss: seq<State>, ops: seq<Op>, pool: iset<int>, i: int)
    requires IsRun(ss, ops) && Partition(ss[0], pool) && 0 <= i < |ss|
    ensures Partition(ss[i], pool)
  {
    if i > 0 {
      RunPreserves(ss, ops, pool, i - 1);
      NextPreserves(ss[i - 1], ops[i - 1], ss[i], pool);
    }
  }

  /** The free list is a function of the live blocks. */
  lemma SameLiveSameList(s: State, t: State, pool: iset<int>)
    requires Partition(s, pool) && Partition(t, pool) && s.live == t.live
    ensures s == t
  {
    forall a
      ensures Covers(s.nodes, a) <==> Covers(t.nodes, a)
    {
      assert Covers(s.nodes, a) <==> a in pool && !Allocated(s.live, a);
      assert Covers(t.nodes, a) <==> a in pool && !Allocated(t.live, a);
    }
    CanonicalUnique(s.nodes, t.nodes);
  }

  /** Whatever was allocated and freed in between, and in whatever order: once the live blocks are
      those of the start again, the free list is the starting list, node for node. */
  lemma RunRestores(ss: seq<State>, ops: seq<Op>, pool: iset<int>)
    requires IsRun(ss, ops) && Partition(ss[0], pool)
    requires ss[|ops|].live == ss[0].live
    ensures ss[|ops|].nodes == ss[0].nodes
  {
    RunPreserves(ss, ops, pool, |ops|);
    SameLiveSameList(ss[0], ss[|ops|], pool);
  }

  /** Freeing a block just allocated restores the whole heap. */
  lemma FreeUndoesAlloc(s: State, alignment: int, size: int, r: int, s': State, s'': State, pool: iset<int>)
    requires Partition(s, pool) && Request(alignment, size)
    requires AllocStep(s, alignment, size, r, s') && r != 0 && FreeStep(s', r, s'')
    ensures s'' == s
  {
    AllocPreserves(s, alignment, size, r, s', pool);
    FreePreserves(s', r, s'', pool);
    SameLiveSameList(s, s'', pool);
  }

  /** No payload byte of one live block belongs to another block or to the free list. */
  lemma PayloadsDisjoint(ss: seq<State>, ops: seq<Op>, pool: iset<int>, i: int, p: int, a: int)
    requires IsRun(ss, ops) && Partition(ss[0], pool) && 0 <= i < |ss|
    requires p in ss[i].live && p <= a < p + ss[i].live[p].requested
    ensures a in pool && !Covers(ss[i].nodes, a)
    ensures forall q :: q in ss[i].live && q != p ==> !InBlock(ss[i].live[q], a)
  {
    RunPreserves(ss, ops, pool, i);
    var s := ss[i];
    assert Shaped(p, s.live[p]);
    assert InBlock(s.live[p], a);
    assert Allocated(s.live, a);
    forall q | q in s.live && q != p
      ensures !InBlock(s.live[q], a)
    {
      assert Apart(s.live[p], s.live[q]);
    }
  }

  // ----- alignment -----

  /** aligned_alloc pads by the remainder instead of its complement, so the payload is aligned
      exactly when the remainder is zero or half the alignment. */
  lemma AlignedExactlyWhen(addr: int, alignment: int)
    requires 0 < alignment
    ensures (addr + Offset(addr, alignment)) % alignment == 0 <==>
            var r := (addr + HEADER_BYTES) % alignment; r == 0 || 2 * r == alignment
  {
    OffsetValue(addr, alignment);
    var x := addr + HEADER_BYTES;
    var r := x % alignment;
    var q := x / alignment;
    assert x == q * alignment + r;
    assert addr + Offset(addr, alignment) == q * alignment + 2 * r;
    ModShift(q, alignment, 2 * r);
    if 2 * r < alignment {
      SmallMod(2 * r, alignment);
    } else {
      ModShift(1, alignment, 2 * r - alignment);
      SmallMod(2 * r - alignment, alignment);
    }
  }

  /** A run that shows it: after malloc(1) on fresh, aligned memory, malloc(8) returns 0x1022. */
  lemma MisalignedRun() returns (ss: seq<State>, ops: seq<Op>)
    ensures ops == [Alloc(8, 1, 0x1010), Alloc(8, 8, 0x1022)] && IsRun(ss, ops)
    ensures ss[0] == State([Node(0x1000, 0x1000)], map[]) && Partition(ss[0], iset a | Covers(ss[0].nodes, a))
    ensures ops[1].result % 8 != 0
  {
    var pad := PaddingFor(8);
    var (b, c) := (Block(0x1000, 17, 1, 16), Block(0x1011, 25, 8, 17));
    var s := State([Node(0x1000, 0x1000)], map[]);
    var t := State([Node(0x1011, 0xFEF)], map[0x1010 := b]);
    var u := State([Node(0x102A, 0xFD6)], map[0x1010 := b, 0x1022 := c]);
    assert pad(0x1000) == 16 && pad(0x1011) == 17;
    assert s.nodes[1..] == [] && Canonical(s.nodes);
    assert AllocAt(s, 0, pad, 1, 0x1010, t);
    assert AllocAt(t, 0, pad, 8, 0x1022, u);
    AllowedTestedRight(s.nodes, 8, 1);
    AllowedTestedRight(t.nodes, 8, 8);
    ss, ops := [s, t, u], [Alloc(8, 1, 0x1010), Alloc(8, 8, 0x1022)];
    assert Next(s, ops[0], t) && Next(t, ops[1], u);
  }

  /** malloc(4) twice on the same memory: the payloads start 16 and 32 bytes into it. */
  lemma FourByteRun() returns (ss: seq<State>, ops: seq<Op>)
    ensures ops == [Alloc(8, 4, 0x1010), Alloc(8, 4, 0x1020)] && IsRun(ss, ops)
    ensures ss[0] == State([Node(0x1000, 0x1000)], map[]) && ss[2].nodes == [Node(0x1024, 0xFDC)]
  {
    var pad := PaddingFor(8);
    var (b, c) := (Block(0x1000, 20, 4, 16), Block(0x1014, 16, 4, 12));
    var s := State([Node(0x1000, 0x1000)], map[]);
    var t := State([Node(0x1014, 0xFEC)], map[0x1010 := b]);
    var u := State([Node(0x1024, 0xFDC)], map[0x1010 := b, 0x1020 := c]);
    assert pad(0x1000) == 16 && pad(0x1014) == 12;
    assert s.nodes[1..] == [] && Canonical(s.nodes);
    assert AllocAt(s, 0, pad, 4, 0x1010, t);
    assert AllocAt(t, 0, pad, 4, 0x1020, u);
    AllowedTestedRight(s.nodes, 8, 4);
    AllowedTestedRight(t.nodes, 8, 4);
    ss, ops := [s, t, u], [Alloc(8, 4, 0x1010), Alloc(8, 4, 0x1020)];
    assert Next(s, ops[0], t) && Next(t, ops[1], u);
  }

  /** Of three nodes, all large enough, the block is taken from the first of the two smaller ones. */
  lemma {:induction false} SmallestChosen(ns: seq<Node>, r: int, s': State)
    requires ns == [Node(0x1000, 0x1000), Node(0x3000, 0x100), Node(0x4000, 0x100)]
    requires AllocStep(State(ns, map[]), 8, 16, r, s')
    ensures r == 0x3010 && s'.nodes == [Node(0x1000, 0x1000), Node(0x3020, 0xE0), Node(0x4000, 0x100)]
  {
    var pad := PaddingFor(8);
    PadsSixteen(pad);
    assert Fits(ns[0], pad, 16);
    var k :| AllocAt(State(ns, map[]), k, pad, 16, r, s');
    SmallestOfThree(ns, k, n => Fits(n, pad, 16));
    TakenSecond(ns, pad, r, s');
  }

  lemma PadsSixteen(pad: Padding)
    requires pad == PaddingFor(8)
    ensures pad(0x1000) == 16 && pad(0x3000) == 16 && pad(0x4000) == 16
  {
  }

  lemma TakenSecond(ns: seq<Node>, pad: Padding, r: int, s': State)
    requires |ns| == 3 && ns[1] == Node(0x3000, 0x100) && pad(0x3000) == 16 && AllocAt(State(ns, map[]), 1, pad, 16, r, s')
    ensures r == 0x3010 && s'.nodes == [ns[0], Node(0x3020, 0xE0), ns[2]]
  {
  }

  lemma SmallestOfThree(ns: seq<Node>, k: int, fit: Fit)
    requires |ns| == 3 && ns[0].size == 0x1000 && ns[1].size == ns[2].size == 0x100
    requires BestAmong(ns, 3, k, fit) && fit(ns[0]) && fit(ns[1]) && fit(ns[2])
    ensures k == 1
  {
  }

  /** A set made of whole four-byte groups. */
  ghost predicate Quad(pool: iset<int>) {
    forall a :: a in pool <==> a - a % 4 in pool
  }

  ghost predicate QuadLive(live: map<int, Block>) {
    forall p :: p in live ==> live[p].base % 4 == 0 && live[p].total % 4 == 0
  }

  lemma QuadAllocated(live: map<int, Block>, a: int)
    requires QuadLive(live)
    ensures Allocated(live, a) <==> Allocated(live, a - a % 4)
  {
    if Allocated(live, a) {
      var p :| p in live && InBlock(live[p], a);
      assert InBlock(live[p], a - a % 4);
    }
    if Allocated(live, a - a % 4) {
      var p :| p in live && InBlock(live[p], a - a % 4);
      assert InBlock(live[p], a);
    }
  }

  /** When the pool and the live blocks consist of four-byte groups, so do the free nodes. */
  lemma QuadNodes(s: State, pool: iset<int>, i: int)
    requires Partition(s, pool) && Quad(pool) && QuadLive(s.live) && 0 <= i < |s.nodes|
    ensures s.nodes[i].addr % 4 == 0 && s.nodes[i].size % 4 == 0
  {
    NodeEdges(s.nodes, i);
    QuadEdge(s, pool, s.nodes[i].addr);
    QuadEdge(s, pool, s.nodes[i].addr + s.nodes[i].size);
    QuadSum(s.nodes[i].addr, s.nodes[i].size);
  }

  lemma QuadEdge(s: State, pool: iset<int>, a: int)
    requires Partition(s, pool) && Quad(pool) && QuadLive(s.live)
    requires Covers(s.nodes, a - 1) != Covers(s.nodes, a)
    ensures a % 4 == 0
  {
    QuadCovers(s, pool, a);
    QuadCovers(s, pool, a - 1);
    if a % 4 != 0 {
      SameQuad(a);
    }
  }

  lemma SameQuad(a: int)
    requires a % 4 != 0
    ensures a - 1 - (a - 1) % 4 == a - a % 4
  {
  }

  lemma QuadCovers(s: State, pool: iset<int>, a: int)
    requires Partition(s, pool) && Quad(pool) && QuadLive(s.live)
    ensures Covers(s.nodes, a) <==> Covers(s.nodes, a - a % 4)
  {
    QuadAllocated(s.live, a);
    assert Covers(s.nodes, a) <==> a in pool && !Allocated(s.live, a);
    assert Covers(s.nodes, a - a % 4) <==> a - a % 4 in pool && !Allocated(s.live, a - a % 4);
  }

  /** The bytes just outside a node of a canonical list are not covered; those just inside are. */
  lemma NodeEdges(ns: seq<Node>, i: int)
    requires Canonical(ns) && 0 <= i < |ns|
    ensures Covers(ns, ns[i].addr) && !Covers(ns, ns[i].addr - 1)
    ensures Covers(ns, ns[i].addr + ns[i].size - 1) && !Covers(ns, ns[i].addr + ns[i].size)
  {
    CanonicalSeparated(ns);
    CoversAt(ns, i, ns[i].addr);
    CoversAt(ns, i, ns[i].addr + ns[i].size - 1);
    assert forall j :: 0 <= j < |ns| ==> !InNode(ns[j], ns[i].addr - 1) && !InNode(ns[j], ns[i].addr + ns[i].size);
  }

  lemma QuadBlock(n: Node, size: int)
    requires n.addr % 4 == 0 && n.size % 4 == 0 && size % 4 == 0
    ensures var b := BlockFor(n, PaddingFor(8), size);
            b.base % 4 == 0 && b.total % 4 == 0 && (b.base + b.offset) % 8 == 0
  {
    OffsetValue(n.addr, 8);
    AlignedExactlyWhen(n.addr, 8);
    QuadSum(n.addr, HEADER_BYTES);
    var r := (n.addr + HEADER_BYTES) % 8;
    EvenOrOddQuad(n.addr + HEADER_BYTES);
    QuadSum(HEADER_BYTES, r);
    QuadSum(size, HEADER_BYTES + r);
  }

  lemma EvenOrOddQuad(x: int)
    requires x % 4 == 0
    ensures x % 8 == 0 || x % 8 == 4
  {
  }

  lemma QuadSum(x: int, y: int)
    requires x % 4 == 0
    ensures (x + y) % 4 == y % 4
  {
  }

  lemma QuadStep(s: State, op: Op, s': State, pool: iset<int>)
    requires Partition(s, pool) && Quad(pool) && QuadLive(s.live) && Next(s, op, s')
    requires op.Alloc? ==> op.alignment == 8 && op.size % 4 == 0
    ensures QuadLive(s'.live)
    ensures op.Alloc? ==> op.result % 8 == 0
  {
    if op.Alloc? && s' != s {
      var k :| AllocAt(s, k, PaddingFor(8), op.size, op.result, s');
      QuadNodes(s, pool, k);
      QuadBlock(s.nodes[k], op.size);
      var b := BlockFor(s.nodes[k], PaddingFor(8), op.size);
      assert s'.live == s.live[op.result := b];
    }
  }

  /** Over every run of malloc with sizes that are multiples of four, on memory handed over in
      four-byte groups, every pointer returned is 8-byte aligned. */
  lemma {:induction false} RunAligned(ss: seq<State>, ops: seq<Op>, pool: iset<int>, i: int)
    requires IsRun(ss, ops) && Partition(ss[0], pool) && Quad(pool) && QuadLive(ss[0].live)
    requires forall j :: 0 <= j < |ops| && ops[j].Alloc? ==> ops[j].alignment == 8 && ops[j].size % 4 == 0
    requires 0 <= i < |ss|
    ensures QuadLive(ss[i].live)
    ensures forall j :: 0 <= j < i && ops[j].Alloc? ==> ops[j].result % 8 == 0
  {
    if i > 0 {
      RunAligned(ss, ops, pool, i - 1);
      RunPreserves(ss, ops, pool, i - 1);
      QuadStep(ss[i - 1], ops[i - 1], ss[i], pool);
    }
  }
}
