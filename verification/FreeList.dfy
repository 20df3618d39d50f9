/**
 The free list of the heap as a mathematical value: a sequence of address
 ranges, its canonical form, and the two edits the allocator performs.
 */
module FreeList {
  /** sizeof(MemoryNode): a 32-bit size and a 32-bit link. */
  const NODE_BYTES: int := 8

  datatype Node = Node(addr: int, size: int)

  ghost predicate InNode(n: Node, a: int) {
    n.addr <= a < n.addr + n.size
  }

  /** Byte `a` lies in some free node. */
  ghost predicate Covers(ns: seq<Node>, a: int) {
    exists i :: 0 <= i < |ns| && InNode(ns[i], a)
  }

  /** Non-null nodes that can hold their own header, in ascending order, with at least one byte
      between neighbours (so fully coalesced). */
  ghost predicate Canonical(ns: seq<Node>) {
    ns != [] ==>
      && 0 < ns[0].addr && NODE_BYTES <= ns[0].size
      && (|ns| > 1 ==> ns[0].addr + ns[0].size < ns[1].addr)
      && Canonical(ns[1..])
  }

  /** The same, said of every pair of nodes at once. */
  ghost predicate Separated(ns: seq<Node>) {
    && (forall i :: 0 <= i < |ns| ==> 0 < ns[i].addr && NODE_BYTES <= ns[i].size)
    && (forall i, j :: 0 <= i < j < |ns| ==> ns[i].addr + ns[i].size < ns[j].addr)
  }

  lemma {:induction false} CanonicalSeparated(ns: seq<Node>)
    ensures Canonical(ns) <==> Separated(ns)
  {
    if ns != [] {
      var rest := ns[1..];
      CanonicalSeparated(rest);
      assert ns == [ns[0]] + rest;
      if Canonical(ns) {
        forall i, j | 0 <= i < j < |ns|
          ensures ns[i].addr + ns[i].size < ns[j].addr
        {
          assert ns[j] == rest[j - 1];
          assert i > 0 ==> ns[i] == rest[i - 1];
          assert j > 1 ==> rest[0].addr + rest[0].size < rest[j - 1].addr;
        }
      }
    }
  }

  function TotalSize(ns: seq<Node>): int {
    if ns == [] then 0 else ns[0].size + TotalSize(ns[1..])
  }

  lemma {:induction false} TotalSizeConcat(xs: seq<Node>, ys: seq<Node>)
    ensures TotalSize(xs + ys) == TotalSize(xs) + TotalSize(ys)
  {
    if xs == [] {
      assert xs + ys == ys;
    } else {
      TotalSizeConcat(xs[1..], ys);
      assert (xs + ys)[1..] == xs[1..] + ys;
    }
  }

  lemma CoversAt(ns: seq<Node>, i: int, a: int)
    requires 0 <= i < |ns| && InNode(ns[i], a)
    ensures Covers(ns, a)
  {
  }

  lemma CoversConcat(xs: seq<Node>, ys: seq<Node>, a: int)
    ensures Covers(xs + ys, a) <==> Covers(xs, a) || Covers(ys, a)
  {
    var zs := xs + ys;
    if Covers(zs, a) {
      var i :| 0 <= i < |zs| && InNode(zs[i], a);
      if i < |xs| { CoversAt(xs, i, a); } else { CoversAt(ys, i - |xs|, a); }
    }
    if Covers(xs, a) {
      var i :| 0 <= i < |xs| && InNode(xs[i], a);
      assert zs[i] == xs[i];
    }
    if Covers(ys, a) {
      var i :| 0 <= i < |ys| && InNode(ys[i], a);
      assert zs[|xs| + i] == ys[i];
    }
  }

  /** The first node of one list starts no earlier than that of a list covering the same bytes,
      and is no longer. */
  lemma HeadWithin(ns: seq<Node>, ms: seq<Node>)
    requires Separated(ns) && Separated(ms) && ns != []
    requires forall a :: Covers(ns, a) <==> Covers(ms, a)
    ensures ms != [] && ms[0].addr <= ns[0].addr
    ensures ms[0].addr == ns[0].addr ==> ns[0].size <= ms[0].size
  {
    CoversAt(ns, 0, ns[0].addr);
    assert Covers(ms, ns[0].addr);
    var e := ms[0].addr + ms[0].size;
    assert forall j :: 0 <= j < |ms| ==> !InNode(ms[j], e);
    assert !Covers(ns, e);
    assert !InNode(ns[0], e);
  }

  lemma CoversTail(ns: seq<Node>, a: int)
    requires Separated(ns) && ns != []
    ensures Covers(ns[1..], a) <==> Covers(ns, a) && !InNode(ns[0], a)
  {
    assert ns == [ns[0]] + ns[1..];
    CoversConcat([ns[0]], ns[1..], a);
    assert Covers([ns[0]], a) <==> InNode([ns[0]][0], a);
  }

  /** A canonical list is determined by the set of bytes it covers. */
  lemma {:induction false} CanonicalUnique(ns: seq<Node>, ms: seq<Node>)
    requires Canonical(ns) && Canonical(ms)
    requires forall a :: Covers(ns, a) <==> Covers(ms, a)
    ensures ns == ms
  {
    CanonicalSeparated(ns);
    CanonicalSeparated(ms);
    if ns == [] {
      if ms != [] {
        HeadWithin(ms, ns);
      }
    } else {
      HeadWithin(ns, ms);
      HeadWithin(ms, ns);
      assert ns[0] == ms[0];
      assert ns == [ns[0]] + ns[1..] && ms == [ms[0]] + ms[1..];
      forall a
        ensures Covers(ns[1..], a) <==> Covers(ms[1..], a)
      {
        CoversTail(ns, a);
        CoversTail(ms, a);
      }
      CanonicalUnique(ns[1..], ms[1..]);
    }
  }

  /** `ns` with its nodes p .. q - 1 replaced by `mid`. */
  function Splice(ns: seq<Node>, p: int, q: int, mid: seq<Node>): seq<Node>
    requires 0 <= p <= q <= |ns|
  {
    ns[..p] + mid + ns[q..]
  }

  lemma SpliceCovers(ns: seq<Node>, p: int, q: int, mid: seq<Node>, a: int)
    requires 0 <= p <= q <= |ns|
    ensures Covers(Splice(ns, p, q, mid), a) <==> Covers(ns[..p], a) || Covers(mid, a) || Covers(ns[q..], a)
    ensures Covers(ns, a) <==> Covers(ns[..p], a) || Covers(ns[p..q], a) || Covers(ns[q..], a)
  {
    CoversConcat(ns[..p], mid, a);
    CoversConcat(ns[..p] + mid, ns[q..], a);
    assert ns == ns[..p] + ns[p..q] + ns[q..];
    CoversConcat(ns[..p], ns[p..q], a);
    CoversConcat(ns[..p] + ns[p..q], ns[q..], a);
  }

  lemma SpliceTotal(ns: seq<Node>, p: int, q: int, mid: seq<Node>)
    requires 0 <= p <= q <= |ns|
    ensures TotalSize(Splice(ns, p, q, mid)) == TotalSize(ns) - TotalSize(ns[p..q]) + TotalSize(mid)
  {
    TotalSizeConcat(ns[..p], mid);
    TotalSizeConcat(ns[..p] + mid, ns[q..]);
    assert ns == ns[..p] + ns[p..q] + ns[q..];
    TotalSizeConcat(ns[..p], ns[p..q]);
    TotalSizeConcat(ns[..p] + ns[p..q], ns[q..]);
  }

  lemma BeforeSplice(ns: seq<Node>, p: int, n: Node, i: int)
    requires Separated(ns) && 0 <= i < p <= |ns| && ns[p - 1].addr + ns[p - 1].size < n.addr
    ensures ns[i].addr + ns[i].size < n.addr
  {
    assert i < p - 1 ==> ns[i].addr + ns[i].size < ns[p - 1].addr;
  }

  lemma BehindSplice(ns: seq<Node>, q: int, n: Node, j: int)
    requires Separated(ns) && 0 <= q <= j < |ns| && n.addr + n.size < ns[q].addr
    ensures n.addr + n.size < ns[j].addr
  {
    assert q < j ==> ns[q].addr + ns[q].size < ns[j].addr;
  }

  /** A list that is `ns` with a stretch replaced by one node. */
  ghost predicate NodeSpliced(ns: seq<Node>, p: int, q: int, n: Node, rs: seq<Node>) {
    && 0 <= p <= q <= |ns| && |rs| == |ns| - q + p + 1
    && forall i :: 0 <= i < |rs| ==> rs[i] == if i < p then ns[i] else if i == p then n else ns[i + q - p - 1]
  }

  lemma SplicedSeparated(ns: seq<Node>, p: int, q: int, n: Node, rs: seq<Node>, i: int, j: int)
    requires Separated(ns) && NodeSpliced(ns, p, q, n, rs) && 0 <= i < j < |rs|
    requires p > 0 ==> ns[p - 1].addr + ns[p - 1].size < n.addr
    requires q < |ns| ==> n.addr + n.size < ns[q].addr
    requires 0 < n.size
    ensures rs[i].addr + rs[i].size < rs[j].addr
  {
    var (i', j') := (i + q - p - 1, j + q - p - 1);
    if j < p {
      assert ns[i].addr + ns[i].size < ns[j].addr;
    } else if i > p {
      assert rs[i] == ns[i'] && rs[j] == ns[j'];
      assert ns[i'].addr + ns[i'].size < ns[j'].addr;
    } else {
      if i < p {
        BeforeSplice(ns, p, n, i);
      }
      if j > p {
        BehindSplice(ns, q, n, j');
        assert rs[j] == ns[j'];
      }
    }
  }

  lemma SpliceCanonical(ns: seq<Node>, p: int, q: int, n: Node)
    requires Separated(ns) && 0 <= p <= q <= |ns|
    requires 0 < n.addr && NODE_BYTES <= n.size
    requires p > 0 ==> ns[p - 1].addr + ns[p - 1].size < n.addr
    requires q < |ns| ==> n.addr + n.size < ns[q].addr
    ensures Separated(Splice(ns, p, q, [n]))
  {
    var rs := Splice(ns, p, q, [n]);
    assert NodeSpliced(ns, p, q, n, rs);
    forall i | 0 <= i < |rs|
      ensures 0 < rs[i].addr && NODE_BYTES <= rs[i].size
    {
      assert rs[i] == if i < p then ns[i] else if i == p then n else ns[i + q - p - 1];
    }
    forall i, j | 0 <= i < j < |rs|
      ensures rs[i].addr + rs[i].size < rs[j].addr
    {
      SplicedSeparated(ns, p, q, n, rs, i, j);
    }
  }

  /** Index `k` separates the nodes below `base` from those at or above it. */
  ghost predicate SplitsAt(ns: seq<Node>, k: int, base: int) {
    && 0 <= k <= |ns|
    && (forall i :: 0 <= i < k ==> ns[i].addr < base)
    && (forall i :: k <= i < |ns| ==> base <= ns[i].addr)
  }

  /** None of the bytes base .. base + len - 1 is in the list. */
  ghost predicate Unused(ns: seq<Node>, base: int, len: int) {
    forall a :: base <= a < base + len ==> !Covers(ns, a)
  }

  predicate JoinsLeft(ns: seq<Node>, k: int, base: int)
    requires 0 <= k <= |ns|
  {
    k > 0 && ns[k - 1].addr + ns[k - 1].size == base
  }

  predicate JoinsRight(ns: seq<Node>, k: int, end: int)
    requires 0 <= k <= |ns|
  {
    k < |ns| && ns[k].addr == end
  }

  /** The node that base .. base + len - 1 forms with the neighbours it touches at position `k`. */
  function Merged(ns: seq<Node>, k: int, base: int, len: int): Node
    requires 0 <= k <= |ns|
  {
    var lo := if JoinsLeft(ns, k, base) then ns[k - 1].addr else base;
    var hi := if JoinsRight(ns, k, base + len) then ns[k].addr + ns[k].size else base + len;
    Node(lo, hi - lo)
  }

  /** The list after base .. base + len - 1 joined it at position `k`. */
  function Insert(ns: seq<Node>, k: int, base: int, len: int): seq<Node>
    requires 0 <= k <= |ns|
  {
    Splice(ns, if JoinsLeft(ns, k, base) then k - 1 else k, if JoinsRight(ns, k, base + len) then k + 1 else k,
           [Merged(ns, k, base, len)])
  }

  /** The neighbours of an unused range keep clear of it. */
  lemma UnusedSeparates(ns: seq<Node>, k: int, base: int, len: int)
    requires Separated(ns) && SplitsAt(ns, k, base) && 0 < len && Unused(ns, base, len)
    ensures forall i :: 0 <= i < k ==> ns[i].addr + ns[i].size <= base
    ensures forall i :: k <= i < |ns| ==> base + len <= ns[i].addr
  {
    forall i | 0 <= i < k
      ensures ns[i].addr + ns[i].size <= base
    {
      assert !Covers(ns, base);
      assert !InNode(ns[i], base);
    }
    forall i | k <= i < |ns|
      ensures base + len <= ns[i].addr
    {
      CoversAt(ns, i, ns[i].addr);
    }
  }

  lemma InsertCanonical(ns: seq<Node>, k: int, base: int, len: int)
    requires Separated(ns) && SplitsAt(ns, k, base)
    requires 0 < base && NODE_BYTES <= len && Unused(ns, base, len)
    ensures Separated(Insert(ns, k, base, len))
  {
    UnusedSeparates(ns, k, base, len);
    SpliceCanonical(ns, if JoinsLeft(ns, k, base) then k - 1 else k,
                    if JoinsRight(ns, k, base + len) then k + 1 else k, Merged(ns, k, base, len));
  }

  lemma CoversFew(ns: seq<Node>, a: int)
    requires |ns| <= 2
    ensures Covers(ns, a) <==> (|ns| > 0 && InNode(ns[0], a)) || (|ns| > 1 && InNode(ns[1], a))
  {
    if |ns| > 0 && InNode(ns[0], a) { CoversAt(ns, 0, a); }
    if |ns| > 1 && InNode(ns[1], a) { CoversAt(ns, 1, a); }
  }

  lemma InsertCovers(ns: seq<Node>, k: int, base: int, len: int)
    requires Separated(ns) && SplitsAt(ns, k, base)
    requires 0 < base && NODE_BYTES <= len && Unused(ns, base, len)
    ensures forall a :: Covers(Insert(ns, k, base, len), a) <==> Covers(ns, a) || base <= a < base + len
  {
    UnusedSeparates(ns, k, base, len);
    var p := if JoinsLeft(ns, k, base) then k - 1 else k;
    var q := if JoinsRight(ns, k, base + len) then k + 1 else k;
    var n := Merged(ns, k, base, len);
    forall a
      ensures Covers(Insert(ns, k, base, len), a) <==> Covers(ns, a) || base <= a < base + len
    {
      SpliceCovers(ns, p, q, [n], a);
      CoversFew([n], a);
      CoversFew(ns[p..q], a);
    }
  }

  lemma InsertTotal(ns: seq<Node>, k: int, base: int, len: int)
    requires 0 <= k <= |ns|
    ensures TotalSize(Insert(ns, k, base, len)) == TotalSize(ns) + len
  {
    var p := if JoinsLeft(ns, k, base) then k - 1 else k;
    var q := if JoinsRight(ns, k, base + len) then k + 1 else k;
    SpliceTotal(ns, p, q, [Merged(ns, k, base, len)]);
    TotalFew([Merged(ns, k, base, len)]);
    AbsorbedTotal(ns, k, base, len, ns[p..q]);
  }

  lemma AbsorbedTotal(ns: seq<Node>, k: int, base: int, len: int, gone: seq<Node>)
    requires 0 <= k <= |ns|
    requires gone == ns[if JoinsLeft(ns, k, base) then k - 1 else k..if JoinsRight(ns, k, base + len) then k + 1 else k]
    ensures TotalSize(gone) + len == Merged(ns, k, base, len).size
  {
    TotalFew(gone);
  }

  lemma TotalFew(ns: seq<Node>)
    requires |ns| <= 2
    ensures TotalSize(ns) == (if |ns| > 0 then ns[0].size else 0) + (if |ns| > 1 then ns[1].size else 0)
  {
    if |ns| == 2 {
      assert ns[1..] == [ns[1]] && TotalSize(ns[1..]) == ns[1].size;
    }
  }

  /** What is left of a node after its first `taken` bytes were handed out. */
  function Remainder(n: Node, taken: int): seq<Node> {
    if taken == n.size then [] else [Node(n.addr + taken, n.size - taken)]
  }

  /** The list after the first `taken` bytes of node `k` left it. */
  function Take(ns: seq<Node>, k: int, taken: int): seq<Node>
    requires 0 <= k < |ns|
  {
    Splice(ns, k, k + 1, Remainder(ns[k], taken))
  }

  /** Either the whole node goes or what remains can hold a node header. */
  predicate Takeable(n: Node, taken: int) {
    0 < taken && (taken == n.size || taken + NODE_BYTES <= n.size)
  }

  lemma DropCanonical(ns: seq<Node>, k: int, rs: seq<Node>)
    requires Separated(ns) && 0 <= k < |ns| && rs == ns[..k] + ns[k + 1..]
    ensures Separated(rs)
  {
    forall i, j | 0 <= i < j < |rs|
      ensures rs[i].addr + rs[i].size < rs[j].addr
    {
      assert rs[i] == ns[if i < k then i else i + 1] && rs[j] == ns[if j < k then j else j + 1];
    }
  }

  lemma TakeCanonical(ns: seq<Node>, k: int, taken: int)
    requires Canonical(ns) && 0 <= k < |ns| && Takeable(ns[k], taken)
    ensures Canonical(Take(ns, k, taken))
  {
    CanonicalSeparated(ns);
    CanonicalSeparated(Take(ns, k, taken));
    if taken == ns[k].size {
      DropCanonical(ns, k, Take(ns, k, taken));
    } else {
      SpliceCanonical(ns, k, k + 1, Node(ns[k].addr + taken, ns[k].size - taken));
    }
  }

  lemma TakeCovers(ns: seq<Node>, k: int, taken: int)
    requires Canonical(ns) && 0 <= k < |ns| && Takeable(ns[k], taken)
    ensures forall a :: Covers(Take(ns, k, taken), a) <==>
                        Covers(ns, a) && !(ns[k].addr <= a < ns[k].addr + taken)
  {
    CanonicalSeparated(ns);
    var mid := Remainder(ns[k], taken);
    forall a
      ensures Covers(Take(ns, k, taken), a) <==> Covers(ns, a) && !(ns[k].addr <= a < ns[k].addr + taken)
    {
      SpliceCovers(ns, k, k + 1, mid, a);
      CoversFew(mid, a);
      CoversFew(ns[k..k + 1], a);
      if ns[k].addr <= a < ns[k].addr + taken {
        assert forall i :: 0 <= i < |ns[..k]| ==> !InNode(ns[..k][i], a);
        var after := ns[k + 1..];
        assert forall i :: 0 <= i < |after| ==> !InNode(after[i], a);
      }
    }
  }

  // ----- how the list is laid out in memory -----

  /** The address of node `i`, or NULL past the end. */
  function AddrAt(ns: seq<Node>, i: int): int
    requires 0 <= i
  {
    if i < |ns| then ns[i].addr else 0
  }

  /** Node `i`'s own first eight bytes hold its size and the address of the next node. */
  ghost predicate StoredAt(words: int -> int, ns: seq<Node>, i: int)
    requires 0 <= i < |ns|
  {
    words(ns[i].addr) == ns[i].size && words(ns[i].addr + 4) == AddrAt(ns, i + 1)
  }

  /** Memory stores exactly the nodes `ns`, linked in order. */
  ghost predicate Linked(words: int -> int, ns: seq<Node>) {
    forall i :: 0 <= i < |ns| ==> StoredAt(words, ns, i)
  }

  ghost predicate Below(ns: seq<Node>, limit: int) {
    forall i :: 0 <= i < |ns| ==> ns[i].addr + ns[i].size <= limit
  }

  /** `rs` is `ns` with its nodes p .. q - 1 replaced by `count` other nodes. */
  ghost predicate Spliced(ns: seq<Node>, rs: seq<Node>, p: int, q: int, count: int) {
    && 0 <= p <= q <= |ns| && 0 <= count <= 1
    && |rs| == p + count + |ns| - q
    && (forall i :: 0 <= i < p ==> rs[i] == ns[i])
    && (forall i :: p + count <= i < |rs| ==> rs[i] == ns[i - p - count + q])
  }

  /** Both words of a node are the same in the two memories. */
  ghost predicate SameWords(words: int -> int, words': int -> int, n: Node) {
    words'(n.addr) == words(n.addr) && words'(n.addr + 4) == words(n.addr + 4)
  }

  lemma StoredElsewhere(words: int -> int, words': int -> int, ns: seq<Node>, j: int, rs: seq<Node>, i: int)
    requires 0 <= j < |ns| && 0 <= i < |rs|
    requires StoredAt(words, ns, j) && SameWords(words, words', ns[j])
    requires rs[i] == ns[j] && AddrAt(rs, i + 1) == AddrAt(ns, j + 1)
    ensures StoredAt(words', rs, i)
  {
  }

  /** Relinking one stretch of the list: everything outside it keeps its words, except the
      link that leads into it. */
  lemma SpliceLinked(words: int -> int, words': int -> int, ns: seq<Node>, rs: seq<Node>, p: int, q: int, count: int)
    requires Linked(words, ns) && Spliced(ns, rs, p, q, count)
    requires forall i :: 0 <= i < |ns| && !(p - 1 <= i < q) ==> SameWords(words, words', ns[i])
    requires p > 0 ==> StoredAt(words', rs, p - 1)
    requires count == 1 ==> StoredAt(words', rs, p)
    ensures Linked(words', rs)
  {
    forall i | 0 <= i < |rs|
      ensures StoredAt(words', rs, i)
    {
      if i < p - 1 {
        StoredElsewhere(words, words', ns, i, rs, i);
      } else if p + count <= i {
        StoredElsewhere(words, words', ns, i - p - count + q, rs, i);
      }
    }
  }

  /** No word changed that is clear of the eight bytes at `c` and the four at `d`. */
  ghost predicate Untouched(words: int -> int, words': int -> int, c: int, d: int) {
    forall b :: (b + 4 <= c || c + 8 <= b) && (b + 4 <= d || d + 4 <= b) ==> words'(b) == words(b)
  }

  /** What freeing base .. base + len - 1 between the nodes at `previous` and `next` (NULL for
      none) must write: the node merged with the neighbours it touches and, unless it joins the
      left one, the link to it. */
  ghost predicate NodeWritten(words: int -> int, words': int -> int, previous: int, next: int, base: int, len: int) {
    var left := previous != 0 && previous + words(previous) == base;
    var right := next != 0 && next == base + len;
    var lo := if left then previous else base;
    var hi := if right then next + words(next) else base + len;
    && Untouched(words, words', lo, if previous != 0 && !left then previous + 4 else lo)
    && words'(lo) == hi - lo
    && words'(lo + 4) == (if right then words(next + 4) else next)
    && (previous != 0 && !left ==> words'(previous + 4) == base)
  }

  /** The same, as an edit of the list. */
  ghost predicate InsertWritten(words: int -> int, words': int -> int, ns: seq<Node>, k: int, base: int, len: int)
    requires 0 <= k <= |ns|
  {
    var n := Merged(ns, k, base, len);
    var link := k > 0 && !JoinsLeft(ns, k, base);
    && Untouched(words, words', n.addr, if link then ns[k - 1].addr + 4 else n.addr)
    && words'(n.addr) == n.size
    && words'(n.addr + 4) == AddrAt(ns, if JoinsRight(ns, k, base + len) then k + 1 else k)
    && (link ==> words'(ns[k - 1].addr + 4) == base)
  }

  lemma WrittenAsEdit(words: int -> int, words': int -> int, ns: seq<Node>, k: int, base: int, len: int)
    requires 0 <= k <= |ns| && Linked(words, ns) && Separated(ns)
    requires NodeWritten(words, words', if k == 0 then 0 else ns[k - 1].addr, AddrAt(ns, k), base, len)
    ensures InsertWritten(words, words', ns, k, base, len)
  {
    assert k > 0 ==> StoredAt(words, ns, k - 1) && 0 < ns[k - 1].addr;
    assert k < |ns| ==> StoredAt(words, ns, k) && 0 < ns[k].addr;
  }

  lemma InsertShape(ns: seq<Node>, k: int, base: int, len: int)
    requires 0 <= k <= |ns|
    ensures var p := if JoinsLeft(ns, k, base) then k - 1 else k;
            var q := if JoinsRight(ns, k, base + len) then k + 1 else k;
            var rs := Insert(ns, k, base, len);
            Spliced(ns, rs, p, q, 1) && rs[p] == Merged(ns, k, base, len) && AddrAt(rs, p + 1) == AddrAt(ns, q)
  {
  }

  /** The nodes whose words freeing at position `k` leaves alone. */
  lemma InsertKeeps(words: int -> int, words': int -> int, ns: seq<Node>, k: int, base: int, len: int, i: int)
    requires Separated(ns) && SplitsAt(ns, k, base)
    requires 0 < base && NODE_BYTES <= len && Unused(ns, base, len)
    requires InsertWritten(words, words', ns, k, base, len)
    requires 0 <= i < |ns| && (i < (if JoinsLeft(ns, k, base) then k - 1 else k) - 1 || k <= i)
    requires i == k ==> !JoinsRight(ns, k, base + len)
    ensures SameWords(words, words', ns[i])
  {
    UnusedSeparates(ns, k, base, len);
    if i < k {
      assert ns[i].addr + ns[i].size < ns[k - 1].addr;
    } else if i > k {
      assert ns[k].addr + ns[k].size < ns[i].addr;
    }
  }

  lemma InsertLinked(words: int -> int, words': int -> int, ns: seq<Node>, k: int, base: int, len: int, rs: seq<Node>)
    requires Linked(words, ns) && Separated(ns) && SplitsAt(ns, k, base)
    requires 0 < base && NODE_BYTES <= len && Unused(ns, base, len)
    requires InsertWritten(words, words', ns, k, base, len)
    requires rs == Insert(ns, k, base, len)
    ensures Linked(words', rs)
  {
    var p := if JoinsLeft(ns, k, base) then k - 1 else k;
    var q := if JoinsRight(ns, k, base + len) then k + 1 else k;
    InsertShape(ns, k, base, len);
    forall i | 0 <= i < |ns| && !(p - 1 <= i < q)
      ensures SameWords(words, words', ns[i])
    {
      InsertKeeps(words, words', ns, k, base, len, i);
    }
    if p > 0 {
      InsertLink(words, words', ns, k, base, len);
      assert rs[p - 1] == ns[p - 1];
    }
    SpliceLinked(words, words', ns, rs, p, q, 1);
  }

  /** The node before the merged one points at it. */
  lemma InsertLink(words: int -> int, words': int -> int, ns: seq<Node>, k: int, base: int, len: int)
    requires Linked(words, ns) && Separated(ns) && SplitsAt(ns, k, base)
    requires 0 < base && NODE_BYTES <= len && Unused(ns, base, len)
    requires InsertWritten(words, words', ns, k, base, len)
    requires var p := if JoinsLeft(ns, k, base) then k - 1 else k; p > 0
    ensures var p := if JoinsLeft(ns, k, base) then k - 1 else k;
            words'(ns[p - 1].addr) == ns[p - 1].size && words'(ns[p - 1].addr + 4) == Merged(ns, k, base, len).addr
  {
    var p := if JoinsLeft(ns, k, base) then k - 1 else k;
    UnusedSeparates(ns, k, base, len);
    assert StoredAt(words, ns, p - 1);
    assert JoinsLeft(ns, k, base) ==> ns[p - 1].addr + ns[p - 1].size < ns[k - 1].addr;
  }

  /** The list after the edit is linked in memory and canonical. */
  lemma InsertResult(words: int -> int, words': int -> int, ns: seq<Node>, k: int, base: int, len: int, rs: seq<Node>)
    requires Linked(words, ns) && Canonical(ns) && SplitsAt(ns, k, base) && rs == Insert(ns, k, base, len)
    requires 0 < base && NODE_BYTES <= len && Unused(ns, base, len)
    requires NodeWritten(words, words', if k == 0 then 0 else ns[k - 1].addr, AddrAt(ns, k), base, len)
    ensures Linked(words', rs) && Canonical(rs)
  {
    CanonicalSeparated(ns);
    CanonicalSeparated(rs);
    WrittenAsEdit(words, words', ns, k, base, len);
    InsertLinked(words, words', ns, k, base, len, rs);
    InsertCanonical(ns, k, base, len);
  }

  /** Where the list after the edit starts and ends, and what it covers. */
  lemma InsertBounds(ns: seq<Node>, k: int, base: int, len: int, rs: seq<Node>)
    requires Separated(ns) && SplitsAt(ns, k, base) && rs == Insert(ns, k, base, len)
    requires 0 < base && NODE_BYTES <= len && Unused(ns, base, len)
    ensures forall a :: Covers(rs, a) <==> Covers(ns, a) || base <= a < base + len
    ensures AddrAt(rs, 0) == (if k == 0 || (k == 1 && JoinsLeft(ns, k, base)) then Merged(ns, k, base, len).addr else AddrAt(ns, 0))
    ensures forall limit :: Below(ns, limit) && base + len <= limit ==> Below(rs, limit)
    ensures forall a :: !Covers(rs, a) ==> !(base <= a < base + len) && (k > 0 ==> !InNode(ns[k - 1], a))
  {
    InsertCovers(ns, k, base, len);
    InsertShape(ns, k, base, len);
  }

  /** Everything the written words amount to. */
  lemma InsertEdit(words: int -> int, words': int -> int, ns: seq<Node>, k: int, base: int, len: int)
    returns (rs: seq<Node>)
    requires Linked(words, ns) && Canonical(ns) && SplitsAt(ns, k, base)
    requires 0 < base && NODE_BYTES <= len && Unused(ns, base, len)
    requires NodeWritten(words, words', if k == 0 then 0 else ns[k - 1].addr, AddrAt(ns, k), base, len)
    ensures Linked(words', rs) && Canonical(rs) && TotalSize(rs) == TotalSize(ns) + len
    ensures forall a :: Covers(rs, a) <==> Covers(ns, a) || base <= a < base + len
    ensures AddrAt(rs, 0) == (if k == 0 || (k == 1 && JoinsLeft(ns, k, base)) then Merged(ns, k, base, len).addr else AddrAt(ns, 0))
    ensures forall limit :: Below(ns, limit) && base + len <= limit ==> Below(rs, limit)
    ensures forall a :: !Covers(rs, a) ==> !(base <= a < base + len) && (k > 0 ==> !InNode(ns[k - 1], a))
  {
    rs := Insert(ns, k, base, len);
    CanonicalSeparated(ns);
    InsertResult(words, words', ns, k, base, len, rs);
    InsertBounds(ns, k, base, len, rs);
    InsertTotal(ns, k, base, len);
  }

  /** What the neighbours' stored words say when base .. base + len - 1 is unused. */
  lemma NeighbourWords(words: int -> int, ns: seq<Node>, k: int, base: int, len: int, limit: int)
    requires Linked(words, ns) && Canonical(ns) && Below(ns, limit) && SplitsAt(ns, k, base)
    requires 0 < base && NODE_BYTES <= len && Unused(ns, base, len)
    ensures k > 0 ==> 0 < ns[k - 1].addr && NODE_BYTES <= ns[k - 1].size == words(ns[k - 1].addr) <= base - ns[k - 1].addr
    ensures k < |ns| ==> base + len <= ns[k].addr && NODE_BYTES <= words(ns[k].addr) <= limit - ns[k].addr
    ensures k < |ns| ==> 0 <= words(ns[k].addr + 4)
    ensures k > 0 ==> AddrAt(ns, k) != AddrAt(ns, 0)
  {
    CanonicalSeparated(ns);
    UnusedSeparates(ns, k, base, len);
    assert k > 0 ==> StoredAt(words, ns, k - 1);
    assert k < |ns| ==> StoredAt(words, ns, k);
  }

  /** No word changed that is clear of the bytes lo .. hi - 1 and of the four at `d`. */
  ghost predicate Outside(words: int -> int, words': int -> int, lo: int, hi: int, d: int) {
    forall b :: (b + 4 <= lo || hi <= b) && (b + 4 <= d || d + 4 <= b) ==> words'(b) == words(b)
  }

  /** What taking `taken` bytes from the front of the node at `best` must have written: a node for
      the remainder, if any, and the link around the bytes taken. */
  ghost predicate TakeWritten(words: int -> int, words': int -> int, best: int, previous: int, taken: int) {
    var size := words(best);
    && Outside(words, words', best, best + size, if previous != 0 then previous + 4 else best)
    && (taken < size ==> words'(best + taken) == size - taken && words'(best + taken + 4) == words(best + 4))
    && (previous != 0 ==> words'(previous + 4) == if taken < size then best + taken else words(best + 4))
  }

  lemma TakeShape(ns: seq<Node>, k: int, taken: int)
    requires 0 <= k < |ns| && Takeable(ns[k], taken)
    ensures var rs := Take(ns, k, taken);
            var count := if taken == ns[k].size then 0 else 1;
            && Spliced(ns, rs, k, k + 1, count)
            && (count == 1 ==> rs[k] == Node(ns[k].addr + taken, ns[k].size - taken) && AddrAt(rs, k + 1) == AddrAt(ns, k + 1))
            && AddrAt(rs, k) == (if count == 1 then ns[k].addr + taken else AddrAt(ns, k + 1))
  {
  }

  lemma TakeLinked(words: int -> int, words': int -> int, ns: seq<Node>, k: int, taken: int, rs: seq<Node>)
    requires Linked(words, ns) && Separated(ns) && 0 <= k < |ns| && Takeable(ns[k], taken)
    requires TakeWritten(words, words', ns[k].addr, if k == 0 then 0 else ns[k - 1].addr, taken)
    requires rs == Take(ns, k, taken)
    ensures Linked(words', rs)
  {
    TakeShape(ns, k, taken);
    assert StoredAt(words, ns, k);
    forall i | 0 <= i < |ns| && !(k - 1 <= i < k + 1)
      ensures SameWords(words, words', ns[i])
    {
      if i < k {
        assert ns[i].addr + ns[i].size < ns[k - 1].addr;
      } else {
        assert ns[k].addr + ns[k].size < ns[i].addr;
      }
    }
    if k > 0 {
      assert StoredAt(words, ns, k - 1);
      assert ns[k - 1].addr + ns[k - 1].size < ns[k].addr;
      assert rs[k - 1] == ns[k - 1];
    }
    SpliceLinked(words, words', ns, rs, k, k + 1, if taken == ns[k].size then 0 else 1);
  }

  /** Everything the written words amount to. */
  lemma TakeEdit(words: int -> int, words': int -> int, ns: seq<Node>, k: int, taken: int) returns (rs: seq<Node>)
    requires Linked(words, ns) && Canonical(ns) && 0 <= k < |ns| && Takeable(ns[k], taken)
    requires TakeWritten(words, words', ns[k].addr, if k == 0 then 0 else ns[k - 1].addr, taken)
    ensures rs == Take(ns, k, taken) && Linked(words', rs) && Canonical(rs)
    ensures AddrAt(rs, 0) == (if k > 0 then AddrAt(ns, 0) else if taken < ns[k].size then ns[k].addr + taken else AddrAt(ns, k + 1))
    ensures forall limit :: Below(ns, limit) ==> Below(rs, limit)
  {
    CanonicalSeparated(ns);
    rs := Take(ns, k, taken);
    TakeLinked(words, words', ns, k, taken, rs);
    TakeCanonical(ns, k, taken);
    TakeShape(ns, k, taken);
  }

  /** What the stored words say about node `k` and its predecessor. */
  lemma NodeWords(words: int -> int, ns: seq<Node>, k: int, limit: int)
    requires Linked(words, ns) && Canonical(ns) && Below(ns, limit) && 0 <= k < |ns|
    ensures 0 < ns[k].addr && NODE_BYTES <= ns[k].size == words(ns[k].addr) <= limit - ns[k].addr
    ensures words(ns[k].addr + 4) == AddrAt(ns, k + 1) && 0 <= AddrAt(ns, k + 1) && (0 <= limit ==> AddrAt(ns, k + 1) <= limit)
    ensures k > 0 ==> 0 < ns[k - 1].addr && ns[k - 1].addr + NODE_BYTES <= ns[k - 1].addr + ns[k - 1].size < ns[k].addr
  {
    CanonicalSeparated(ns);
    assert StoredAt(words, ns, k);
  }
}
