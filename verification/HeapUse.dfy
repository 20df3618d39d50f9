/** The heap in use: any sequence of allocations, frees and writes by the owners of blocks. */
module HeapUse {
  import opened PhysicalMemory
  import opened HeapStates
  import H = Heap

  datatype Action = Allocate(alignment: int, size: int) | Release(ptr: int) | Write(ptr: int, i: int, v: Byte)

  /** The pointers held, with the sizes asked for, are those of the live blocks. */
  ghost predicate Holding(heap: H.Heap, held: map<int, int>)
    reads heap.Repr
  {
    && heap.Valid() && held.Keys == heap.live.Keys
    && (forall p :: p in held ==> held[p] == heap.live[p].requested)
  }

  ghost predicate InPayload(live: map<int, Block>, a: int) {
    exists p :: p in live && p <= a < p + live[p].requested
  }

  /** What owners wrote into blocks they still hold is there. */
  ghost predicate Kept(heap: H.Heap, written: map<int, Byte>)
    reads heap.Repr
  {
    forall a :: a in written ==> InPayload(heap.live, a) && 0 <= a < heap.Size() && heap.ram.bytes[a] == written[a]
  }

  /** What owners have written after an action: a free takes the block's bytes away, and actions on
      pointers that are not held have no effect. */
  function WrittenAfter(action: Action, held: map<int, int>, written: map<int, Byte>): map<int, Byte> {
    match action
    case Allocate(_, _) => written
    case Release(p) => if p in held then map a | a in written && !(p <= a < p + held[p]) :: written[a] else written
    case Write(p, i, v) => if p in held && 0 <= i < held[p] then written[p + i := v] else written
  }

  /** Payload bytes are bytes of live blocks, of one block only. */
  lemma PayloadAllocated(s: State, pool: iset<int>, a: int)
    requires Partition(s, pool) && InPayload(s.live, a)
    ensures Allocated(s.live, a)
  {
    var p :| p in s.live && p <= a < p + s.live[p].requested;
    assert Shaped(p, s.live[p]);
    assert InBlock(s.live[p], a);
  }

  lemma PayloadStays(live: map<int, Block>, live': map<int, Block>, a: int)
    requires InPayload(live, a) && forall q :: q in live ==> q in live' && live'[q] == live[q]
    ensures InPayload(live', a)
  {
    var q :| q in live && q <= a < q + live[q].requested;
    assert live'[q] == live[q];
  }

  /** What was written stays while blocks are only added and the bytes of live blocks are left alone. */
  lemma WrittenStays(before: State, after: State, pool: iset<int>, was: seq<Byte>, now: seq<Byte>, written: map<int, Byte>)
    requires Partition(before, pool) && |was| == |now|
    requires forall a :: a in written ==> InPayload(before.live, a) && 0 <= a < |was| && was[a] == written[a]
    requires forall q :: q in before.live ==> q in after.live && after.live[q] == before.live[q]
    requires forall a :: 0 <= a < |was| && Allocated(before.live, a) ==> now[a] == was[a]
    ensures forall a :: a in written ==> InPayload(after.live, a) && 0 <= a < |now| && now[a] == written[a]
  {
    forall a | a in written
      ensures InPayload(after.live, a) && now[a] == written[a]
    {
      PayloadAllocated(before, pool, a);
      PayloadStays(before.live, after.live, a);
    }
  }

  lemma Held(s: State, pool: iset<int>, held: map<int, int>, alignment: int, size: int, p: int, s': State)
    requires Partition(s, pool) && Allowed(alignment, size) && AllocStep(s, alignment, size, p, s')
    requires held.Keys == s.live.Keys && forall q :: q in held ==> held[q] == s.live[q].requested
    ensures Partition(s', pool)
    ensures forall q :: q in s.live ==> q in s'.live && s'.live[q] == s.live[q]
    ensures var after := if p == 0 then held else held[p := size];
            after.Keys == s'.live.Keys && forall q :: q in after ==> after[q] == s'.live[q].requested
  {
    AllocPreserves(s, alignment, size, p, s', pool);
    if p != 0 {
      var k :| AllocAt(s, k, PaddingFor(alignment), size, p, s');
      assert forall q :: q in s.live ==> q != p;
    }
  }

  /** What one action does to the heap, to the pointers held and to what was written. An allocation
      that returns NULL, and an action on a pointer that is not held, leave everything as it was. */
  ghost predicate Does(action: Action, s: State, held: map<int, int>, written: map<int, Byte>,
                       s': State, held': map<int, int>, written': map<int, Byte>)
  {
    && written' == WrittenAfter(action, held, written)
    && match action
       case Allocate(alignment, size) =>
         0 < alignment && exists p :: AllocStep(s, alignment, size, p, s') && held' == if p == 0 then held else held[p := size]
       case Release(p) => if p in held then FreeStep(s, p, s') && held' == held - {p} else s' == s && held' == held
       case Write(_, _, _) => s' == s && held' == held
  }

  lemma Obtained(s: State, pool: iset<int>, held: map<int, int>, alignment: int, size: int, p: int, s': State,
                 was: seq<Byte>, now: seq<Byte>, written: map<int, Byte>)
    requires Partition(s, pool) && Allowed(alignment, size) && AllocStep(s, alignment, size, p, s') && |was| == |now|
    requires held.Keys == s.live.Keys && forall q :: q in held ==> held[q] == s.live[q].requested
    requires forall a :: a in written ==> InPayload(s.live, a) && 0 <= a < |was| && was[a] == written[a]
    requires forall a :: 0 <= a < |was| && Allocated(s.live, a) ==> now[a] == was[a]
    ensures var after := if p == 0 then held else held[p := size];
            && after.Keys == s'.live.Keys && (forall q :: q in after ==> after[q] == s'.live[q].requested)
            && Does(Allocate(alignment, size), s, held, written, s', after, written)
    ensures forall a :: a in written ==> InPayload(s'.live, a) && 0 <= a < |now| && now[a] == written[a]
  {
    Held(s, pool, held, alignment, size, p, s');
    WrittenStays(s, s', pool, was, now, written);
  }

  method DoAllocate(heap: H.Heap, alignment: int, size: int, held: map<int, int>, ghost written: map<int, Byte>)
    returns (held': map<int, int>)
    requires Holding(heap, held) && Kept(heap, written) && Allowed(alignment, size)
    modifies heap`start, heap`nodes, heap`live, heap.ram`words, heap.ram.bytes
    ensures Holding(heap, held') && Kept(heap, written)
    ensures Does(Allocate(alignment, size), old(heap.State()), held, written, heap.State(), held', written)
  {
    ghost var before, was := heap.State(), heap.ram.bytes[..];
    heap.TestsRight(alignment, size);
    var p := heap.AlignedAlloc(alignment, size);
    held' := if p == 0 then held else held[p := size];
    Obtained(before, heap.pool, held, alignment, size, p, heap.State(), was, heap.ram.bytes[..], written);
  }

  /** What was written elsewhere stays when a block is freed. */
  lemma WrittenLeft(before: State, after: State, pool: iset<int>, p: int, held: map<int, int>,
                    was: seq<Byte>, now: seq<Byte>, written: map<int, Byte>)
    requires Partition(before, pool) && FreeStep(before, p, after) && |was| == |now|
    requires p in held && held[p] == before.live[p].requested
    requires forall a :: a in written ==> InPayload(before.live, a) && 0 <= a < |was| && was[a] == written[a]
    requires forall a :: 0 <= a < |was| && Allocated(after.live, a) ==> now[a] == was[a]
    ensures var rest := WrittenAfter(Release(p), held, written);
            forall a :: a in rest ==> InPayload(after.live, a) && 0 <= a < |now| && now[a] == rest[a]
  {
    FreePreserves(before, p, after, pool);
    forall a | a in written && !(p <= a < p + held[p])
      ensures InPayload(after.live, a) && now[a] == written[a]
    {
      var q :| q in before.live && q <= a < q + before.live[q].requested;
      assert q in after.live && after.live[q] == before.live[q];
      PayloadAllocated(after, pool, a);
    }
  }

  method DoRelease(heap: H.Heap, ptr: int, held: map<int, int>, ghost written: map<int, Byte>) returns (held': map<int, int>)
    requires Holding(heap, held) && Kept(heap, written) && ptr in held
    modifies heap`start, heap`nodes, heap`live, heap.ram`words, heap.ram.bytes
    ensures Holding(heap, held') && Kept(heap, WrittenAfter(Release(ptr), held, written))
    ensures Does(Release(ptr), old(heap.State()), held, written, heap.State(), held', WrittenAfter(Release(ptr), held, written))
  {
    ghost var before, was := heap.State(), heap.ram.bytes[..];
    heap.Free(ptr);
    held' := held - {ptr};
    WrittenLeft(before, heap.State(), heap.pool, ptr, held, was, heap.ram.bytes[..], written);
  }

  method DoWrite(heap: H.Heap, ptr: int, i: int, v: Byte, held: map<int, int>, ghost written: map<int, Byte>)
    requires Holding(heap, held) && Kept(heap, written) && ptr in held && 0 <= i < held[ptr]
    modifies heap.ram`words, heap.ram.bytes
    ensures Holding(heap, held) && Kept(heap, WrittenAfter(Write(ptr, i, v), held, written))
  {
    assert Shaped(ptr, heap.live[ptr]) && heap.HeaderStored(ptr, heap.live[ptr]);
    heap.WritePayload(ptr, i, v);
    assert InPayload(heap.live, ptr + i);
  }

  /** One action of an owner, as far as the pointer it names is held. */
  method Act(heap: H.Heap, action: Action, held: map<int, int>, ghost written: map<int, Byte>) returns (held': map<int, int>)
    requires Holding(heap, held) && Kept(heap, written)
    requires action.Allocate? ==> Allowed(action.alignment, action.size)
    modifies heap`start, heap`nodes, heap`live, heap.ram`words, heap.ram.bytes
    ensures Holding(heap, held') && Kept(heap, WrittenAfter(action, held, written))
    ensures Does(action, old(heap.State()), held, written, heap.State(), held', WrittenAfter(action, held, written))
  {
    held' := held;
    match action
    case Allocate(alignment, size) =>
      held' := DoAllocate(heap, alignment, size, held, written);
    case Release(p) =>
      if p in held {
        held' := DoRelease(heap, p, held, written);
      }
    case Write(p, i, v) =>
      if p in held && 0 <= i < held[p] {
        DoWrite(heap, p, i, v, held, written);
      }
  }

  /** The heap, the pointers held and what was written, at one moment. */
  datatype Moment = Moment(state: State, held: map<int, int>, written: map<int, Byte>)

  /** The moments of a script, one before every action and one at the end. */
  ghost predicate Follows(script: seq<Action>, ms: seq<Moment>) {
    && |ms| == |script| + 1
    && forall k :: 0 <= k < |script| ==> Does(script[k], ms[k].state, ms[k].held, ms[k].written,
                                              ms[k + 1].state, ms[k + 1].held, ms[k + 1].written)
  }

  lemma FollowsNext(script: seq<Action>, k: nat, ms: seq<Moment>, m: Moment)
    requires k < |script| && Follows(script[..k], ms)
    requires Does(script[k], ms[k].state, ms[k].held, ms[k].written, m.state, m.held, m.written)
    ensures Follows(script[..k + 1], ms + [m])
  {
    assert script[..k + 1] == script[..k] + [script[k]];
    assert forall j :: 0 <= j < k ==> script[..k][j] == script[j];
  }

  /** Any sequence of actions on the real bytes. Every action takes effect, in order; owners find what
      they wrote into blocks they still hold; and if the live blocks at the end are those of the
      beginning, so is the free list, node for node. */
  method Serve(heap: H.Heap, script: seq<Action>, held: map<int, int>) returns (held': map<int, int>, ghost ms: seq<Moment>)
    requires Holding(heap, held)
    requires forall k :: 0 <= k < |script| && script[k].Allocate? ==> Allowed(script[k].alignment, script[k].size)
    modifies heap`start, heap`nodes, heap`live, heap.ram`words, heap.ram.bytes
    ensures Follows(script, ms)
    ensures ms[0] == Moment(old(heap.State()), held, map[])
    ensures ms[|script|].state == heap.State() && ms[|script|].held == held' && Kept(heap, ms[|script|].written)
    ensures Holding(heap, held')
    ensures heap.live == old(heap.live) ==> heap.nodes == old(heap.nodes)
    ensures held == held' == map[] ==> heap.nodes == old(heap.nodes)
  {
    ghost var before := heap.State();
    held' := held;
    ghost var written: map<int, Byte> := map[];
    ms := [Moment(before, held, written)];
    var k := 0;
    while k < |script|
      invariant 0 <= k <= |script| && Follows(script[..k], ms)
      invariant ms[0] == Moment(before, held, map[]) && ms[k] == Moment(heap.State(), held', written)
      invariant Holding(heap, held') && Kept(heap, written)
    {
      ghost var next := WrittenAfter(script[k], held', written);
      held' := Act(heap, script[k], held', written);
      FollowsNext(script, k, ms, Moment(heap.State(), held', next));
      ms := ms + [Moment(heap.State(), held', next)];
      written := next;
      k := k + 1;
    }
    assert script[..k] == script;
    if heap.live == before.live {
      SameLiveSameList(before, heap.State(), heap.pool);
    }
  }
}
