/** The kernel's singly linked list. */
module LinkedList {

  class ListNode<T> {
    var value: T
    var next: ListNode?<T>

    constructor (value: T, next: ListNode?<T>)
      ensures this.value == value && this.next == next
    {
      this.value := value;
      this.next := next;
    }
  }

  /** The i-th node, or null behind the last. */
  function NodeAt<T>(nodes: seq<ListNode<T>>, i: nat): ListNode?<T> {
    if i < |nodes| then nodes[i] else null
  }

  /** A pointer to the first node; `nodes` are all of them in order. */
  class List<T> {
    var head: ListNode?<T>
    ghost var nodes: seq<ListNode<T>>
    ghost var values: seq<T>

    ghost predicate Valid()
      reads this, nodes
    {
      && |values| == |nodes| && head == NodeAt(nodes, 0)
      && (forall i :: 0 <= i < |nodes| ==> nodes[i].value == values[i])
      && (forall i {:trigger nodes[i].next} :: 0 <= i < |nodes| ==> nodes[i].next == NodeAt(nodes, i + 1))
    }

    constructor ()
      ensures Valid() && nodes == [] && values == [] && head == null
    {
      head := null;
      nodes, values := [], [];
    }

    /** A node occurs only once: it would otherwise be followed by two different numbers of nodes. */
    lemma {:induction false} Distinct(i: nat, j: nat)
      requires Valid() && i < j < |nodes|
      ensures nodes[i] != nodes[j]
      decreases |nodes| - j
    {
      if nodes[i] == nodes[j] {
        assert nodes[i].next == NodeAt(nodes, i + 1) && nodes[j].next == NodeAt(nodes, j + 1);
        if j + 1 < |nodes| {
          Distinct(i + 1, j + 1);
        }
      }
    }

    /** Appends a value; `granted` says whether memory for the node could be had. */
    method AddTail(value: T, granted: bool) returns (status: int)
      requires Valid()
      modifies this, nodes
      ensures Valid() && fresh(set n | n in nodes && n !in old(nodes))
      ensures status == if granted then 0 else -1
      ensures values == if granted then old(values) + [value] else old(values)
    {
      if !granted {
        return -1;
      }
      var newNode := new ListNode(value, null);
      if head == null {
        head := newNode;
        nodes, values := [newNode], [value];
        return 0;
      }
      var current: ListNode<T> := head;
      ghost var k := 0;
      while current.next != null
        invariant 0 <= k < |nodes| && current == nodes[k]
        decreases |nodes| - k
      {
        current := current.next;
        k := k + 1;
      }
      forall i | 0 <= i < k ensures nodes[i] != current {
        Distinct(i, k);
      }
      current.next := newNode;
      nodes, values := nodes + [newNode], values + [value];
      status := 0;
    }

    /** Prepends a value. */
    method AddHead(value: T, granted: bool) returns (status: int)
      requires Valid()
      modifies this
      ensures Valid() && fresh(set n | n in nodes && n !in old(nodes))
      ensures status == if granted then 0 else -1
      ensures values == if granted then [value] + old(values) else old(values)
    {
      if !granted {
        return -1;
      }
      var newNode := new ListNode(value, head);
      head := newNode;
      nodes, values := [newNode] + nodes, [value] + values;
      status := 0;
    }
  }
}
