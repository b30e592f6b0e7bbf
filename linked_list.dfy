/** A singly linked list of `{value, next}` nodes handled through a head reference
    (`null` for the empty list). The list operations are free-standing functions over
    the head: `AddFront`, `AddEnd` and `Remove` return the head to use afterwards,
    `Find` returns a node or `null`, and `ToArray` returns the values. Creating a
    node is the `Node` constructor.

    Every operation takes, as a ghost argument, the nodes reachable from the head in
    order. `IsChain` ties that sequence to the `next` links and keeps it acyclic, which
    is what makes every traversal terminate; `Values` is the sequence of values the
    list holds, in terms of which each operation is specified. */
module LinkedList {
  import opened ValueSeq

  /** One list node: a value and a reference to the following node, or `null` at the tail. */
  class Node {
    var value: int
    var next: Node?

    /** Builds a node holding `value` that links to `next` (by default none: a tail node). */
    constructor (value: int, next: Node? := null)
      ensures this.value == value && this.next == next
    {
      this.value := value;
      this.next := next;
    }
  }

  /** `nodes` are the nodes reachable from `head`, head first: `head` is the first of
      them (`null` when there are none), each links to the next one and the last one
      links to `null`. */
  ghost predicate IsChain(head: Node?, nodes: seq<Node>)
    reads nodes
  {
    (if nodes == [] then head == null else head == nodes[0] && nodes[|nodes| - 1].next == null) &&
    forall i {:trigger nodes[i].next} :: 0 <= i < |nodes| - 1 ==> nodes[i].next == nodes[i + 1]
  }

  /** A chain never revisits a node: it is acyclic, so every walk along `next` ends. */
  lemma {:induction false} ChainNoRepeat(head: Node?, nodes: seq<Node>, i: nat, j: nat)
    requires IsChain(head, nodes) && i < j < |nodes|
    ensures nodes[i] != nodes[j]
    decreases |nodes| - j
  {
    assert nodes[i].next == nodes[i + 1];
    if j + 1 < |nodes| {
      assert nodes[j].next == nodes[j + 1];
      ChainNoRepeat(head, nodes, i + 1, j + 1);
    }
  }

  /** The values held by `nodes`, in order: what `toArray` returns for the chain. */
  ghost function Values(nodes: seq<Node>): (s: seq<int>)
    reads nodes
    ensures |s| == |nodes|
    ensures forall i {:trigger s[i]} :: 0 <= i < |nodes| ==> s[i] == nodes[i].value
  {
    seq(|nodes|, i requires 0 <= i < |nodes| reads nodes => nodes[i].value)
  }

  /** The chain from a head is unique: the nodes reachable from `head` are determined
      by the heap, so every operation's result depends on the head alone. */
  lemma {:induction false} ChainUnique(head: Node?, a: seq<Node>, b: seq<Node>)
    requires IsChain(head, a) && IsChain(head, b)
    ensures a == b
    decreases |a|
  {
    if a != [] && b != [] {
      assert IsChain(head.next, a[1..]);
      assert IsChain(head.next, b[1..]);
      ChainUnique(head.next, a[1..], b[1..]);
      assert a == [a[0]] + a[1..] && b == [b[0]] + b[1..];
    }
  }

  /** In a chain, each node links to the one after it, and the last one to `null`. */
  lemma NextInChain(head: Node?, nodes: seq<Node>, k: nat)
    requires IsChain(head, nodes) && k < |nodes|
    ensures nodes[k].next == if k + 1 < |nodes| then nodes[k + 1] else null
  {
  }

  /** Prepends `value`: a fresh node linking to the old head becomes the new head.
      No existing node is touched. */
  method AddFront(head: Node?, value: int, ghost nodes: seq<Node>) returns (r: Node, ghost nodes': seq<Node>)
    requires IsChain(head, nodes)
    ensures fresh(r) && r.value == value && r.next == head
    ensures nodes' == [r] + nodes && IsChain(r, nodes')
    ensures Values(nodes') == [value] + Values(nodes)
  {
    r := new Node(value, head);
    nodes' := [r] + nodes;
  }

  /** Appends `value`: an empty list becomes a single fresh node; otherwise the walk
      reaches the tail and links a fresh node after it, and the head stays the head.
      Only the former tail's `next` changes. */
  method AddEnd(head: Node?, value: int, ghost nodes: seq<Node>) returns (r: Node, ghost nodes': seq<Node>)
    requires IsChain(head, nodes)
    modifies (if nodes == [] then {} else {nodes[|nodes| - 1]})`next
    ensures head == null ==> fresh(r) && r.value == value && r.next == null
    ensures head != null ==> r == head
    ensures |nodes'| == |nodes| + 1 && nodes'[..|nodes|] == nodes && fresh(nodes'[|nodes|])
    ensures nodes != [] ==> nodes[|nodes| - 1].next == nodes'[|nodes|]
    ensures IsChain(r, nodes')
    ensures Values(nodes') == old(Values(nodes)) + [value]
  {
    if head == null {
      r := new Node(value);
      nodes' := [r];
      return;
    }
    var current := head;
    ghost var k := 0;
    while current.next != null
      invariant 0 <= k < |nodes| && current == nodes[k]
      decreases |nodes| - k
    {
      current := current.next;
      k := k + 1;
    }
    NextInChain(head, nodes, k);
    ghost var s := Values(nodes);
    var tail := new Node(value);
    current.next := tail;
    r := head;
    nodes' := nodes + [tail];
    AppendedChain(nodes, tail);
    AppendedValues(nodes, s, tail);
  }

  /** Linking the tail of a chain to a fresh tail node extends the chain by that node. */
  lemma AppendedChain(nodes: seq<Node>, tail: Node)
    requires nodes != [] && tail.next == null && nodes[|nodes| - 1].next == tail
    requires forall i {:trigger nodes[i].next} :: 0 <= i < |nodes| - 1 ==> nodes[i].next == nodes[i + 1]
    ensures IsChain(nodes[0], nodes + [tail])
  {
    var longer := nodes + [tail];
    forall i | 0 <= i < |longer| - 1 ensures longer[i].next == longer[i + 1] {
      if i + 1 < |nodes| {
        assert longer[i] == nodes[i] && longer[i + 1] == nodes[i + 1];
      }
    }
  }

  /** Nodes holding `s` followed by `tail` hold `s` followed by `tail`'s value. */
  lemma AppendedValues(nodes: seq<Node>, s: seq<int>, tail: Node)
    requires |nodes| == |s|
    requires forall j :: 0 <= j < |nodes| ==> nodes[j].value == s[j]
    ensures Values(nodes + [tail]) == s + [tail.value]
  {
    var longer := nodes + [tail];
    forall j | 0 <= j < |longer| ensures Values(longer)[j] == (s + [tail.value])[j] {
      if j < |nodes| {
        assert longer[j] == nodes[j];
      }
    }
  }

  /** What `remove` may change: the node before the first node holding `value`, if that
      node is not the head; nothing otherwise. */
  ghost function RemoveFrame(nodes: seq<Node>, value: int): set<Node>
    reads nodes
  {
    var i := IndexOf(Values(nodes), value);
    if 0 < i < |nodes| then {nodes[i - 1]} else {}
  }

  /** Removes the first node holding `value`. On a head match the head's successor is
      the new head and nothing is mutated; on a later match the predecessor's `next` is
      rebound past the matched node; with no match nothing changes. The head stays the
      head unless it was the node removed. */
  method Remove(head: Node?, value: int, ghost nodes: seq<Node>) returns (r: Node?, ghost nodes': seq<Node>)
    requires IsChain(head, nodes)
    modifies RemoveFrame(nodes, value)`next
    ensures head == null ==> r == null
    ensures head != null && head.value == value ==> r == old(head.next)
    ensures head != null && head.value != value ==> r == head
    ensures nodes' == Without(nodes, IndexOf(old(Values(nodes)), value))
    ensures IsChain(r, nodes')
    ensures Values(nodes') == RemoveFirst(old(Values(nodes)), value)
  {
    ghost var s := Values(nodes);
    if head == null {
      return null, nodes;
    }
    if head.value == value {
      assert IndexOf(s, value) == 0;
      DropHead(head, nodes);
      WithoutFirst(nodes);
      WithoutFirst(s);
      return head.next, nodes[1..];
    }
    var current := head;
    ghost var k := 0;
    while current.next != null && current.next.value != value
      invariant 0 <= k < |nodes| && current == nodes[k]
      invariant forall j :: 0 <= j <= k ==> s[j] != value
      decreases |nodes| - k
    {
      assert nodes[k].next == nodes[k + 1];
      current := current.next;
      k := k + 1;
    }
    NextInChain(head, nodes, k);
    r := head;
    if current.next != null {
      assert IndexOf(s, value) == k + 1 by {
        assert s[k + 1] == value;
      }
      nodes' := Unlink(current, nodes, k);
    } else {
      assert IndexOf(s, value) == |s|;
      nodes' := nodes;
    }
  }

  /** The nodes after the head form a chain from the head's successor, holding the
      values after the first. */
  lemma DropHead(head: Node?, nodes: seq<Node>)
    requires IsChain(head, nodes) && nodes != []
    ensures IsChain(head.next, nodes[1..])
    ensures Values(nodes[1..]) == Values(nodes)[1..]
  {
  }

  /** Rebinds `prev.next` past its successor, which drops that successor from the chain
      and its value from the values held. Only `prev` changes, and only its `next`. */
  method Unlink(prev: Node, ghost nodes: seq<Node>, ghost k: nat) returns (ghost nodes': seq<Node>)
    requires k + 1 < |nodes| && IsChain(nodes[0], nodes) && prev == nodes[k]
    modifies prev`next
    ensures prev.next == old(nodes[k + 1].next)
    ensures nodes' == Without(nodes, k + 1)
    ensures IsChain(nodes[0], nodes')
    ensures Values(nodes') == Without(old(Values(nodes)), k + 1)
  {
    ghost var s := Values(nodes);
    NextInChain(nodes[0], nodes, k);
    NextInChain(nodes[0], nodes, k + 1);
    forall j | 0 <= j < |nodes| && j != k ensures nodes[j] != prev {
      if j < k {
        ChainNoRepeat(nodes[0], nodes, j, k);
      } else {
        ChainNoRepeat(nodes[0], nodes, k, j);
      }
    }
    prev.next := prev.next.next;
    nodes' := Without(nodes, k + 1);
    SplicedChain(nodes, k);
    DroppedValues(nodes, s, k + 1);
  }

  /** After `nodes[k].next` is rebound past `nodes[k + 1]`, the remaining nodes
      still form a chain from the same head. */
  lemma SplicedChain(nodes: seq<Node>, k: nat)
    requires k + 1 < |nodes|
    requires forall i {:trigger nodes[i].next} :: 0 <= i < |nodes| - 1 && i != k ==> nodes[i].next == nodes[i + 1]
    requires nodes[k].next == if k + 2 < |nodes| then nodes[k + 2] else null
    requires k + 2 < |nodes| ==> nodes[|nodes| - 1].next == null
    ensures IsChain(nodes[0], nodes[..k + 1] + nodes[k + 2..])
  {
    var spliced := nodes[..k + 1] + nodes[k + 2..];
    forall i | 0 <= i < |spliced| - 1 ensures spliced[i].next == spliced[i + 1] {
      if i < k {
        assert spliced[i] == nodes[i] && spliced[i + 1] == nodes[i + 1];
      } else if i == k {
        assert spliced[i + 1] == nodes[k + 2];
      } else {
        assert spliced[i] == nodes[i + 1] && spliced[i + 1] == nodes[i + 2];
      }
    }
  }

  /** Dropping `nodes[i]` from nodes holding `s` leaves nodes holding `s` without
      its element at `i`. */
  lemma DroppedValues(nodes: seq<Node>, s: seq<int>, i: nat)
    requires i < |nodes| == |s|
    requires forall j :: 0 <= j < |nodes| ==> nodes[j].value == s[j]
    ensures Values(nodes[..i] + nodes[i + 1..]) == s[..i] + s[i + 1..]
  {
    var dropped := nodes[..i] + nodes[i + 1..];
    forall j | 0 <= j < |dropped| ensures Values(dropped)[j] == (s[..i] + s[i + 1..])[j] {
      if j < i {
        assert dropped[j] == nodes[j];
      } else {
        assert dropped[j] == nodes[j + 1];
      }
    }
  }

  /** Returns the first node holding `value`, or `null` when no node does. Reads only. */
  method Find(head: Node?, value: int, ghost nodes: seq<Node>) returns (r: Node?)
    requires IsChain(head, nodes)
    ensures r == null <==> value !in Values(nodes)
    ensures r != null ==> r == nodes[IndexOf(Values(nodes), value)] && r.value == value
  {
    ghost var s := Values(nodes);
    var current := head;
    ghost var k := 0;
    while current != null
      invariant 0 <= k <= |nodes|
      invariant current == if k == |nodes| then null else nodes[k]
      invariant forall j :: 0 <= j < k ==> s[j] != value
      decreases |nodes| - k
    {
      if current.value == value {
        assert s[k] == value;
        return current;
      }
      current := current.next;
      k := k + 1;
    }
    return null;
  }

  /** Lists the values from head to tail. Reads only. */
  method ToArray(head: Node?, ghost nodes: seq<Node>) returns (arr: seq<int>)
    requires IsChain(head, nodes)
    ensures arr == Values(nodes)
  {
    arr := [];
    var current := head;
    while current != null
      invariant 0 <= |arr| <= |nodes|
      invariant current == if |arr| == |nodes| then null else nodes[|arr|]
      invariant forall j :: 0 <= j < |arr| ==> arr[j] == nodes[j].value
      decreases |nodes| - |arr|
    {
      arr := arr + [current.value];
      current := current.next;
    }
  }

  /** The list of the usage walk-through: 3, 2 and 1 pushed on the front of an empty
      list, then 4 and 5 appended, which gives [1, 2, 3, 4, 5] headed by a new node. */
  method BuildExample() returns (head: Node, ghost nodes: seq<Node>)
    ensures IsChain(head, nodes) && Values(nodes) == [1, 2, 3, 4, 5]
    ensures fresh(head)
  {
    head, nodes := AddFront(null, 3, []);
    assert Values(nodes) == [3];
    head, nodes := AddFront(head, 2, nodes);
    assert Values(nodes) == [2, 3];
    head, nodes := AddFront(head, 1, nodes);
    assert Values(nodes) == [1, 2, 3];
    head, nodes := AddEnd(head, 4, nodes);
    assert Values(nodes) == [1, 2, 3, 4];
    head, nodes := AddEnd(head, 5, nodes);
  }

  /** The usage walk-through: the list built lists as [1, 2, 3, 4, 5]; looking up 3
      finds the node holding it; removing 2 leaves [1, 3, 4, 5]. */
  method UsageExample() returns (listed: seq<int>, found: Node?, remaining: seq<int>)
    ensures listed == [1, 2, 3, 4, 5]
    ensures found != null && found.value == 3
    ensures remaining == [1, 3, 4, 5]
  {
    var head: Node?;
    ghost var nodes: seq<Node>;
    head, nodes := BuildExample();
    listed := ToArray(head, nodes);
    found := Find(head, 3, nodes);
    RemoveFirstExample();
    head, nodes := Remove(head, 2, nodes);
    remaining := ToArray(head, nodes);
  }
}
