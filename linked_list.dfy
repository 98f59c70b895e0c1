/** A generic circular doubly linked list with a sentinel node.
    Payloads are opaque pointers: `Option<T>`, where `None` is the null pointer.
    The C entry points take a possibly null list, so they are modelled as
    module-level methods over `List?<T>`. */
module LinkedList {

  datatype Option<T> = None | Some(value: T)

  // ---------------------------------------------------------------------------
  // Specification functions on the abstract sequence of payloads
  // ---------------------------------------------------------------------------

  /** The non-null payloads of `s`, in list order: the arguments that a full
      teardown hands to the destructor callback. */
  function Payloads<T>(s: seq<Option<T>>): (r: seq<T>)
    ensures |r| <= |s|
    ensures forall x :: x in r ==> Some(x) in s
    ensures forall i :: 0 <= i < |s| && s[i].Some? ==> s[i].value in r
  {
    if s == [] then []
    else (if s[0].Some? then [s[0].value] else []) + Payloads(s[1..])
  }

  lemma {:induction false} PayloadsAppend<T>(a: seq<Option<T>>, b: seq<Option<T>>)
    ensures Payloads(a + b) == Payloads(a) + Payloads(b)
  {
    if a == [] {
      assert a + b == b;
    } else {
      assert (a + b)[1..] == a[1..] + b;
      PayloadsAppend(a[1..], b);
    }
  }

  /** A sequence without null payloads loses nothing to the filter. */
  lemma {:induction false} PayloadsAllPresent<T>(s: seq<Option<T>>)
    requires forall i :: 0 <= i < |s| ==> s[i].Some?
    ensures |Payloads(s)| == |s|
    ensures forall i :: 0 <= i < |s| ==> Payloads(s)[i] == s[i].value
  {
    if s != [] {
      PayloadsAllPresent(s[1..]);
    }
  }

  /** Position of the first payload that `cmp` reports equal to `d`, or -1. */
  function FirstMatch<T>(s: seq<Option<T>>, cmp: (Option<T>, Option<T>) -> int, d: Option<T>): (r: int)
    ensures -1 <= r < |s|
    ensures 0 <= r ==> cmp(s[r], d) == 0
    ensures 0 <= r ==> forall j :: 0 <= j < r ==> cmp(s[j], d) != 0
    ensures r == -1 <==> forall j :: 0 <= j < |s| ==> cmp(s[j], d) != 0
  {
    if s == [] then -1
    else if cmp(s[0], d) == 0 then 0
    else
      var k := FirstMatch(s[1..], cmp, d);
      if k == -1 then -1 else k + 1
  }

  // ---------------------------------------------------------------------------
  // Heap structure
  // ---------------------------------------------------------------------------

  class Node<T> {
    var data: Option<T>
    var next: Node?<T>
    var prev: Node?<T>

    /** A data node, linked as given. */
    constructor (data: Option<T>, next: Node?<T>, prev: Node?<T>)
      ensures this.data == data && this.next == next && this.prev == prev
    {
      this.data := data;
      this.next := next;
      this.prev := prev;
    }

    /** A sentinel: no payload, both links to itself. */
    constructor Sentinel()
      ensures data == None && next == this && prev == this
    {
      data := None;
      new;
      next := this;
      prev := this;
    }
  }

  /** Consecutive nodes of `r` are linked both ways. */
  ghost predicate Linked<T>(r: seq<Node<T>>)
    reads r
  {
    forall i :: 0 <= i < |r| - 1 ==> r[i].next == r[i + 1] && r[i + 1].prev == r[i]
  }

  ghost predicate Distinct<X>(s: seq<X>)
  {
    forall i, j :: 0 <= i < j < |s| ==> s[i] != s[j]
  }

  /** Removing one entry of a sequence without repetitions leaves one
      without repetitions that no longer holds that entry. */
  lemma DistinctRemove<X>(s: seq<X>, k: nat)
    requires Distinct(s) && k < |s|
    ensures Distinct(s[..k] + s[k + 1..]) && s[k] !in s[..k] + s[k + 1..]
  {
    var t := s[..k] + s[k + 1..];
    forall i | 0 <= i < |t|
      ensures t[i] == s[if i < k then i else i + 1]
    {
    }
  }

  class List<T> {
    const head: Node<T>
    var size: nat
    /** Whether a destroy_data callback was supplied; its body is not modelled,
        only the payloads it is called on. */
    const hasDestroy: bool
    const compareTo: Option<(Option<T>, Option<T>) -> int>

    /** The data nodes, front to back. */
    ghost var nodes: seq<Node<T>>
    /** The payloads, front to back: the abstract list. */
    ghost var elems: seq<Option<T>>
    ghost var Repr: set<object>

    /** The cycle followed by `next` from the sentinel back to the sentinel. */
    ghost function Ring(): (r: seq<Node<T>>)
      reads this
    {
      [head] + nodes + [head]
    }

    ghost predicate Valid()
      reads this, Repr
    {
      this in Repr && head in Repr &&
      (forall n :: n in nodes ==> n in Repr) &&
      head !in nodes &&
      Distinct(nodes) &&
      size == |nodes| && |elems| == |nodes| &&
      head.data == None &&
      (forall i :: 0 <= i < |nodes| ==> nodes[i].data == elems[i]) &&
      Linked(Ring())
    }

    /** list_init: an empty list whose sentinel links to itself. */
    constructor (hasDestroy: bool, compareTo: Option<(Option<T>, Option<T>) -> int>)
      ensures Valid() && fresh(Repr)
      ensures elems == [] && size == 0
      ensures head.next == head && head.prev == head && head.data == None
      ensures this.hasDestroy == hasDestroy && this.compareTo == compareTo
    {
      head := new Node.Sentinel();
      size := 0;
      this.hasDestroy := hasDestroy;
      this.compareTo := compareTo;
      nodes := [];
      elems := [];
      new;
      Repr := {this, head};
    }
  }

  /** The caller's `list_t *` variable, whose address list_destroy receives. */
  class Handle<T> {
    var list: List?<T>

    constructor (list: List?<T>)
      ensures this.list == list
    {
      this.list := list;
    }
  }

  // ---------------------------------------------------------------------------
  // Preservation of the invariant by the pointer surgery
  // ---------------------------------------------------------------------------

  /** Once `n` is wired between `ring[0]` and `ring[1]`, the ring with `n`
      inserted there is linked. */
  lemma LinkedAfterSplice<T>(ring: seq<Node<T>>, n: Node<T>)
    requires 2 <= |ring|
    requires forall i :: 1 <= i < |ring| - 1 ==> ring[i].next == ring[i + 1] && ring[i + 1].prev == ring[i]
    requires ring[0].next == n && n.prev == ring[0] && n.next == ring[1] && ring[1].prev == n
    ensures Linked([ring[0], n] + ring[1..])
  {
  }

  /** The object invariant after `list.head.next` has become a new node that
      holds the new first payload. */
  lemma ValidAfterSplice<T>(list: List<T>, nodes: seq<Node<T>>, elems: seq<Option<T>>)
    requires |nodes| == |elems| && |list.nodes| > 0
    requires Distinct(nodes) && list.head !in list.nodes && list.head.data == None
    requires list.nodes[0] !in nodes
    requires list in list.Repr && list.head in list.Repr
    requires forall n :: n in list.nodes ==> n in list.Repr
    requires forall i :: 0 <= i < |nodes| ==> nodes[i].data == elems[i]
    requires list.nodes == [list.nodes[0]] + nodes && list.elems == [list.nodes[0].data] + elems
    requires list.size == |nodes| + 1
    requires Linked([list.head, list.nodes[0]] + ([list.head] + nodes + [list.head])[1..])
    ensures list.Valid()
  {
    assert list.Ring() == [list.head, list.nodes[0]] + ([list.head] + nodes + [list.head])[1..];
  }

  /** Once the nodes on either side of `ring[k + 1]` point at each other,
      the ring without that node is linked. */
  lemma LinkedAfterUnlink<T>(ring: seq<Node<T>>, k: nat)
    requires k + 2 < |ring|
    requires forall i :: 0 <= i < |ring| - 1 && i != k && i != k + 1 ==>
      ring[i].next == ring[i + 1] && ring[i + 1].prev == ring[i]
    requires ring[k].next == ring[k + 2] && ring[k + 2].prev == ring[k]
    ensures Linked(ring[..k + 1] + ring[k + 2..])
  {
  }

  /** The object invariant after the data node at position `k` has been
      unlinked and dropped from the ghost state. */
  lemma ValidAfterUnlink<T>(list: List<T>, nodes: seq<Node<T>>, elems: seq<Option<T>>, k: nat)
    requires k < |nodes| == |elems|
    requires Distinct(nodes) && list.head !in nodes && list.head.data == None
    requires list in list.Repr && list.head in list.Repr
    requires forall n :: n in nodes && n != nodes[k] ==> n in list.Repr
    requires forall i :: 0 <= i < |nodes| ==> nodes[i].data == elems[i]
    requires list.nodes == nodes[..k] + nodes[k + 1..] && list.elems == elems[..k] + elems[k + 1..]
    requires list.size == |nodes| - 1
    requires Linked(([list.head] + nodes + [list.head])[..k + 1] + ([list.head] + nodes + [list.head])[k + 2..])
    ensures list.Valid()
  {
    DistinctRemove(nodes, k);
    assert list.Ring() == ([list.head] + nodes + [list.head])[..k + 1] + ([list.head] + nodes + [list.head])[k + 2..];
    forall i | 0 <= i < |list.nodes|
      ensures list.nodes[i] == nodes[if i < k then i else i + 1]
      ensures list.elems[i] == elems[if i < k then i else i + 1]
    {
    }
  }

  // ---------------------------------------------------------------------------
  // Operations
  // ---------------------------------------------------------------------------

  /** list_add: splice a new node in right after the sentinel. */
  method Add<T>(list: List?<T>, data: Option<T>) returns (r: List?<T>)
    requires list != null ==> list.Valid()
    modifies if list == null then {} else list.Repr
    ensures r == list
    ensures list != null ==>
      list.Valid() && fresh(list.Repr - old(list.Repr)) &&
      list.elems == [data] + old(list.elems) &&
      list.nodes == [list.nodes[0]] + old(list.nodes) && fresh(list.nodes[0]) &&
      list.size == old(list.size) + 1
  {
    if list == null {
      return null;
    }
    ghost var ring := list.Ring();
    assert ring[0] == list.head && ring[0].next == ring[1];
    ghost var nodes, elems := list.nodes, list.elems;
    var node := new Node(data, list.head.next, list.head);
    list.head.next.prev := node;
    list.head.next := node;
    list.size := list.size + 1;
    list.nodes := [node] + nodes;
    list.elems := [data] + elems;
    list.Repr := list.Repr + {node};
    forall i | 1 <= i < |ring| - 1
      ensures ring[i].next == ring[i + 1] && ring[i + 1].prev == ring[i]
    {
      assert ring[i] != list.head && ring[i + 1] != ring[1];
    }
    LinkedAfterSplice(ring, node);
    ValidAfterSplice(list, nodes, elems);
    r := list;
  }

  /** list_remove_index: walk `index` steps from the first node, unlink that
      node and hand its payload back. The destructor is not called. */
  method RemoveIndex<T>(list: List?<T>, index: nat) returns (r: Option<T>)
    requires list != null ==> list.Valid()
    modifies if list == null then {} else list.Repr
    ensures list != null ==> list.Valid() && list.Repr <= old(list.Repr)
    ensures list == null || index >= old(list.size) ==> r == None
    ensures list != null && index >= old(list.size) ==> unchanged(list.Repr) && list.Repr == old(list.Repr)
    ensures list != null && index < old(list.size) ==>
      r == old(list.elems)[index] &&
      list.elems == old(list.elems)[..index] + old(list.elems)[index + 1..] &&
      list.nodes == old(list.nodes)[..index] + old(list.nodes)[index + 1..] &&
      old(list.nodes)[index] !in list.Repr &&
      list.size == old(list.size) - 1
  {
    if list == null || index >= list.size {
      return None;
    }
    ghost var ring := list.Ring();
    assert ring[0] == list.head && ring[0].next == ring[1];
    var current := list.head.next;
    for i := 0 to index
      invariant current == ring[i + 1]
    {
      current := current.next;
    }
    ghost var before, after := ring[index], ring[index + 2];
    assert current.prev == before && current.next == after;
    ghost var nodes, elems := list.nodes, list.elems;
    current.prev.next := current.next;
    current.next.prev := current.prev;
    r := current.data;
    list.size := list.size - 1;
    list.nodes := nodes[..index] + nodes[index + 1..];
    list.elems := elems[..index] + elems[index + 1..];
    list.Repr := list.Repr - {current};
    forall i | 0 <= i < |ring| - 1 && i != index && i != index + 1
      ensures ring[i].next == ring[i + 1] && ring[i + 1].prev == ring[i]
    {
      assert ring[i] != before && ring[i + 1] != after;
    }
    LinkedAfterUnlink(ring, index);
    ValidAfterUnlink(list, nodes, elems, index);
  }

  /** list_indexof: the position of the first payload the comparator calls
      equal to `data`, or -1; nothing is modified. */
  method IndexOf<T>(list: List?<T>, data: Option<T>) returns (r: int)
    requires list != null ==> list.Valid()
    requires list != null && data.Some? && list.size > 0 ==> list.compareTo.Some?
    ensures list == null || data.None? || list.elems == [] ==> r == -1
    ensures list != null && data.Some? && list.elems != [] ==>
      r == FirstMatch(list.elems, list.compareTo.value, data)
  {
    if list == null || data.None? {
      return -1;
    }
    ghost var ring := list.Ring();
    assert ring[0] == list.head && ring[0].next == ring[1];
    var current := list.head.next;
    var index := 0;
    while current != list.head
      invariant 0 <= index <= list.size
      invariant current == ring[index + 1]
      invariant forall j :: 0 <= j < index ==> list.compareTo.value(list.elems[j], data) != 0
      decreases list.size - index
    {
      if list.compareTo.value(current.data, data) == 0 {
        return index;
      }
      current := current.next;
      index := index + 1;
    }
    return -1;
  }

  /** list_destroy: a no-op on a null handle or a handle to null; otherwise
      the destructor, when supplied, sees every non-null payload front to
      back, the nodes, the sentinel and the list are released, and the
      caller's handle is cleared. Returns the destructor's arguments in call
      order. A released list has an empty footprint and no data nodes, so it
      is no longer valid and no operation accepts it. */
  method Destroy<T>(handle: Handle?<T>) returns (calls: seq<T>)
    requires handle != null && handle.list != null ==> handle.list.Valid()
    modifies handle, if handle == null || handle.list == null then {} else {handle.list}
    ensures handle != null ==> handle.list == null
    ensures handle != null && old(handle.list) != null ==>
      old(handle.list).Repr == {} && old(handle.list).nodes == [] && old(handle.list).elems == [] &&
      !old(handle.list).Valid()
    ensures handle == null || old(handle.list) == null || !old(handle.list).hasDestroy ==> calls == []
    ensures handle != null && old(handle.list) != null && old(handle.list).hasDestroy ==>
      calls == Payloads(old(handle.list.elems))
  {
    calls := [];
    if handle == null || handle.list == null {
      return;
    }
    var list := handle.list;
    ghost var ring, elems := list.Ring(), list.elems;
    assert ring[0] == list.head && ring[0].next == ring[1];
    var current := list.head.next;
    ghost var k := 0;
    while current != list.head
      invariant 0 <= k <= |elems|
      invariant current == ring[k + 1]
      invariant calls == if list.hasDestroy then Payloads(elems[..k]) else []
      decreases |elems| - k
    {
      var next := current.next;
      if list.hasDestroy && current.data.Some? {
        calls := calls + [current.data.value];
      }
      assert elems[..k + 1] == elems[..k] + [elems[k]];
      PayloadsAppend(elems[..k], [elems[k]]);
      current := next;
      k := k + 1;
    }
    assert elems[..k] == elems;
    list.nodes, list.elems, list.Repr := [], [], {};
    handle.list := null;
  }

  // ---------------------------------------------------------------------------
  // Traversal of the ring
  // ---------------------------------------------------------------------------

  /** The node reached from `n` after `k` steps along `next` (forward) or
      `prev` (backward); null once a null link is met. */
  ghost function Walk<T>(n: Node<T>, k: nat, forward: bool): (m: Node?<T>)
    reads *
  {
    if k == 0 then n
    else
      var m := Walk(n, k - 1, forward);
      if m == null then null else if forward then m.next else m.prev
  }

  lemma {:induction false} WalkAlongRing<T>(list: List<T>, k: nat)
    requires list.Valid() && k <= list.size + 1
    ensures Walk(list.head, k, true) == list.Ring()[k]
    ensures Walk(list.head, k, false) == list.Ring()[list.size + 1 - k]
  {
    if k > 0 {
      WalkAlongRing(list, k - 1);
    }
  }

  /** Following `next` (or `prev`) from the sentinel meets `size` data nodes
      and is back at the sentinel after exactly `size + 1` steps. */
  lemma SizeIsRingLength<T>(list: List<T>)
    requires list.Valid()
    ensures Walk(list.head, list.size + 1, true) == list.head
    ensures Walk(list.head, list.size + 1, false) == list.head
    ensures forall k :: 0 < k <= list.size ==>
      Walk(list.head, k, true) != list.head && Walk(list.head, k, false) != list.head
  {
    forall k | 0 <= k <= list.size + 1
      ensures Walk(list.head, k, true) == list.Ring()[k]
      ensures Walk(list.head, k, false) == list.Ring()[list.size + 1 - k]
    {
      WalkAlongRing(list, k);
    }
    assert list.Ring()[0] == list.head;
    forall k | 0 < k <= list.size
      ensures Walk(list.head, k, true) != list.head && Walk(list.head, k, false) != list.head
    {
      assert list.Ring()[k] == list.nodes[k - 1];
      assert list.Ring()[list.size + 1 - k] == list.nodes[list.size - k];
    }
  }

  /** Every node on the ring, the sentinel included, is its successor's
      predecessor and its predecessor's successor. */
  lemma LinksAgree<T>(list: List<T>)
    requires list.Valid()
    ensures forall n :: n in list.Ring() ==>
      n.next != null && n.prev != null && n.next.prev == n && n.prev.next == n
  {
    var ring := list.Ring();
    forall n | n in ring
      ensures n.next != null && n.prev != null && n.next.prev == n && n.prev.next == n
    {
      var i :| 0 <= i < |ring| && ring[i] == n;
      var j := if i == |ring| - 1 then 0 else i;
      var h := if i == 0 then |ring| - 1 else i;
      assert ring[j] == n && ring[h] == n;
      assert n.next == ring[j + 1] && ring[j + 1].prev == n;
      assert n.prev == ring[h - 1] && ring[h - 1].next == n;
    }
  }
}
