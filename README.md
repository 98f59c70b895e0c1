# Sentinel-headed circular doubly linked list

This project models `src/lab.c`, a generic doubly linked list whose nodes form
a ring through a sentinel `head` node that never holds a payload. The list
supports five operations: `list_init`, `list_add` (insert at the front),
`list_remove_index`, `list_indexof` (linear search with a caller-supplied
comparator) and `list_destroy` (teardown with an optional caller-supplied
payload destructor).

The model is imperative, as the C code is:

- `Node<T>` is a class with `data`, `next` and `prev` fields.
- `List<T>` is a class holding the sentinel `head`, `size`, whether a destructor
  was supplied (`hasDestroy`) and the optional comparator (`compareTo`).
  Its ghost fields `nodes` and `elems` are the data nodes and their payloads,
  front to back. `Repr` is its footprint.
- `List.Valid()` is the object invariant. The ring `[head] + nodes + [head]`
  is linked both ways (`Linked`). The data nodes are distinct, and none of
  them is the sentinel. `size == |nodes|`, and the sentinel's payload is null.
- A payload (`void *`) is an `Option<T>`, where `None` is the null pointer.
- The C functions take a list pointer that may be null, so they are
  module-level methods over `List?<T>`.
- `list_destroy` receives the address of the caller's list variable. That
  variable is modelled as a `Handle<T>` object whose `list` field the
  teardown clears.
- The destructor's body is unknown. `Destroy` returns the sequence of payloads
  it would have been called on, in call order.
- A node that `list_remove_index` frees leaves `nodes` and `Repr`. Teardown
  releases the whole list: its `nodes`, `elems` and `Repr` become empty, so the
  list no longer satisfies `Valid()` and no operation accepts it again.
- `List.Valid()`, `List.Ring()`, `Linked`, `Distinct`, `DistinctRemove`, `Walk`
  and `IntCompare` are helpers: the invariant, the ring it is stated over,
  traversal, and a sample comparator. They have no row of their own below.

Each operation is specified against the abstract sequence `elems`. Two
specification functions describe its results: `Payloads` (the non-null
payloads in order) and `FirstMatch` (the first index the comparator calls
equal, or -1). Lemmas about them complete the picture. `Walk` follows `next`
or `prev` pointers from a node; the lemmas about it show that both directions
return to the sentinel after exactly `size + 1` steps. The sentinel is the
start, each of the `size` data nodes is one step, and the last step lands on
the sentinel again.

## Model

| member | source | states |
|---|---|---|
| LinkedList.List.constructor | src/lab.c:10-33 | The new list is valid and empty (`size == 0`). The sentinel links to itself both ways and holds a null payload. Both callbacks are stored as given. |
| LinkedList.Node.Sentinel | src/lab.c:24-26 | A sentinel has a null payload and its `next` and `prev` are itself. |
| LinkedList.Node.constructor | src/lab.c:80-82 | A new node holds the given payload and links. |
| LinkedList.Add | src/lab.c:68-90 | A null list gives a null result and nothing changes. Otherwise the same list is returned and stays valid. The payload becomes index 0, the old payloads follow in their old order, a fresh node is at the front, and `size` grows by one. |
| LinkedList.LinkedAfterSplice | src/lab.c:81-86 | Suppose a new node is wired between the sentinel and the old first node, and the rest of the ring keeps its links. Then the ring with the new node inserted after the sentinel is linked both ways. |
| LinkedList.ValidAfterSplice | src/lab.c:80-88 | After the splice and `size++`, the whole object invariant holds again with the new node first. |
| LinkedList.RemoveIndex | src/lab.c:92-112 | A null list, or `index >= size` (which includes every index on an empty list), gives a null result and leaves every object of the list unchanged. Otherwise the result is the payload at `index`. `elems` and `nodes` lose exactly that entry and keep their order, and `size` drops by one. The unlinked node leaves the footprint and the list stays valid, with its sentinel in place. |
| LinkedList.LinkedAfterUnlink | src/lab.c:103-104 | Suppose the neighbours of a ring node point at each other and the other links are kept. Then the ring without that node is linked both ways. |
| LinkedList.ValidAfterUnlink | src/lab.c:103-110 | After the unlink and `size--`, the whole object invariant holds again without the removed node. |
| LinkedList.IndexOf | src/lab.c:114-132 | A null list or null `data` gives -1, and so does an empty list. Otherwise the result is `FirstMatch` of the payloads. Nothing is modified. The comparator is required only when it would actually be called. |
| LinkedList.FirstMatch | src/lab.c:120-131 | The result lies between -1 and `size - 1`. A non-negative result is an index where the comparator returns 0, and no earlier index does. The result is -1 exactly when no index matches. |
| LinkedList.Destroy | src/lab.c:35-65 | A null handle, or a handle to a null list, makes no destructor call. Otherwise the destructor is called only if one was supplied, once for each non-null payload, front to back (`Payloads(elems)`). The list is then released: its footprint, nodes and payloads are empty and it is no longer valid. Afterwards the caller's handle is null. |
| LinkedList.Payloads | src/lab.c:44-55 | The non-null payloads, in order. There are no more of them than nodes. Each comes from a node, and each node's non-null payload is among them. |
| LinkedList.PayloadsAppend | src/lab.c:44-55 | The destructor calls for a list split in two are the calls for the front part followed by the calls for the back part. This is the step the teardown loop takes per node. |
| LinkedList.PayloadsAllPresent | src/lab.c:48-50 | When no payload is null, the destructor is called once per node, on each node's payload in list order. |
| LinkedList.WalkAlongRing | src/lab.c:97-100 | Following `next` k times from the sentinel reaches ring position k. Following `prev` k times reaches position `size + 1 - k`. This holds for every `k <= size + 1`. |
| LinkedList.SizeIsRingLength | src/lab.c:41-44 | Going forward or backward from the sentinel returns to it after exactly `size + 1` steps. No smaller positive number of steps returns to it, so `size` counts the data nodes on the ring. |
| LinkedList.LinksAgree | src/lab.c:81-86 | In a valid list, every node on the ring has non-null links, including the sentinel. Every such node `n` satisfies `n.next.prev == n` and `n.prev.next == n`. |
| Scenario.AddThenRemoveFront | src/lab.c:68-112 | Inserting `x` and then removing index 0 returns `x`. The payloads and `size` are as before. |
| Scenario.AddThenIndexOf | src/lab.c:68-132 | If the comparator calls a payload equal to itself, a payload just inserted is found at index 0. |
| Scenario.TearDownNineSeven | src/lab.c:35-65 | Tearing down a list holding 9 and 7 calls the destructor on 9 and then 7, and leaves the list invalid. A second teardown, through the now-null handle, calls nothing. |
| Scenario.NineThreeSeven | src/lab.c:68-90 | A new list with a destructor and a comparator, after inserting 7, 3 and 9 at the front, is valid, holds 9, 3, 7 in that order and has size 3. |
| LinkedList.Handle.constructor | src/lab.c:35 | The caller's `list_t *` variable, whose address `list_destroy` receives, holds the given list. |
| Scenario.Example | src/lab.c:68-132 | Build the list: insert 7, 3 and 9, giving 9, 3, 7. Searching for 7 gives 2. Removing index 1 returns 3. Removing at index `size` returns null. Teardown calls the destructor on 9 and 7. |

## Left out

- Allocation failure of `malloc` (src/lab.c:12-21, src/lab.c:75-78) is not modelled. Dafny's `new` cannot fail, so `List.constructor` always succeeds, and `Add` always returns its list when that list is non-null.
- `free` is modelled as a removed node leaving `nodes` and `Repr`, as a torn-down list's ghost state becoming empty (so it is no longer valid), and as the caller's handle becoming null. Dafny has no explicit deallocation.
- The bodies of the `destroy_data` and `compare_to` callbacks are not modelled. The comparator is a total function on payloads. The destructor is observed only through the sequence of payloads passed to it.
- Destroy: the node, sentinel and list objects themselves stay allocated, since Dafny has no deallocation. Only the list's ghost state is emptied, which makes it invalid for every operation. Another reference to one of its nodes could still read that node's fields.
- `lab.h` is not part of this model. The struct layouts come from the fields the code uses.
- IndexOf: the C counter `index` is an `int`, so a list with more than `INT_MAX` nodes would overflow it. The model counts with an unbounded integer.
- Add: `size` is a `size_t`. Its wrap-around after `SIZE_MAX` insertions is not modelled.
- Calling `list_indexof` without a comparator on a non-empty list calls a null function pointer. `IndexOf` excludes this with its precondition.
