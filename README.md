# Singly and doubly linked lists

A verified model of two JavaScript linked-list classes: `LinkedList` in
`LinkList.js` (nodes with `value` and `next`) and `DoublyLinkList` in
`DoublyLinkList.js` (nodes with `value`, `next` and `prev`). Each list keeps
`head` and `tail` references. Operations relink nodes in place. Every node-returning
operation hands back the node object itself, or `null`.

Both classes are modelled as Dafny classes over heap-allocated `Node` objects,
with the source's fields and imperative algorithms. Each list also carries two
ghost fields:

- `spine` is the sequence of nodes from `head` to `tail`;
- `contents` is the sequence of their values.

`Valid()` says the following:

- `head` is the first node of `spine` and `tail` the last;
- each node's `next` is the following node, and the last node's `next` is null;
- no node occurs twice;
- the values are `contents`.

For the doubly linked list, `BackLinked()` also says that each node's `prev`
is the preceding node, or null for the first node. The two predicates are kept
apart because the source's `insertAt` keeps the first but breaks the second.

Every operation is specified against sequence functions in the module
`ListSpec`: `Reversed`, `IndexOf`, `Inserted` and `RemovedAt`. Their properties
are proved there as lemmas. The doubly `deleteNodeByValue` also uses
`Doubly.DoublyLinkList.ValueDeletePosition`, the position its head, tail, then
search order removes. The module `Demos` replays the driver code at the bottom
of both files. It also proves the round trips and the small inputs on which the
behaviour of the two files differs or goes wrong.

The `modifies` clause of each mutator names the link fields the source writes
in any of its branches: the `next` and `prev` of the neighbours it relinks
(through `NodeAt(k)`, the node at position `k` as a set). Where a branch leaves
a framed field alone, the ensures say so, as for the successor's `prev` in a
middle `insertAt`. Only `updateNode` may change a `value`. So every other node
keeps its links and its value, and a removed node still holds the value it held
in the list.

Choices kept from the code:

- An index that is left out (the source's default `Infinity`) is `None`.
- The singly `insert` prepends for an index below 1 and appends for an index at
  or above the size.
- The doubly `insertAt` prepends for an index at or below 0 and appends for an
  index at or above `size - 1`. So, for a list of two or more nodes,
  `insertAt(v, size - 1)` puts `v` last, while `insert(v, size - 1)` puts it
  before the last value. On a one-node list both prepend.
- The doubly `deleteNodeByValue` tests the head, then the tail, and only then
  searches. When the value sits both in an inner node and in the tail, the tail
  is removed, not the first occurrence.
- Removed nodes are detached, with `next`, and for the doubly list also `prev`,
  set to null. The exceptions are where the source leaves a link in place.

## Model

| member | source | states |
|---|---|---|
| ListSpec.Reversed | LinkList.js:288-306 | the reversed list has the same length and the same elements, counted with multiplicity |
| ListSpec.ReversedAt | LinkList.js:288-306 | position `k` of the reversed list holds what position `n - 1 - k` held |
| ListSpec.ReversedInvolution | DoublyLinkList.js:275-298 | reversing twice gives back the original order |
| ListSpec.DistinctReversed | LinkList.js:288-306 | reversal keeps every node distinct, so the reversed chain has no cycle |
| ListSpec.IndexOf | LinkList.js:33-43 | the first position holding the value; -1 exactly when no node holds it; no earlier node holds it |
| ListSpec.RemovedInserted | LinkList.js:179-192 | deleting at the index just inserted at gives back the original list |
| Singly.Node.constructor | LinkList.js:1-6 | a new node holds the given value and `next` |
| Singly.LinkedList.constructor | LinkList.js:9-12 | a new list is empty and well formed |
| Singly.LinkedList.GetSize | LinkList.js:18-26 | the size is the number of nodes from head to tail |
| Singly.LinkedList.GetIndex | LinkList.js:33-43 | the index of the first node holding the value, or -1 when none does |
| Singly.LinkedList.GetNodeByIndex | LinkList.js:50-65 | the node at the index, or null for an index outside 0 to size-1 |
| Singly.LinkedList.GetNodeByValue | LinkList.js:72-83 | the first node holding the value, or null when none does |
| Singly.LinkedList.Prepend | LinkList.js:90-97 | a fresh head holding the value is placed before the old nodes; on an empty list it is also the tail |
| Singly.LinkedList.Append | LinkList.js:105-115 | a fresh tail holding the value is placed after the old nodes; on an empty list it is also the head |
| Singly.LinkedList.InsertPosition | LinkList.js:123-132 | an index from 0 to the size is used as given; a smaller index gives 0; a larger or absent index gives the size |
| Singly.LinkedList.Insert | LinkList.js:123-132 | a fresh node holding the value is inserted at `InsertPosition`; the other nodes keep their order; a middle insert keeps the tail; only the predecessor's `next` changes |
| Singly.LinkedList.DeleteHead | LinkList.js:138-148 | null on an empty list; otherwise the old head is detached and returned, and the rest of the list stays; the returned node holds the old first value |
| Singly.LinkedList.DeleteTail | LinkList.js:154-171 | null on an empty list; otherwise the old tail is returned and its predecessor becomes the tail; the returned node holds the old last value |
| Singly.LinkedList.DeleteNodeByIndex | LinkList.js:179-192 | null and no change for an index outside the list; otherwise exactly the node at the index is removed, detached and returned, holding the value at the index |
| Singly.LinkedList.DeleteNodeByValue | LinkList.js:199-212 | null and no change when no node holds the value; otherwise the first node holding the value is unlinked and returned, still holding it; when it was the last of two or more nodes, `tail` still points at it and the list is no longer well formed |
| Singly.LinkedList.DeleteNodeByValueCorrected | LinkList.js:199-212 | the same removal with `tail` moved to the predecessor, so the list stays well formed; the returned node holds the value |
| Singly.LinkedList.UpdateNode | LinkList.js:220-226 | the node at the index gets the new value, and no link changes; null for an index outside the list |
| Singly.LinkedList.Contains | LinkList.js:233-236 | true exactly when some node holds the value |
| Singly.LinkedList.FromArray | LinkList.js:243-246 | the array's values are added after the existing ones, in order, in fresh nodes |
| Singly.LinkedList.ToArray | LinkList.js:252-260 | the nodes from head to tail, in order |
| Singly.LinkedList.Clear | LinkList.js:278-281 | the list becomes empty |
| Singly.LinkedList.Reverse | LinkList.js:288-306 | the same nodes are relinked in the opposite order; head and tail swap |
| Singly.LinkedList.Values | LinkList.js:309-318 | the values from head to tail, in order |
| Doubly.Node.constructor | DoublyLinkList.js:1-7 | a new node holds the given value, `next` and `prev` |
| Doubly.DoublyLinkList.constructor | DoublyLinkList.js:10-13 | a new list is empty, well formed and back-linked |
| Doubly.DoublyLinkList.GetSize | DoublyLinkList.js:16-26 | the size is the number of nodes from head to tail |
| Doubly.DoublyLinkList.GetNodeByIndex | DoublyLinkList.js:33-48 | the node at the index, or null for an index outside 0 to size-1 |
| Doubly.DoublyLinkList.GetNodeByValue | DoublyLinkList.js:55-66 | the first node holding the value, or null when none does |
| Doubly.DoublyLinkList.Prepend | DoublyLinkList.js:73-84 | a fresh head with null `prev` is placed before the old nodes; the old head's `prev` is the new head; back-links are kept |
| Doubly.DoublyLinkList.Append | DoublyLinkList.js:91-103 | a fresh tail whose `prev` is the old tail is placed after the old nodes; back-links are kept |
| Doubly.DoublyLinkList.InsertAtPosition | DoublyLinkList.js:111-121 | an index from 0 to the size is used as given, except that a positive `size - 1` gives the size; a smaller index gives 0; a larger or absent index gives the size |
| Doubly.DoublyLinkList.InsertAt | DoublyLinkList.js:111-121 | a fresh node holding the value is inserted at `InsertAtPosition`; in the middle case the successor's `prev` is left on the predecessor, and every other `prev` still points at the preceding node; back-links survive exactly when the value was prepended or appended |
| Doubly.DoublyLinkList.InsertAtCorrected | DoublyLinkList.js:111-121 | the same insertion with the successor's `prev` set to the new node, so back-links are kept in every case |
| Doubly.DoublyLinkList.DeleteHead | DoublyLinkList.js:127-140 | null on an empty list; otherwise the old head is detached and returned, holding the old first value, and the new head's `prev` is null |
| Doubly.DoublyLinkList.DeleteTail | DoublyLinkList.js:146-159 | null on an empty list; otherwise the old tail is detached and returned, holding the old last value, and its `prev` becomes the tail |
| Doubly.DoublyLinkList.DeleteNodeByIndex | DoublyLinkList.js:166-181 | null and no change for an index outside the list; otherwise exactly the node at the index is removed, detached and returned, holding the value at the index, and both directions of links are kept |
| Doubly.DoublyLinkList.ValueDeletePosition | DoublyLinkList.js:188-204 | the position `deleteNodeByValue` removes: -1 exactly when no node holds the value, otherwise a position holding it |
| Doubly.DoublyLinkList.ValueDeletePositionVersusFirst | DoublyLinkList.js:188-204 | the removed position differs from the first occurrence exactly when the head does not hold the value, the tail does, and an inner node does too |
| Doubly.DoublyLinkList.DeleteNodeByValue | DoublyLinkList.js:188-204 | the node at `ValueDeletePosition` is removed, detached and returned, holding the value, or null with no change |
| Doubly.DoublyLinkList.UpdateNode | DoublyLinkList.js:212-220 | the node at the index gets the new value, and no link changes; null for an index outside the list |
| Doubly.DoublyLinkList.Contains | DoublyLinkList.js:227-231 | true exactly when some node holds the value |
| Doubly.DoublyLinkList.FromArray | DoublyLinkList.js:238-242 | the array's values are appended in order, in fresh nodes; back-links are kept |
| Doubly.DoublyLinkList.ToArray | DoublyLinkList.js:248-258 | the nodes from head to tail, in order |
| Doubly.DoublyLinkList.Reverse | DoublyLinkList.js:275-298 | the same nodes are relinked in the opposite order in both directions; head and tail swap |
| Doubly.DoublyLinkList.Clear | DoublyLinkList.js:301-304 | the list becomes empty |
| Doubly.DoublyLinkList.Values | DoublyLinkList.js:306-316 | the values from head to tail, in order |
| Demos.SinglyDriver | LinkList.js:321-329 | the driver's list holds 5, 10, 30, 40 and, after `reverse`, 40, 30, 10, 5 |
| Demos.DoublyDriver | DoublyLinkList.js:319-326 | the driver's list holds 10, 20, 30 and, after `reverse`, 30, 20, 10 |
| Demos.FromArrayRoundTrip | LinkList.js:243-260 | filling an empty list from an array and reading it back with `toArray` gives nodes holding the array's values in order, for both lists |
| Demos.SinglyReverseTwice | LinkList.js:288-306 | reversing twice restores every node, link, head and tail |
| Demos.DoublyReverseTwice | DoublyLinkList.js:275-298 | reversing twice restores every node, both links, head and tail |
| Demos.SinglyDeleteUndoesInsert | LinkList.js:90-171 | `deleteHead` undoes `prepend`, and `deleteTail` undoes `append`: the same nodes, values, head and tail |
| Demos.SinglyEdgeCases | LinkList.js:138-192 | deleting from an empty list gives null; deleting the only node empties the list; an index equal to the size deletes nothing |
| Demos.InsertPositionsDiffer | DoublyLinkList.js:111-121 | the two lists insert at different positions exactly for index `size - 1` with two or more nodes |
| Demos.InsertBoundaries | DoublyLinkList.js:113 | inserting 9 at index 2 into 1, 2, 3 gives 1, 2, 9, 3 in the singly list and 1, 2, 3, 9 in the doubly list |
| Demos.SinglyDeletesFirstOccurrence | LinkList.js:199-212 | deleting 7 from 1, 7, 2, 7 in the singly list gives 1, 2, 7 |
| Demos.DoublyDeletesLastOccurrence | DoublyLinkList.js:189-190 | deleting 7 from 1, 7, 2, 7 in the doubly list gives 1, 7, 2 |
| Demos.SinglyDeletedValues | LinkList.js:138-212 | on 1, 2, 3, 4, deleting the head, the tail, index 1 and the value 2 returns nodes holding 1, 4, 3 and 2 |
| Demos.DoublyDeletedValues | DoublyLinkList.js:127-204 | the same four deletions on the doubly list return nodes holding 1, 4, 3 and 2 |
| Demos.StaleTail | LinkList.js:203-211 | deleting 2 from 1, 2 leaves `tail` on the removed node |
| Demos.StaleTailRepaired | LinkList.js:203-211 | with the repair, `tail` holds 1 after the same deletion |
| Demos.MissingBackLink | DoublyLinkList.js:116-117 | after inserting 9 at index 1 into 1, 2, 3, reading forward gives 1, 9, 2, 3 but walking `prev` back from the tail gives 3, 2, 1 and then reaches null |
| Demos.MissingBackLinkRepaired | DoublyLinkList.js:116-117 | with the repair, walking `prev` back from the tail gives 3, 2, 9, 1 and then reaches null |

## Left out

- `print` only logs the array of values to the console. The array is modelled
  by `Values`; the console output is not.
- `forEach` calls an arbitrary caller-supplied function on every node and its
  index. A callback with unknown effects on the list cannot be given a contract.
- The driver code at the bottom of each file is not part of the API. It is
  replayed by `Demos.SinglyDriver` and `Demos.DoublyDriver`.
- Methods that return `this` for chaining return nothing in the model.
- The `Node` constructors' default arguments (`next = null`, `prev = null`) are
  explicit parameters; callers pass `null` where the source leaves them out.
- Garbage collection and node ownership: removed nodes stay allocated, and a
  caller that holds one may still reach it.
- Indexes are mathematical integers. JavaScript numbers that are not integers
  (fractions, `NaN`) and comparisons on non-numbers are not modelled. The
  default `Infinity` is `None`.
- Values are compared with Dafny's `==` on the element type, which stands for
  JavaScript's strict equality `===`. In JavaScript `NaN !== NaN`, so `getIndex`,
  `getNodeByValue`, `contains` and `deleteNodeByValue` never find a `NaN` value,
  while the model's `==` is reflexive and finds it.
- Singly.LinkedList.GetIndex: requires a non-empty list, because the source reads `head.value` and throws a TypeError on an empty list.
- Singly.LinkedList.GetNodeByValue: requires a non-empty list, for the same reason.
- Singly.LinkedList.Contains: requires a non-empty list, because it calls `getNodeByValue`.
- Singly.LinkedList.DeleteNodeByValue: requires a non-empty list, because it calls `getIndex`. After it leaves a stale `tail`, the model only promises the forward chain (`Chain()`), so the other operations, which require `Valid()`, cannot be applied to that list.
- Doubly.DoublyLinkList.GetNodeByValue: requires a non-empty list, because the source reads `head.value`.
- Doubly.DoublyLinkList.Contains: requires a non-empty list, because it calls `getNodeByValue`.
- Doubly.DoublyLinkList.DeleteNodeByValue: requires a non-empty, back-linked list. The source reads `head.value` first, and its inner removal follows `prev`.
- Doubly.DoublyLinkList.DeleteTail: requires back-links, because the new tail is found through `prev`. What the source does after a middle `insertAt` has broken a back-link is not described.
- Doubly.DoublyLinkList.DeleteNodeByIndex: requires back-links, for the same reason.
- Doubly.DoublyLinkList.Reverse: requires back-links, because the reversal turns each `prev` into the new `next`. The chain that reversing a list with a broken back-link produces is not described.

## Findings

| source | as written | input that shows it | evidently intended | confidence | as-written member | corrected member |
|---|---|---|---|---|---|---|
| LinkList.js:203-211 | `deleteNodeByValue` unlinks the node after its predecessor but never updates `tail`, so removing the last node leaves `tail` on a node that is no longer in the list (`Demos.StaleTail`) | the list 1, 2 and `deleteNodeByValue(2)` | `tail` moves to the predecessor, as `deleteTail` does | high; not executed | Singly.LinkedList.DeleteNodeByValue | Singly.LinkedList.DeleteNodeByValueCorrected |
| DoublyLinkList.js:116-117 | a middle `insertAt` sets the new node's `prev` and the predecessor's `next` but not the successor's `prev`, so walking backwards skips the new node (`Demos.MissingBackLink`) | the list 1, 2, 3 and `insertAt(9, 1)` | the successor's `prev` becomes the new node, as in `deleteNodeByIndex`'s relinking | high; not executed | Doubly.DoublyLinkList.InsertAt | Doubly.DoublyLinkList.InsertAtCorrected |
