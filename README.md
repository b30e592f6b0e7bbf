# Singly linked list

A model of a small singly linked list library (`linked_list.js`). The list is a chain
of `{value, next}` nodes reached from a head reference, with `null` as the empty list.
The library has six free-standing functions. `createNode` builds a node; the other
five take the current head. `addFront`, `addEnd` and `remove` return the head to use
afterwards, `find` returns a node or `null`, and `toArray` returns the values:

- `createNode` makes a node with a value and a successor (`null` by default); in the
  model it is the `Node` constructor.
- `addFront` prepends a fresh node.
- `addEnd` walks to the tail and links a fresh node after it.
- `remove` deletes the first node holding a value, either by advancing the head or by
  rebinding the predecessor's `next`.
- `find` returns the first node holding a value, or `null`.
- `toArray` lists the values head to tail.

A short walk-through at the end of the file builds `[1, 2, 3, 4, 5]`, finds 3 and
removes 2.

The Dafny model keeps the heap form of the source:

- A `Node` class has mutable `value` and `next` fields.
- Each operation is a method over `Node?` heads, with a `while` loop wherever the source
  loops.
- Each operation also takes a ghost argument `nodes`: the nodes reachable from the head,
  in order.
- `IsChain(head, nodes)` ties that sequence to the `next` links. It also makes the chain
  acyclic and null-terminated, which is what lets every traversal terminate.
- `Values(nodes)` is the sequence of values the list holds.

`AddFront`, `AddEnd` and `ToArray` are specified through `Values` and sequence
concatenation. `Remove` and `Find` are specified against value-level reference
functions in module `ValueSeq`:

- `IndexOf` gives the position of the first occurrence.
- `RemoveFirst` is the sequence with that occurrence deleted.

Frames are exact and field-granular:

- `AddEnd` may change only the old tail's `next`.
- `Remove` may change only the `next` of the node before the first match, and nothing at
  all when the match is the head or there is no match.
- `Find` and `ToArray` change nothing.

Files:

- `value_seq.dfy` holds module `ValueSeq`: the value-level reference functions and the
  lemmas about them.
- `linked_list.dfy` holds module `LinkedList`: the nodes and their constructor, the chain
  invariant, the five list operations and the walk-through.

## Model

| member | source | states |
|---|---|---|
| LinkedList.Node.constructor | linked_list.js:2-4 | the new node holds the given value and links to the given successor, or to `null` when none is given |
| LinkedList.AddFront | linked_list.js:6-8 | the new head is a fresh node holding the value and linking to the old head; the chain is the old chain with that node in front, so the values become `[v] + S`; no existing node changes |
| LinkedList.AddEnd | linked_list.js:10-20 | an empty list becomes one fresh node holding the value with no successor; otherwise the same head comes back and the chain is the old chain plus one fresh tail node that the old tail now links to; the values become `S + [v]`; only the old tail's `next` may change |
| LinkedList.Remove | linked_list.js:22-35 | an empty list gives `null`; a head match returns the old head's successor; otherwise the head stays; in every case the chain drops exactly the node at the first occurrence and the values become `RemoveFirst(S, v)`; only the `next` of that node's predecessor may change, so a head match and a miss mutate nothing |
| LinkedList.Unlink | linked_list.js:31-32 | rebinding `prev.next` past its successor drops that successor from the chain and its value from the values; the result is still a chain from the same head |
| LinkedList.Find | linked_list.js:37-46 | the result is `null` exactly when the value does not occur; otherwise it is the node at the first occurrence and holds the value; nothing changes |
| LinkedList.ToArray | linked_list.js:48-56 | the result is exactly the values of the chain in order, one per node; nothing changes, so repeated calls give the same result |
| LinkedList.ChainNoRepeat | linked_list.js:14-17 | a chain never visits a node twice, so every walk along `next` ends |
| LinkedList.ChainUnique | linked_list.js:50-54 | the nodes reachable from a head are unique, so the ghost chain adds no information beyond the head and the heap |
| LinkedList.DropHead | linked_list.js:24-25 | the nodes after the head are a chain from the head's successor, holding the values after the first |
| LinkedList.AppendedChain | linked_list.js:18 | linking the old tail to a new node with no successor extends the chain by that node |
| LinkedList.AppendedValues | linked_list.js:18 | the extended chain holds the old values followed by the new node's value |
| LinkedList.SplicedChain | linked_list.js:32 | once a node's `next` skips its successor, the remaining nodes are still a chain from the same head |
| LinkedList.DroppedValues | linked_list.js:32 | dropping one node from the chain drops exactly its value from the values, at the same position |
| ValueSeq.IndexOf | linked_list.js:39-45 | the position is at most the length; when it is inside the sequence the value is there, and no earlier position holds the value |
| ValueSeq.IndexOfAbsent | linked_list.js:45 | the search runs off the end if and only if the value does not occur |
| ValueSeq.Without | linked_list.js:32 | deleting an inside position makes the sequence one shorter, and putting the deleted element back at that position restores it; a position past the end leaves the sequence unchanged |
| ValueSeq.RemoveFirstSpec | linked_list.js:22-35 | `RemoveFirst` leaves the sequence unchanged if and only if the value is absent; otherwise the result is one shorter, holds no copy of the value before the deleted position, and gives back the original when the value is reinserted there, so other occurrences keep their order |
| ValueSeq.RemoveFirstMultiset | linked_list.js:22-35 | exactly one copy of the value goes, when there is one, and nothing else |
| ValueSeq.RemoveUndoesAddFront | linked_list.js:6-8 | removing a value just pushed on the front gives back the original values, whether or not the value also occurs further on |
| ValueSeq.IndexOfAppend | linked_list.js:10-20 | appending keeps the first occurrence of any value already present; a value not present before is found at the new tail exactly when it is the appended one |
| ValueSeq.RemoveFirstExample | linked_list.js:71-73 | deleting 2 from `[1, 2, 3, 4, 5]` gives `[1, 3, 4, 5]` |
| ValueSeq.RemoveHeadExample | linked_list.js:24-25 | deleting the head value 1 from `[1, 3, 4, 5]` gives `[3, 4, 5]` |
| LinkedList.BuildExample | linked_list.js:59-64 | pushing 3, 2 and 1 on the front of an empty list and then appending 4 and 5 gives a chain holding `[1, 2, 3, 4, 5]` |
| LinkedList.UsageExample | linked_list.js:66-73 | that list lists as `[1, 2, 3, 4, 5]`; finding 3 returns a node holding 3; after removing 2 it lists as `[1, 3, 4, 5]` |

## Left out

- Printing: the walk-through's three `console.log` calls (lines 66, 69, 73) are output only. `UsageExample` returns the values they would print.
- Value type: node values are `int`. JavaScript `===` on other kinds of value is not modelled. This covers strings, objects compared by identity, and `NaN`, which is never equal to itself.
- Malformed chains: every operation requires `IsChain`, an acyclic chain ending in `null`. On a cyclic chain `addEnd` and `toArray` never end, and `find` and `remove` end only if they meet the value; the model does not cover those inputs. None of the six functions creates a cycle from an acyclic chain (`AddFront`, `AddEnd` and `Remove` each ensure `IsChain` of their result), so only a caller who assigns `next` directly can build one.
- Extra ghost argument: each operation takes the ghost `nodes` argument, which the source's functions do not have. `ChainUnique` shows that it is determined by the head.
- Memory reclamation: nodes unlinked by `remove` stay allocated in the model. The removed node keeps its own `next`, exactly as in the source.
