# Ordered list of the RavenDB Node.js client, in Dafny

This project models `LinkedList<T>` and `LinkedListItem<T>` from
`src/Utility/LinkedList.ts` of the RavenDB Node.js client, and proves what
that small ordered-list utility promises its callers.

The TypeScript list is not a linked structure. A `LinkedList` owns a JavaScript
array `_items` of item handles. Every handle is created with a reference to
that same array and stores nothing but its value. Its `index` is recomputed on
every call by identity lookup (`indexOf(this)`), and its `first`, `last`,
`previous` and `next` are derived from that index against the array as it is
now. The model keeps this aliasing:

- `Backing` (module `LinkedLists`) is the shared array, an object with a field
  `items: seq<Item<T>>`. `addLast` and `addFirst` reassign that field in place
  (`push`, `unshift`), so every item created for the array sees the change.
- `Item` holds a mutable `value` and an immutable `backing` reference.
- `LinkedList` holds a mutable `backing` field. `Clear` rebinds it to a fresh
  `Backing` and leaves the old one untouched, so items created before the
  clear still see the old array, with the same indices and neighbours.
- `ArrayOps.IndexOf` is `Array.prototype.indexOf` with strict equality, which
  is identity for objects. `ArrayOps.IndexOfAppend` and
  `ArrayOps.IndexOfPrepend` say how `push` and `unshift` move the positions it
  reports.

The invariant `Backing.Valid()` says that every item in the array refers back
to that array and that no item occurs twice. The list's constructor
establishes it, and `AddLast`, `AddFirst` and `Clear` keep it.
Under it, identity lookup equals position (`Item.Index`), and the neighbour
queries are mutually inverse (`NextOfPrevious`, `PreviousOfNext`).

The item getters `first` and `last` return booleans in the source. They are
modelled as the predicates `Item.IsFirst` and `Item.IsLast`; the list's
`first` and `last` return items and are `LinkedList.First` and
`LinkedList.Last`. The list's `count` getter is `LinkedList.Count`, the
length of the current array, which under the invariant is also the number of
distinct items the list holds. `LinkedList.Values` (ghost) lists the item values in
position order.

## Model

| member | source | states |
|---|---|---|
| `ArrayOps.IndexOf` | src/Utility/LinkedList.ts:10-12 | the result is -1 exactly when the element is absent; otherwise the element stands there and nowhere before it |
| `ArrayOps.IndexOfFirstOccurrence` | src/Utility/LinkedList.ts:10-12 | the first occurrence of an element is the position that identity lookup reports |
| `ArrayOps.IndexOfDistinct` | src/Utility/LinkedList.ts:10-12 | in a sequence without repetitions, identity lookup of the element at position k gives k |
| `ArrayOps.DistinctCardinality` | src/Utility/LinkedList.ts:51-53 | a sequence without repetitions has exactly as many distinct elements as positions |
| `ArrayOps.IndexOfAppend` | src/Utility/LinkedList.ts:79-85 | after a push, every earlier element keeps its index, the pushed one gets the old length, others stay -1 |
| `ArrayOps.IndexOfPrepend` | src/Utility/LinkedList.ts:87-93 | after an unshift, the new element has index 0 and every earlier element's index grows by one |
| `LinkedLists.Backing.constructor` | src/Utility/LinkedList.ts:96 | a new array literal is empty |
| `LinkedLists.Item.constructor` | src/Utility/LinkedList.ts:42-45 | a new item holds the given value and refers to the given array |
| `LinkedLists.Item.SetValue` | src/Utility/LinkedList.ts:6-8 | the item's value becomes the new one; the array and the item's index do not change |
| `LinkedLists.Item.Index` | src/Utility/LinkedList.ts:10-12 | -1 exactly when the item is not in its array; under the array invariant, the index is k exactly when the item is at position k |
| `LinkedLists.Item.IsFirst` | src/Utility/LinkedList.ts:14-18 | true exactly when the item is absent from its array or stands at its head |
| `LinkedLists.Item.IsLast` | src/Utility/LinkedList.ts:20-24 | true exactly when the item occurs nowhere before the last position (so also when the array is empty or the item absent) |
| `LinkedLists.Item.Previous` | src/Utility/LinkedList.ts:26-32 | null exactly when `first` holds; under the invariant, the item at position k has as previous null for k = 0 and the item at k-1 otherwise |
| `LinkedLists.Item.Next` | src/Utility/LinkedList.ts:34-40 | null exactly when `last` holds; under the invariant, the item at position k has as next null for the final position and the item at k+1 otherwise |
| `LinkedLists.NextOfPrevious` | src/Utility/LinkedList.ts:26-40 | under the invariant, whenever an item has a previous one, that one shares the array and its next is the item again |
| `LinkedLists.PreviousOfNext` | src/Utility/LinkedList.ts:26-40 | under the invariant, whenever an item has a next one, that one shares the array and its previous is the item again |
| `LinkedLists.LinkedList.Count` | src/Utility/LinkedList.ts:51-53 | the length of the list's current array: one per item value and, under the invariant, the number of distinct items the list holds |
| `LinkedLists.LinkedList.First` | src/Utility/LinkedList.ts:55-61 | null exactly when the count is 0; otherwise the item at position 0, whose index is 0 and whose previous is null |
| `LinkedLists.LinkedList.Last` | src/Utility/LinkedList.ts:63-69 | null exactly when the count is 0; otherwise the item at position count-1, whose index is count-1 and whose next is null |
| `LinkedLists.LinkedList.constructor` | src/Utility/LinkedList.ts:71-77 | the list owns a fresh array of fresh items, the invariant holds, the count is the input's length and the values are the input in order |
| `LinkedLists.LinkedList.AddLast` | src/Utility/LinkedList.ts:79-85 | returns the same list; the count grows by one; the earlier items stay in place with unchanged indices; a fresh item for the same array holding the value is last; the invariant is kept |
| `LinkedLists.LinkedList.AddFirst` | src/Utility/LinkedList.ts:87-93 | returns the same list; the count grows by one; a fresh item holding the value is first with index 0; every earlier item's index grows by exactly one; the invariant is kept |
| `LinkedLists.LinkedList.Clear` | src/Utility/LinkedList.ts:95-99 | returns the same list, now on a fresh empty array (count 0, first and last null); the old array keeps its items, which still refer to it and keep their indices |
| `LinkedLists.LinkedList.Each` | src/Utility/LinkedList.ts:101-103 | the iteratee receives exactly the list's items, one call each, in position order |
| `LinkedLists.AddLastThenAddFirst` | src/Utility/LinkedList.ts:79-93 | after `addLast(a)` then `addFirst(b)` on a new list: values are `[b, a]`, first holds b with index 0 and no previous, last holds a with no next |

## Left out

- `LinkedLists.LinkedList.Each`: the iteratee's own effects are not modelled. The method returns the sequence of items the iteratee would be called with. A callback that changes the list while `forEach` runs is not covered.
- `src/Http/Response/IResponse.ts` declares interfaces with untyped fields and no behaviour. It is not part of this model.
- `test/raven_command_tests/DeleteCommandTest.ts` drives commands through a live store. The command and request-executor sources it uses are not part of this model, and nor are request dispatch, failover, HTTP transport or asynchronous execution.
- JavaScript numbers are modelled as unbounded integers. List lengths never approach the range where that matters.
- The item constructor is public in the source and accepts any array. The model allows the same. `Backing.Valid()` is established by the list's constructor and kept by `AddLast`, `AddFirst` and `Clear`. Nothing guarantees it for arrays built by hand with the public item constructor.
- `LinkedLists.LinkedList.constructor`: the source's default argument (`items: T[] = []`, line 71) is not modelled. The values are a required parameter, and a caller passes `[]` for an empty list. No behaviour is lost.

## Notes

- `clear()` does not invalidate existing item handles. Line 96 rebinds the list's field to a new array, and older items keep their reference to the old array, which nobody changes any more. `Clear` ensures the old array and the old items' indices are unchanged, so their `previous` and `next` keep working on the old array.
