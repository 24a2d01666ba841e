# Growable list `List<T>` in Dafny

This project models the generic growable array `List<T>` of the `binstarjs03.DataStructures`
C# library. It also proves properties of that model. The list keeps a backing array and a count
of occupied slots. The first `count` slots hold the elements, in order. Every later slot holds
the element type's default value. Appending doubles the capacity when the list is full.
Inserting swaps the free slot leftward to the insertion point. Removing clears a slot and swaps
it rightward to the tail.

Files:

- `list.dfy`, module `DataStructures`: class `List<T>`. It holds the backing array `arr` (its
  length is the capacity), the counter `count`, and a ghost sequence `Contents` of the elements.
  `Valid()` is the object invariant. It says that `count <= arr.Length`, that
  `Contents == arr[..count]`, and that every slot from `count` on holds `Default`. Each public
  method states its result and the new `Contents` in terms of the old one. It also states when
  the backing array is kept, when it is replaced by a fresh one, and the new capacity. The private
  helpers `Resize`, `Relocate`, `ShiftEmptyItem` and `ShiftInsertItem` are methods with loops and
  loop invariants, as in the source.
- `list_spec.dfy`, module `ListSpec`: the sequence-level meaning of the operations (`Inserted`,
  `Deleted`, `FirstIndex`, and the two swap runs `MoveToEnd` and `MoveToFront`). It also has an
  independent recursive definition `RemoveFirst`. The lemmas relate these functions to each other:
  insert then delete is the identity (and the reverse), each swap run followed by a store or a
  clear gives the inserted or deleted contents, and `RemoveFirst` is
  "delete at the first index" and takes exactly one copy of the item out.
- `list_client.dfy`, module `ListClient`: callers proved from the contracts alone. It covers the
  append/grow/insert/remove/trim scenario, clear-then-add, insert-then-remove-at, and the two
  places where the code departs from its documented contract.

The element type's `default(T)` is the constant `Default`, which is passed to the constructor.
Backing arrays are allocated filled with it, so "unoccupied slots hold the default" can be stated.
Failures are values, not exceptions. `ArgumentOutOfRange` stands for the list's own index checks.
`IndexOutOfRange` stands for the runtime's array-bounds failure, in places where the list does
not check.

### Where the code differs from its documented contract

The model follows the code in both places below:

- **Growth from capacity 0.** `Add` and `Insert` grow to exactly `Capacity * 2`
  (`src/CS/List.cs:56`, `src/CS/List.cs:76`). A list built with capacity 0 therefore stays at 0,
  and the store into slot 0 fails.
  - In `Add`, the store is `_array[Count++] = item`. C# evaluates the index expression, including
    the `++`, before the bounds check. So the failed call leaves the count at 1 over an empty array,
    and the object invariant no longer holds. `DataStructures.List.Add` states this, and
    `ListClient.AddOnZeroCapacity` exhibits it.
  - In `Insert`, the store comes before `Count++`. The failure therefore leaves the list valid and
    its contents unchanged.
- **Pop on an empty list.** The guard `Count < 0` (`src/CS/List.cs:84`) can never hold. An empty
  pop fails on the read of slot -1 with the runtime's array-bounds error. It does not raise the
  `InvalidOperationException` documented at `src/CS/IList.cs:74`. `DataStructures.List.Pop` states
  this, and `ListClient.PopOnEmpty` exhibits it. The model has no unreachable branch for the guard,
  because `count` is a `nat`.

## Model

| member | source | states |
|---|---|---|
| `DataStructures.List.constructor` | src/CS/List.cs:13-16 | a valid empty list whose fresh backing array has 4 default-filled slots |
| `DataStructures.List.WithCapacity` | src/CS/List.cs:22-25 | a valid empty list whose fresh backing array has exactly `capacity` default-filled slots |
| `DataStructures.List.Get` | src/CS/List.cs:29-34 | `Ok(Contents[index])` exactly when `0 <= index < Count`, otherwise `Err(ArgumentOutOfRange)` |
| `DataStructures.List.Set` | src/CS/List.cs:35-40 | in range: only element `index` becomes `value`; out of range: `Fail(ArgumentOutOfRange)` and no change; the count and the backing array never change |
| `DataStructures.List.Count` | src/CS/List.cs:43-47 | the number of elements is the length of the contents |
| `DataStructures.List.Capacity` | src/CS/List.cs:49 | the capacity is the backing array's length and is never below the count |
| `DataStructures.List.Add` | src/CS/List.cs:51-58 | with capacity > 0, the contents become `old + [item]`; the array is kept when there was room; when full, a fresh array of twice the capacity holds the old elements in order; with capacity 0, `Fail(IndexOutOfRange)` with count 1 over an empty array and the invariant broken |
| `DataStructures.List.Clear` | src/CS/List.cs:60-65 | the contents become empty, the same backing array is kept, and every slot holds the default |
| `DataStructures.List.Insert` | src/CS/List.cs:67-80 | an index outside `0..Count` inclusive gives `Fail(ArgumentOutOfRange)` and no change; otherwise the contents become `old[..index] + [item] + old[index..]`, with the same growth rule as `Add`; with capacity 0, `Fail(IndexOutOfRange)` and the contents unchanged |
| `DataStructures.List.Pop` | src/CS/List.cs:82-91 | a non-empty list returns its last element, drops it, and clears its slot; an empty list gives `Err(IndexOutOfRange)` and no change; the backing array is kept |
| `DataStructures.List.Remove` | src/CS/List.cs:93-109 | returns true iff the item occurs; if so, the contents lose exactly the element at the item's first index; otherwise the contents and the whole array are unchanged; the capacity never changes |
| `DataStructures.List.RemoveAt` | src/CS/List.cs:111-118 | in range, the contents become `old[..index] + old[index+1..]`; out of range, `Fail(ArgumentOutOfRange)` and no change; the capacity never changes |
| `DataStructures.List.TrimExcess` | src/CS/List.cs:120-123 | a fresh backing array whose length equals the count, with the elements in order |
| `DataStructures.List.Resize` | src/CS/List.cs:125-129 | a fresh default-filled array of the new capacity with the same contents; the invariant is kept |
| `DataStructures.List.Relocate` | src/CS/List.cs:131-136 | the first `itemCount` slots of the new array equal the old array's; the rest of the new array is unchanged |
| `DataStructures.List.ShiftEmptyItem` | src/CS/List.cs:138-144 | the swap loop carries the slot at `emptyIndex` to the last occupied slot and moves the elements between one to the left |
| `DataStructures.List.ShiftInsertItem` | src/CS/List.cs:146-152 | the swap loop carries the free slot at `count` down to `insertionIndex` and moves the elements between one to the right; a full list is left unchanged |
| `ListSpec.Inserted` | src/CS/IList.cs:34-47 | the new element is at the index, earlier elements keep their places, and later ones are shifted right by one |
| `ListSpec.Deleted` | src/CS/IList.cs:63-68 | earlier elements keep their places, later ones are shifted left by one, and the length drops by one |
| `ListSpec.MoveToEnd` | src/CS/List.cs:138-144 | pointwise result of the rightward swap run |
| `ListSpec.MoveToFront` | src/CS/List.cs:146-152 | pointwise result of the leftward swap run |
| `ListSpec.FirstIndex` | src/CS/IList.cs:49-61 | an index holding the item with no occurrence before it |
| `ListSpec.RemoveFirst` | src/CS/IList.cs:49-61 | removing the first occurrence shortens the sequence by one exactly when the item occurs |
| `ListSpec.InsertedAtEnd` | src/CS/List.cs:71-73 | inserting at index `Count` is appending |
| `ListSpec.DeletedInserted` | src/CS/List.cs:111-118 | deleting at `i` after inserting at `i` restores the sequence |
| `ListSpec.InsertedDeleted` | src/CS/List.cs:111-118 | re-inserting the deleted element at `i` restores the sequence |
| `ListSpec.ClearAndMoveToEnd` | src/CS/List.cs:115-117 | clearing slot `i` and swapping it to the tail yields the deleted contents followed by the default, and the rest is untouched |
| `ListSpec.MoveToFrontAndFill` | src/CS/List.cs:77-78 | swapping the free slot to `i` and storing the item yields the inserted contents, and the rest is untouched |
| `ListSpec.FirstIndexIsFirst` | src/CS/List.cs:98-106 | the first match found by the scan is exactly `FirstIndex` |
| `ListSpec.RemoveFirstIsDeleteFirst` | src/CS/IList.cs:49-61 | when the item occurs, the recursive reference equals "delete at the first index" |
| `ListSpec.RemoveFirstAbsent` | src/CS/IList.cs:57-60 | when the item does not occur, removal leaves the sequence unchanged |
| `ListSpec.RemoveFirstMultiset` | src/CS/IList.cs:49-61 | removal takes exactly one copy of the item out of the multiset of elements, and none if it is absent |
| `ListClient.FiveAppends` | src/CS/List.cs:51-58 | five appends to a default list give `[10,20,30,40,50]` with capacity 8 |
| `ListClient.GrowInsertRemoveTrim` | src/CS/List.cs:67-123 | then `Insert(2,99)`, `Remove(30)` and `TrimExcess` give count 5, capacity 5, and the elements `10, 20, 99, 40, 50` read back by the indexer |
| `ListClient.ClearThenAdd` | src/CS/List.cs:60-65 | after `Clear`, an append lands at index 0 and the count is 1 |
| `ListClient.InsertThenRemoveAt` | src/CS/List.cs:111-118 | `Insert(i, x)` then `RemoveAt(i)` leaves the contents as they were, for any capacity, 0 included |
| `ListClient.AddOnZeroCapacity` | src/CS/List.cs:55-57 | an append to a capacity-0 list fails and leaves count 1 with capacity 0 |
| `ListClient.PopOnEmpty` | src/CS/List.cs:84-87 | popping an empty list fails with the array-bounds error, not the documented invalid-operation error |

## Left out

- The `item is null` checks (`src/CS/List.cs:53`, `src/CS/List.cs:69`, `src/CS/List.cs:95`) and their
  `ArgumentNullException` are not modelled. A Dafny type parameter has no null. For the same reason
  the model also omits the setter's acceptance of null and the null dereference that `Remove` would
  then hit.
- CLR `Equals` is not modelled. `Remove` compares with Dafny equality on `T(==)`.
- A negative constructor capacity is excluded by the type `nat`. The runtime would throw on the
  array allocation.
- 32-bit `int` overflow is not modelled, including `Capacity * 2` overflowing. Counts and
  capacities are unbounded naturals.
- .NET exception types are not modelled. Failures are the `Error` values described above. No
  operation of the code ever raises an invalid-operation error, so `Error` has no case for one.
- The list's state after a failed `Add` at capacity 0 is not modelled beyond that call's own
  contract. That state has count 1 over an empty backing array, and every method here requires the
  object invariant, which that state breaks. In the C# code such a list still takes calls:
  - `Count` reports 1.
  - Each further `Add` skips the resize, bumps the count again and fails on the store.
  - The indexer at index 0 passes the list's own check and fails with the array-bounds error.
  - `Clear`, `Pop`, `Remove`, `RemoveAt`, `Insert` and `TrimExcess` fail on their first array access.
- The amortised cost of doubling is a complexity claim, not functional behaviour, and is not
  modelled.
- `src/CS/IList.cs` declares the interface and has no code of its own. Its documented contracts
  are stated on the class methods and the `ListSpec` functions.
