/** The growable array `List<T>`: a backing array, a count of occupied slots,
    doubling growth, and swap-based shifting for insertion and removal. */
module DataStructures {
  import opened ListSpec

  /** Failures the list reports. `ArgumentOutOfRange` is the list's own index check;
      `IndexOutOfRange` is the runtime's array-bounds failure, reached where the list
      has no check of its own. */
  datatype Error = ArgumentOutOfRange | IndexOutOfRange

  datatype Result<T> = Ok(value: T) | Err(error: Error)

  datatype Outcome = Pass | Fail(error: Error)

  class List<T(==)> {
    /** The element type's default value, which fills every unoccupied slot. */
    const Default: T
    /** The backing array; its length is the capacity. */
    var arr: array<T>
    /** The number of occupied slots, which are `arr[..count]`. */
    var count: nat
    /** The elements of the list, first to last. */
    ghost var Contents: seq<T>

    /** Object invariant: the occupied slots are a prefix of the backing array
        holding the contents, and every slot after them holds the default value. */
    ghost predicate Valid()
      reads this, arr
    {
      count <= arr.Length &&
      Contents == arr[..count] &&
      forall k :: count <= k < arr.Length ==> arr[k] == Default
    }

    /** An empty list with the default capacity of 4. */
    constructor (dflt: T)
      ensures Valid() && fresh(arr)
      ensures Contents == [] && arr.Length == 4 && Default == dflt
    {
      Default := dflt;
      arr := new T[4](_ => dflt);
      count := 0;
      Contents := [];
    }

    /** An empty list with the given capacity. */
    constructor WithCapacity(capacity: nat, dflt: T)
      ensures Valid() && fresh(arr)
      ensures Contents == [] && arr.Length == capacity && Default == dflt
    {
      Default := dflt;
      arr := new T[capacity](_ => dflt);
      count := 0;
      Contents := [];
    }

    /** Indexer read: only occupied positions are addressable. */
    function Get(index: int): (r: Result<T>)
      reads this, arr
      requires Valid()
      ensures 0 <= index < |Contents| ==> r == Ok(Contents[index])
      ensures !(0 <= index < |Contents|) ==> r == Err(ArgumentOutOfRange)
    {
      if index >= count || index < 0 then Err(ArgumentOutOfRange) else Ok(arr[index])
    }

    /** Indexer write: replaces exactly one element, never resizes. */
    method Set(index: int, value: T) returns (r: Outcome)
      requires Valid()
      modifies this, arr
      ensures Valid() && arr == old(arr) && count == old(count)
      ensures 0 <= index < |old(Contents)| ==> r == Pass && Contents == old(Contents)[index := value]
      ensures !(0 <= index < |old(Contents)|) ==> r == Fail(ArgumentOutOfRange) && Contents == old(Contents)
    {
      if index >= count || index < 0 {
        return Fail(ArgumentOutOfRange);
      }
      arr[index] := value;
      Contents := Contents[index := value];
      r := Pass;
    }

    /** The number of elements. */
    function Count(): (n: nat)
      reads this, arr
      requires Valid()
      ensures n == |Contents|
    {
      count
    }

    /** The length of the backing array, never below the number of elements. */
    function Capacity(): (c: nat)
      reads this, arr
      requires Valid()
      ensures c >= Count() && c == arr.Length
    {
      arr.Length
    }

    /** Appends `item`, doubling the capacity first when the list is full.
        With capacity 0 the doubled capacity is still 0: the write fails, and since
        the count is bumped before the store, the list is left with count 1 over
        an empty array. */
    method Add(item: T) returns (r: Outcome)
      requires Valid()
      modifies this, arr
      ensures old(arr.Length) > 0 ==> r == Pass && Valid() && Contents == old(Contents) + [item]
      ensures old(count) < old(arr.Length) ==> arr == old(arr)
      ensures old(count) == old(arr.Length) ==> fresh(arr) && arr.Length == 2 * old(arr.Length)
      ensures old(arr.Length) == 0 ==>
                r == Fail(IndexOutOfRange) && Contents == old(Contents)
                && count == 1 && arr.Length == 0 && !Valid()
    {
      if arr.Length == count {
        Resize(arr.Length * 2, count);
      }
      if count >= arr.Length {
        count := count + 1;
        return Fail(IndexOutOfRange);
      }
      arr[count] := item;
      count := count + 1;
      Contents := Contents + [item];
      r := Pass;
    }

    /** Empties the list, resetting every occupied slot; the capacity stays. */
    method Clear()
      requires Valid()
      modifies this, arr
      ensures Valid() && arr == old(arr) && Contents == []
      ensures forall k :: 0 <= k < arr.Length ==> arr[k] == Default
    {
      var i := 0;
      while i < count
        invariant arr == old(arr) && 0 <= i <= count <= arr.Length
        invariant forall k :: 0 <= k < i ==> arr[k] == Default
        invariant forall k :: count <= k < arr.Length ==> arr[k] == Default
      {
        arr[i] := Default;
        i := i + 1;
      }
      count := 0;
      Contents := [];
    }

    /** Inserts `item` at `index`, for any `index` from 0 up to and including the count.
        Grows as `Add` does; with capacity 0 the write of `item` fails, but here
        before the count changes, so the list stays valid and unchanged. */
    method Insert(index: int, item: T) returns (r: Outcome)
      requires Valid()
      modifies this, arr
      ensures Valid()
      ensures !(0 <= index <= |old(Contents)|) ==>
                r == Fail(ArgumentOutOfRange) && Contents == old(Contents) && arr == old(arr)
      ensures 0 <= index <= |old(Contents)| && old(arr.Length) > 0 ==>
                r == Pass && Contents == Inserted(old(Contents), index, item)
      ensures 0 <= index <= |old(Contents)| && old(count) < old(arr.Length) ==> arr == old(arr)
      ensures 0 <= index <= |old(Contents)| && old(count) == old(arr.Length) ==>
                fresh(arr) && arr.Length == 2 * old(arr.Length)
      ensures 0 <= index <= |old(Contents)| && old(arr.Length) == 0 ==>
                r == Fail(IndexOutOfRange) && Contents == old(Contents)
    {
      if index > count || index < 0 {
        return Fail(ArgumentOutOfRange);
      }
      if arr.Length == count {
        Resize(arr.Length * 2, count);
      }
      ghost var s := arr[..];
      ShiftInsertItem(index);
      if index >= arr.Length {
        return Fail(IndexOutOfRange);
      }
      arr[index] := item;
      MoveToFrontAndFill(s, index, count, item);
      assert arr[..] == MoveToFront(s, index, count)[index := item];
      assert s[..count] == Contents;
      count := count + 1;
      Contents := Inserted(Contents, index, item);
      assert arr[..][count..] == s[count..];
      r := Pass;
    }

    /** Removes and returns the last element. An empty list is not rejected up
        front: computing slot `count - 1` gives -1, and reading it fails. */
    method Pop() returns (r: Result<T>)
      requires Valid()
      modifies this, arr
      ensures Valid() && arr == old(arr)
      ensures old(count) > 0 ==>
                r == Ok(old(Contents)[old(count) - 1]) && Contents == old(Contents)[..old(count) - 1]
                && arr[old(count) - 1] == Default
      ensures old(count) == 0 ==> r == Err(IndexOutOfRange) && Contents == old(Contents)
    {
      var index := count - 1;
      if index < 0 {
        return Err(IndexOutOfRange);
      }
      r := Ok(arr[index]);
      arr[index] := Default;
      count := count - 1;
      Contents := Contents[..index];
    }

    /** Removes the first element equal to `item`; reports whether there was one. */
    method Remove(item: T) returns (removed: bool)
      requires Valid()
      modifies this, arr
      ensures Valid() && arr == old(arr)
      ensures removed <==> item in old(Contents)
      ensures removed ==> Contents == Deleted(old(Contents), FirstIndex(old(Contents), item))
      ensures !removed ==> Contents == old(Contents) && arr[..] == old(arr[..])
    {
      removed := false;
      var index := 0;
      while index < count
        invariant 0 <= index <= count
        invariant Valid() && arr == old(arr) && Contents == old(Contents) && arr[..] == old(arr[..])
        invariant item !in Contents[..index]
      {
        if arr[index] == item {
          FirstIndexIsFirst(Contents, item, index);
          ghost var s := arr[..];
          arr[index] := Default;
          removed := true;
          ShiftEmptyItem(index);
          ClearAndMoveToEnd(s, index, count - 1, Default);
          count := count - 1;
          Contents := Deleted(Contents, index);
          break;
        }
        index := index + 1;
      }
    }

    /** Removes the element at `index`, which must be an occupied position. */
    method RemoveAt(index: int) returns (r: Outcome)
      requires Valid()
      modifies this, arr
      ensures Valid() && arr == old(arr)
      ensures 0 <= index < |old(Contents)| ==> r == Pass && Contents == Deleted(old(Contents), index)
      ensures !(0 <= index < |old(Contents)|) ==> r == Fail(ArgumentOutOfRange) && Contents == old(Contents)
    {
      if index >= count || index < 0 {
        return Fail(ArgumentOutOfRange);
      }
      ghost var s := arr[..];
      arr[index] := Default;
      ShiftEmptyItem(index);
      ClearAndMoveToEnd(s, index, count - 1, Default);
      count := count - 1;
      Contents := Deleted(Contents, index);
      r := Pass;
    }

    /** Shrinks the backing array to exactly the elements held. */
    method TrimExcess()
      requires Valid()
      modifies this
      ensures Valid() && fresh(arr) && arr.Length == |Contents| && Contents == old(Contents)
    {
      Resize(count, count);
    }

    /** Replaces the backing array by a fresh, default-filled one of `newCapacity`
        slots holding the same elements. */
    method Resize(newCapacity: nat, oldItemCount: nat)
      requires Valid() && oldItemCount == count <= newCapacity
      modifies this
      ensures Valid() && fresh(arr) && arr.Length == newCapacity
      ensures Contents == old(Contents) && count == old(count)
    {
      var dflt := Default;
      var newArray := new T[newCapacity](_ => dflt);
      arr := Relocate(newArray, arr, oldItemCount);
    }

    /** Copies the first `itemCount` elements of `oldArray` into `newArray`, in order. */
    static method Relocate(newArray: array<T>, oldArray: array<T>, itemCount: nat) returns (r: array<T>)
      requires itemCount <= newArray.Length && itemCount <= oldArray.Length
      requires newArray != oldArray
      modifies newArray
      ensures r == newArray
      ensures r[..itemCount] == oldArray[..itemCount]
      ensures r[itemCount..] == old(newArray[itemCount..])
    {
      var i := 0;
      while i < itemCount
        invariant 0 <= i <= itemCount
        invariant forall k :: 0 <= k < i ==> newArray[k] == oldArray[k]
        invariant forall k :: itemCount <= k < newArray.Length ==> newArray[k] == old(newArray[k])
      {
        newArray[i] := oldArray[i];
        i := i + 1;
      }
      return newArray;
    }

    /** Moves the slot at `emptyIndex` right to the last occupied position by
        adjacent swaps, shifting the elements after it one to the left. */
    method ShiftEmptyItem(emptyIndex: nat)
      requires emptyIndex < count <= arr.Length
      modifies arr
      ensures arr[..] == MoveToEnd(old(arr[..]), emptyIndex, count - 1)
    {
      var tailPos := count - 1;
      var index := emptyIndex;
      while index < tailPos
        invariant emptyIndex <= index <= tailPos
        invariant forall k :: 0 <= k < emptyIndex ==> arr[k] == old(arr[k])
        invariant forall k :: emptyIndex <= k < index ==> arr[k] == old(arr[k + 1])
        invariant arr[index] == old(arr[emptyIndex])
        invariant forall k :: index < k < arr.Length ==> arr[k] == old(arr[k])
      {
        arr[index], arr[index + 1] := arr[index + 1], arr[index];
        index := index + 1;
      }
    }

    /** Moves the free slot at `count` left to `insertionIndex` by adjacent swaps,
        shifting the elements from `insertionIndex` on one to the right. When the
        list is full the loop runs only if `insertionIndex < count`, which the
        requires rules out. */
    method ShiftInsertItem(insertionIndex: nat)
      requires insertionIndex <= count <= arr.Length
      requires insertionIndex < count ==> count < arr.Length
      modifies arr
      ensures count < arr.Length ==> arr[..] == MoveToFront(old(arr[..]), insertionIndex, count)
      ensures count == arr.Length ==> arr[..] == old(arr[..])
    {
      var emptyIndex := count;
      var index := emptyIndex;
      while index > insertionIndex
        invariant insertionIndex <= index <= emptyIndex
        invariant forall k :: 0 <= k < index ==> arr[k] == old(arr[k])
        invariant index < arr.Length ==> arr[index] == old(arr[emptyIndex])
        invariant forall k :: index < k <= emptyIndex && k < arr.Length ==> arr[k] == old(arr[k - 1])
        invariant forall k :: emptyIndex < k < arr.Length ==> arr[k] == old(arr[k])
      {
        arr[index], arr[index - 1] := arr[index - 1], arr[index];
        index := index - 1;
      }
    }
  }
}
