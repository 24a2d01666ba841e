/** Callers of the list, proved from its contracts alone. */
module ListClient {
  import opened ListSpec
  import opened DataStructures

  /** Five appends on a default list grow it once, from 4 to 8 slots. */
  method FiveAppends() returns (l: List<int>)
    ensures fresh(l) && fresh(l.arr) && l.Valid()
    ensures l.Contents == [10, 20, 30, 40, 50] && l.Capacity() == 8
  {
    l := new List<int>(0);
    var o := l.Add(10);
    o := l.Add(20);
    o := l.Add(30);
    o := l.Add(40);
    assert l.Capacity() == 4;
    o := l.Add(50);
  }

  /** Continuing from `FiveAppends`, an insert, a removal by value and a trim
      leave five elements in five slots. */
  method GrowInsertRemoveTrim() returns (count: nat, capacity: nat, elements: seq<Result<int>>)
    ensures count == 5 && capacity == 5
    ensures elements == [Ok(10), Ok(20), Ok(99), Ok(40), Ok(50)]
  {
    var l := FiveAppends();
    ghost var before := l.Contents;
    var o := l.Insert(2, 99);
    assert l.Contents == before[..2] + [99] + before[2..];
    assert l.Contents == [10, 20, 99, 30, 40, 50];
    FirstIndexIsFirst(l.Contents, 30, 3);
    before := l.Contents;
    var removed := l.Remove(30);
    assert l.Contents == before[..3] + before[4..];
    l.TrimExcess();
    count, capacity := l.Count(), l.Capacity();
    elements := [l.Get(0), l.Get(1), l.Get(2), l.Get(3), l.Get(4)];
  }

  /** After `Clear` the next append lands at index 0. */
  method ClearThenAdd(l: List<int>) returns (first: Result<int>, count: nat)
    requires l.Valid() && l.Capacity() > 0
    modifies l, l.arr
    ensures first == Ok(1) && count == 1
  {
    l.Clear();
    var o := l.Add(1);
    first, count := l.Get(0), l.Count();
  }

  /** Inserting at `i` and then removing at `i` restores the list. With capacity 0
      both calls fail and nothing changes. */
  method InsertThenRemoveAt<T(==)>(l: List<T>, i: int, x: T)
    requires l.Valid() && 0 <= i <= l.Count()
    modifies l, l.arr
    ensures l.Valid() && l.Contents == old(l.Contents)
  {
    var o := l.Insert(i, x);
    o := l.RemoveAt(i);
    if old(l.arr.Length) > 0 {
      DeletedInserted(old(l.Contents), i, x);
    }
  }

  /** A list made with capacity 0 cannot take an element: doubling 0 gives 0, the
      store fails, and the count is left at 1 over an empty backing array. */
  method AddOnZeroCapacity() returns (r: Outcome, count: nat, capacity: nat)
    ensures r == Fail(IndexOutOfRange) && count == 1 && capacity == 0
  {
    var l := new List<int>.WithCapacity(0, 0);
    r := l.Add(7);
    count, capacity := l.count, l.arr.Length;
  }

  /** Popping an empty list fails on the array read, not with the list's own guard. */
  method PopOnEmpty() returns (r: Result<int>)
    ensures r == Err(IndexOutOfRange)
  {
    var l := new List<int>(0);
    r := l.Pop();
  }
}
