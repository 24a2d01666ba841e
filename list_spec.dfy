/** Sequence-level meaning of the operations of the growable list.
    The class in module DataStructures is proved against these functions;
    the lemmas here state what the list promises across several calls. */
module ListSpec {

  /** `s` with `x` placed at position `i`; everything from `i` on moves one to the right. */
  function Inserted<T>(s: seq<T>, i: nat, x: T): (r: seq<T>)
    requires i <= |s|
    ensures |r| == |s| + 1 && r[i] == x
    ensures forall k :: 0 <= k < i ==> r[k] == s[k]
    ensures forall k :: i < k < |r| ==> r[k] == s[k - 1]
  {
    s[..i] + [x] + s[i..]
  }

  /** `s` without the element at position `i`; everything after it moves one to the left. */
  function Deleted<T>(s: seq<T>, i: nat): (r: seq<T>)
    requires i < |s|
    ensures |r| == |s| - 1
    ensures forall k :: 0 <= k < i ==> r[k] == s[k]
    ensures forall k :: i <= k < |r| ==> r[k] == s[k + 1]
  {
    s[..i] + s[i + 1..]
  }

  /** The element at `lo` travels right to `hi`; those in between move one to the left.
      This is what a run of adjacent swaps from `lo` up to `hi` does. */
  function MoveToEnd<T>(s: seq<T>, lo: nat, hi: nat): (r: seq<T>)
    requires lo <= hi < |s|
    ensures |r| == |s| && r[hi] == s[lo]
    ensures forall k :: 0 <= k < lo ==> r[k] == s[k]
    ensures forall k :: lo <= k < hi ==> r[k] == s[k + 1]
    ensures forall k :: hi < k < |s| ==> r[k] == s[k]
  {
    s[..lo] + s[lo + 1..hi + 1] + [s[lo]] + s[hi + 1..]
  }

  /** The element at `hi` travels left to `lo`; those in between move one to the right.
      This is what a run of adjacent swaps from `hi` down to `lo` does. */
  function MoveToFront<T>(s: seq<T>, lo: nat, hi: nat): (r: seq<T>)
    requires lo <= hi < |s|
    ensures |r| == |s| && r[lo] == s[hi]
    ensures forall k :: 0 <= k < lo ==> r[k] == s[k]
    ensures forall k :: lo < k <= hi ==> r[k] == s[k - 1]
    ensures forall k :: hi < k < |s| ==> r[k] == s[k]
  {
    s[..lo] + [s[hi]] + s[lo..hi] + s[hi + 1..]
  }

  /** Position of the first occurrence of `x` in `s`. */
  function FirstIndex<T(==)>(s: seq<T>, x: T): (k: nat)
    requires x in s
    ensures k < |s| && s[k] == x && x !in s[..k]
  {
    if s[0] == x then 0
    else
      var k' := FirstIndex(s[1..], x);
      assert s[..k' + 1] == [s[0]] + s[1..][..k'];
      1 + k'
  }

  /** Reference definition of "remove the first occurrence of `x`", by recursion on `s`. */
  function RemoveFirst<T(==)>(s: seq<T>, x: T): (r: seq<T>)
    ensures |r| == if x in s then |s| - 1 else |s|
  {
    if s == [] then []
    else if s[0] == x then s[1..]
    else
      assert x in s <==> x in s[1..];
      [s[0]] + RemoveFirst(s[1..], x)
  }

  /** Inserting at the end is appending. */
  lemma InsertedAtEnd<T>(s: seq<T>, x: T)
    ensures Inserted(s, |s|, x) == s + [x]
  {
  }

  /** Deleting what was just inserted at `i` gives back the original sequence. */
  lemma DeletedInserted<T>(s: seq<T>, i: nat, x: T)
    requires i <= |s|
    ensures Deleted(Inserted(s, i, x), i) == s
  {
  }

  /** Re-inserting the element deleted at `i` gives back the original sequence. */
  lemma InsertedDeleted<T>(s: seq<T>, i: nat)
    requires i < |s|
    ensures Inserted(Deleted(s, i), i, s[i]) == s
  {
  }

  /** Clearing slot `lo` and swapping it right to `hi` deletes the element at `lo`
      from `s[..hi + 1]` and leaves the cleared value at `hi`. */
  lemma ClearAndMoveToEnd<T>(s: seq<T>, lo: nat, hi: nat, d: T)
    requires lo <= hi < |s|
    ensures MoveToEnd(s[lo := d], lo, hi)[..hi] == Deleted(s[..hi + 1], lo)
    ensures MoveToEnd(s[lo := d], lo, hi)[hi] == d
    ensures MoveToEnd(s[lo := d], lo, hi)[hi + 1..] == s[hi + 1..]
  {
  }

  /** Swapping the free slot at `hi` left to `lo` and writing `x` there inserts `x`
      into `s[..hi]` at `lo`. */
  lemma MoveToFrontAndFill<T>(s: seq<T>, lo: nat, hi: nat, x: T)
    requires lo <= hi < |s|
    ensures MoveToFront(s, lo, hi)[lo := x][..hi + 1] == Inserted(s[..hi], lo, x)
    ensures MoveToFront(s, lo, hi)[lo := x][hi + 1..] == s[hi + 1..]
  {
  }

  /** The first occurrence is characterised by being an occurrence with none before it. */
  lemma FirstIndexIsFirst<T>(s: seq<T>, x: T, k: nat)
    requires k < |s|
    ensures (s[k] == x && x !in s[..k]) <==> (x in s && FirstIndex(s, x) == k)
  {
  }

  /** The recursive reference definition agrees with "delete at the first index". */
  lemma {:induction false} RemoveFirstIsDeleteFirst<T>(s: seq<T>, x: T)
    requires x in s
    ensures RemoveFirst(s, x) == Deleted(s, FirstIndex(s, x))
  {
    if s[0] != x {
      assert x in s[1..];
      RemoveFirstIsDeleteFirst(s[1..], x);
      var k := FirstIndex(s[1..], x);
      assert s[..k + 1] == [s[0]] + s[1..][..k];
      assert s[k + 2..] == s[1..][k + 1..];
    }
  }

  /** Without an occurrence, removal leaves the sequence as it is. */
  lemma {:induction false} RemoveFirstAbsent<T>(s: seq<T>, x: T)
    requires x !in s
    ensures RemoveFirst(s, x) == s
  {
    if s != [] {
      assert x !in s[1..];
      RemoveFirstAbsent(s[1..], x);
      assert s == [s[0]] + s[1..];
    }
  }

  /** Removing the first occurrence takes exactly one copy of `x` out of the multiset,
      and nothing out when there is none. */
  lemma {:induction false} RemoveFirstMultiset<T>(s: seq<T>, x: T)
    ensures multiset(RemoveFirst(s, x)) == multiset(s) - multiset{x}
  {
    if s != [] {
      assert s == [s[0]] + s[1..];
      if s[0] != x {
        RemoveFirstMultiset(s[1..], x);
      }
    }
  }
}
