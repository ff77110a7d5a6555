/** The sift-up and sift-down loops of oxf::heap with their position
    updates exactly as written (Heap.hpp:53-88), next to the standard mapping
    in HeapOrder. The comparison index of the sift-up loop is the parent; the
    updates that follow each swap are not, so both loops can leave a sequence
    that is not heap-ordered, and the sift-up loop can index past the end. */
module HeapAsWritten {
  import opened Outcomes
  import opened HeapOrder

  /** The index compared with pos in the sift-up loop: (pos >> 1) - (pos % 2 == 0). */
  function CompareIndex(pos: nat): (q: nat)
    requires pos >= 1
  {
    pos / 2 - (if pos % 2 == 0 then 1 else 0)
  }

  /** The comparison index is the parent under the standard mapping. */
  lemma CompareIndexIsParent(pos: nat)
    requires pos >= 1
    ensures CompareIndex(pos) == Parent(pos)
  {
  }

  lemma CompareIndexValues()
    ensures CompareIndex(1) == 0 && CompareIndex(5) == 2
  {
  }

  /** The position update after a swap in the sift-up loop: pos >>= 1, then
      decrement when even, in size_t arithmetic. */
  function NextPos(pos: nat): nat {
    var half := pos / 2;
    if half % 2 == 0 then (if half == 0 then SizeMax else half - 1) else half
  }

  /** The update is not the parent: 1 wraps to SIZE_MAX, 2 goes to 1 instead
      of 0, 5 goes to 1 instead of 2. */
  lemma NextPosIsNotParent()
    ensures NextPos(1) == SizeMax && Parent(1) == 0
    ensures NextPos(2) == 1 && Parent(2) == 0
    ensures NextPos(5) == 1 && Parent(5) == 2
  {
  }

  /** The sift-up loop as written, from position pos. None when it reads an
      index outside the sequence (undefined behaviour in the source). */
  function SiftUp<T>(s: seq<T>, pos: nat, cond: (T, T) -> bool): (r: Option<seq<T>>)
    requires |s| <= SizeMax
    ensures r.Some? ==> multiset(r.value) == multiset(s)
    decreases if pos < |s| then pos else 0
  {
    if pos == 0 then Some(s)
    else if pos >= |s| then None
    else
      var q := CompareIndex(pos);
      if cond(s[pos], s[q]) then
        SwappedContents(s, pos, q);
        SiftUp(Swapped(s, pos, q), NextPos(pos), cond)
      else Some(s)
  }

  /** push as written: append, then the sift-up loop from the last position. */
  function PushAsWritten<T>(s: seq<T>, x: T, cond: (T, T) -> bool): (r: Option<seq<T>>)
    requires |s| < SizeMax
    ensures r.Some? ==> multiset(r.value) == multiset(s) + multiset{x}
  {
    SiftUp(s + [x], |s|, cond)
  }

  /** Pushing 5 and then 3 under the default comparator swaps them and then
      compares at index SIZE_MAX. */
  lemma PushReadsPastEnd()
    ensures PushAsWritten([5], 3, Less) == None
  {
    CompareIndexValues();
    NextPosIsNotParent();
    assert [5] + [3] == [5, 3];
    var s: seq<int> := [5, 3];
    assert Less(s[1], s[0]);
    var t := Swapped(s, 1, 0);
    assert t == [3, 5];
    assert SiftUp(s, 1, Less) == SiftUp(t, SizeMax, Less);
  }

  /** [2, 3, 4, 5, 6] is a min-heap. */
  lemma SmallMinHeap()
    ensures HeapOrdered([2, 3, 4, 5, 6], Less)
  {
    var s: seq<int> := [2, 3, 4, 5, 6];
    forall i | 0 < i < |s|
      ensures !Less(s[i], s[Parent(i)])
    {
      assert Parent(i) < i;
    }
  }

  /** Pushing 1 onto the min-heap [2, 3, 4, 5, 6] stops with 1 below the root. */
  lemma PushLeavesDisorder()
    ensures HeapOrdered([2, 3, 4, 5, 6], Less)
    ensures PushAsWritten([2, 3, 4, 5, 6], 1, Less) == Some([2, 3, 1, 5, 6, 4])
    ensures !HeapOrdered([2, 3, 1, 5, 6, 4], Less)
  {
    SmallMinHeap();
    CompareIndexValues();
    NextPosIsNotParent();
    var s: seq<int> := [2, 3, 4, 5, 6, 1];
    assert [2, 3, 4, 5, 6] + [1] == s;
    assert Less(s[5], s[2]);
    var t := Swapped(s, 5, 2);
    assert t == [2, 3, 1, 5, 6, 4];
    assert SiftUp(s, 5, Less) == SiftUp(t, 1, Less);
    assert !Less(t[1], t[0]);
    assert SiftUp(t, 1, Less) == Some(t);
    assert Parent(2) == 0 && Less(t[2], t[Parent(2)]);
  }

  /** The closing single-child compare of the sift-down loop (Heap.hpp:87). */
  function LastCompare<T>(s: seq<T>, pos: nat, cond: (T, T) -> bool): (r: seq<T>)
    ensures |r| == |s|
  {
    if pos < |s| && cond(s[pos], s[pos / 2]) then Swapped(s, pos, pos / 2) else s
  }

  /** The sift-down loop as written (Heap.hpp:83-86) from left child pos:
      the parent is pos >> 1 and the next position 2 * pos + (pos + 1 == child). */
  function SiftDown<T>(s: seq<T>, pos: nat, cond: (T, T) -> bool): (r: seq<T>)
    requires pos >= 1
    ensures |r| == |s|
    decreases if pos < |s| then |s| - pos else 0
  {
    if pos + 1 < |s| then
      var child := if cond(s[pos], s[pos + 1]) then pos else pos + 1;
      if cond(s[child], s[pos / 2]) then
        SiftDown(Swapped(s, child, pos / 2), 2 * pos + (if pos + 1 == child then 1 else 0), cond)
      else LastCompare(s, pos, cond)
    else LastCompare(s, pos, cond)
  }

  /** pop as written on a non-empty heap: swap the root with the last item,
      drop the last item, run the sift-down loop from position 1. */
  function PopAsWritten<T>(s: seq<T>, cond: (T, T) -> bool): (r: seq<T>)
    requires |s| > 0
    ensures |r| == |s| - 1
  {
    SiftDown(Swapped(s, 0, |s| - 1)[..|s| - 1], 1, cond)
  }

  /** The closing compare only exchanges items. */
  lemma LastCompareContents<T>(s: seq<T>, pos: nat, cond: (T, T) -> bool)
    ensures multiset(LastCompare(s, pos, cond)) == multiset(s)
  {
    if pos < |s| && cond(s[pos], s[pos / 2]) {
      SwappedContents(s, pos, pos / 2);
    }
  }

  /** The sift-down loop as written only exchanges items. */
  lemma {:induction false} SiftDownContents<T>(s: seq<T>, pos: nat, cond: (T, T) -> bool)
    requires pos >= 1
    ensures multiset(SiftDown(s, pos, cond)) == multiset(s)
    decreases if pos < |s| then |s| - pos else 0
  {
    if pos + 1 < |s| {
      var child := if cond(s[pos], s[pos + 1]) then pos else pos + 1;
      var q := pos / 2;
      if cond(s[child], s[q]) {
        var next := 2 * pos + (if pos + 1 == child then 1 else 0);
        var t := Swapped(s, child, q);
        assert SiftDown(s, pos, cond) == SiftDown(t, next, cond);
        SwappedContents(s, child, q);
        SiftDownContents(t, next, cond);
      } else {
        LastCompareContents(s, pos, cond);
      }
    } else {
      LastCompareContents(s, pos, cond);
    }
  }

  /** pop as written removes exactly the old root: its defect is order only. */
  lemma PopAsWrittenContents<T>(s: seq<T>, cond: (T, T) -> bool)
    requires |s| > 0
    ensures multiset(PopAsWritten(s, cond)) == multiset(s) - multiset{s[0]}
  {
    var t := Swapped(s, 0, |s| - 1);
    SwappedContents(s, 0, |s| - 1);
    assert t == t[..|s| - 1] + [s[0]];
    SiftDownContents(t[..|s| - 1], 1, cond);
  }

  /** [1, 2, 5, 4, 3, 6] is a min-heap. */
  lemma SixMinHeap()
    ensures HeapOrdered([1, 2, 5, 4, 3, 6], Less)
  {
    var s: seq<int> := [1, 2, 5, 4, 3, 6];
    forall i | 0 < i < |s|
      ensures !Less(s[i], s[Parent(i)])
    {
      assert Parent(i) < i;
    }
  }

  /** Popping the min-heap [1, 2, 5, 4, 3, 6] leaves 3 below 4. */
  lemma PopLeavesDisorder()
    ensures HeapOrdered([1, 2, 5, 4, 3, 6], Less)
    ensures PopAsWritten([1, 2, 5, 4, 3, 6], Less) == [2, 4, 5, 6, 3]
    ensures !HeapOrdered([2, 4, 5, 6, 3], Less)
  {
    SixMinHeap();
    var s0: seq<int> := [1, 2, 5, 4, 3, 6];
    var s1: seq<int> := [6, 2, 5, 4, 3];
    assert Swapped(s0, 0, 5)[..5] == s1;
    assert Less(s1[1], s1[2]) && Less(s1[1], s1[0]);
    var s2 := Swapped(s1, 1, 0);
    assert s2 == [2, 6, 5, 4, 3];
    assert SiftDown(s1, 1, Less) == SiftDown(s2, 2, Less);
    assert !Less(s2[2], s2[3]) && Less(s2[3], s2[1]);
    var s3 := Swapped(s2, 3, 1);
    assert s3 == [2, 4, 5, 6, 3];
    assert SiftDown(s2, 2, Less) == SiftDown(s3, 5, Less);
    assert SiftDown(s3, 5, Less) == s3;
    assert Parent(4) == 1 && Less(s3[4], s3[Parent(4)]);
  }
}
