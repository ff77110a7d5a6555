/** oxf::heap: a binary heap over an oxf::vector, ordered by a comparator
    `cond` (the default is <, so the smallest element is on top;
    OXF_MAX_HEAP passes >). The sift-up and sift-down loops are modelled with
    the standard parent index (i - 1) / 2; the position updates as written are
    modelled separately in HeapAsWritten. */
module Heaps {
  import opened Outcomes
  import opened Vectors
  import opened HeapOrder

  /** Extending a prefix by one item adds that item to its contents. */
  lemma PrefixContents<T>(list: seq<T>, i: nat)
    requires i < |list|
    ensures multiset(list[..i + 1]) == multiset(list[..i]) + multiset{list[i]}
  {
    assert list[..i + 1] == list[..i] + [list[i]];
  }

  class Heap<T(0, !new)> {
    const data: Vector<T>
    const cond: (T, T) -> bool

    ghost predicate Valid()
      reads this, data, data.buf
    {
      data.Valid() && StrictWeakOrder(cond) && HeapOrdered(data.Elems(), cond)
    }

    /** The stored elements, regardless of position. */
    ghost function Contents(): multiset<T>
      reads this, data, data.buf
      requires data.Valid()
    {
      multiset(data.Elems())
    }

    /** heap() and heap(f): an empty vector of two slots. */
    constructor (cond: (T, T) -> bool)
      requires StrictWeakOrder(cond)
      ensures Valid() && fresh(data) && fresh(data.buf)
      ensures this.cond == cond && Contents() == multiset{} && data.Capacity() == 2
    {
      data := new Vector();
      this.cond := cond;
    }

    /** heap(size) and heap(size, f): room for n elements, none stored. */
    constructor WithCapacity(n: nat, cond: (T, T) -> bool)
      requires StrictWeakOrder(cond)
      ensures Valid() && fresh(data) && fresh(data.buf)
      ensures this.cond == cond && Contents() == multiset{} && data.Capacity() == AtLeastTwo(n)
    {
      data := new Vector.WithCapacity(n);
      this.cond := cond;
    }

    /** heap(list) and heap(list, f): room for the list, then every item pushed. */
    constructor FromList(list: seq<T>, cond: (T, T) -> bool)
      requires StrictWeakOrder(cond)
      ensures Valid() && fresh(data) && fresh(data.buf)
      ensures this.cond == cond && Contents() == multiset(list) && data.Size() == |list|
    {
      data := new Vector.WithCapacity(|list|);
      this.cond := cond;
      new;
      for i := 0 to |list|
        invariant Valid() && fresh(data) && fresh(data.buf)
        invariant Contents() == multiset(list[..i]) && data.Size() == i
      {
        Push(list[i]);
        PrefixContents(list, i);
      }
      assert list[..|list|] == list;
    }

    /** internalSwapOnDemand: swaps the two items exactly when the first
        belongs above the second, and reports whether it did. */
    method InternalSwapOnDemand(p1: nat, p2: nat) returns (swapped: bool)
      requires data.Valid() && p1 < data.Size() && p2 < data.Size()
      modifies data.buf
      ensures data.Valid()
      ensures swapped <==> cond(old(data.Elems())[p1], old(data.Elems())[p2])
      ensures data.Elems() == if swapped then Swapped(old(data.Elems()), p1, p2) else old(data.Elems())
      ensures multiset(data.Elems()) == old(multiset(data.Elems()))
    {
      if cond(data.Get(p1), data.Get(p2)) {
        SwappedContents(data.Elems(), p1, p2);
        var _ := data.SwapItems(p1, p2);
        return true;
      }
      return false;
    }

    /** internalGetCorrectChild: the first index when its item belongs above
        the second's, else the second; under a strict weak order neither item
        belongs above the chosen one. */
    function InternalGetCorrectChild(i1: nat, i2: nat): (c: nat)
      reads this, data, data.buf
      requires data.Valid() && i1 < data.Size() && i2 < data.Size()
      ensures c == i1 || c == i2
      ensures c == i1 <== cond(data.Elems()[i1], data.Elems()[i2])
      ensures c == i2 <== !cond(data.Elems()[i1], data.Elems()[i2])
      ensures StrictWeakOrder(cond) ==>
        !cond(data.Elems()[i1], data.Elems()[c]) && !cond(data.Elems()[i2], data.Elems()[c])
    {
      Asymmetric(cond, data.Elems()[i1], data.Elems()[i2]);
      if cond(data.Get(i1), data.Get(i2)) then i1 else i2
    }

    /** internalPush: the last item climbs while it belongs above its parent. */
    method InternalPush()
      requires data.Valid() && StrictWeakOrder(cond) && data.Size() > 0
      requires SiftUpInv(data.Elems(), data.Size() - 1, cond)
      modifies data.buf
      ensures Valid() && Contents() == old(Contents())
    {
      var pos: nat := data.Size() - 1;
      while pos != 0
        invariant data.Valid() && pos < data.Size()
        invariant SiftUpInv(data.Elems(), pos, cond)
        invariant Contents() == old(Contents())
      {
        ghost var s := data.Elems();
        var swapped := InternalSwapOnDemand(pos, Parent(pos));
        if !swapped {
          SiftUpDone(s, pos, cond);
          break;
        }
        SiftUpStep(s, pos, cond);
        pos := Parent(pos);
      }
    }

    /** The condition of the sinking loop: the better of the children pos and
        pos + 1 is swapped with their parent when it belongs above it. A swap
        moves the sinking position to that child; no swap leaves the heap
        ordered. */
    method SwapWithBestChild(ghost parent: nat, pos: nat) returns (child: nat, swapped: bool)
      requires data.Valid() && StrictWeakOrder(cond)
      requires pos == 2 * parent + 1 && pos + 1 < data.Size()
      requires SiftDownInv(data.Elems(), parent, cond)
      modifies data.buf
      ensures data.Valid() && Contents() == old(Contents())
      ensures child == pos || child == pos + 1
      ensures swapped ==> SiftDownInv(data.Elems(), child, cond)
      ensures !swapped ==> HeapOrdered(data.Elems(), cond)
    {
      child := InternalGetCorrectChild(pos, pos + 1);
      ghost var s := data.Elems();
      SiftDownRound(s, parent, child, cond);
      LeftChild(parent);
      swapped := InternalSwapOnDemand(child, Parent(pos));
    }

    /** internalRemoveProcedure: the root sinks, each time swapping with the
        child no sibling belongs above, while it has two children; a last
        single child is compared once. */
    method InternalRemoveProcedure()
      requires data.Valid() && StrictWeakOrder(cond)
      requires SiftDownInv(data.Elems(), 0, cond)
      modifies data.buf
      ensures Valid() && Contents() == old(Contents())
    {
      var pos: nat := 1;
      ghost var ordered := false;
      ghost var parent: nat := 0;
      while pos + 1 < data.Size()
        invariant data.Valid() && pos == 2 * parent + 1
        invariant SiftDownInv(data.Elems(), parent, cond)
        invariant Contents() == old(Contents())
        decreases data.Size() - pos
      {
        var child, swapped := SwapWithBestChild(parent, pos);
        if !swapped {
          ordered := true;
          break;
        }
        pos := 2 * child + 1;
        parent := child;
      }
      CompareLastChild(parent, pos, ordered);
    }

    /** The compare after the sinking loop: a left child pos left without a
        sibling is swapped with its parent when it belongs above it; the
        result is heap-ordered however the loop ended. */
    method CompareLastChild(ghost parent: nat, pos: nat, ghost ordered: bool)
      requires data.Valid() && StrictWeakOrder(cond) && pos == 2 * parent + 1
      requires ordered ==> HeapOrdered(data.Elems(), cond)
      requires !ordered ==> SiftDownInv(data.Elems(), parent, cond) && pos + 1 >= data.Size()
      modifies data.buf
      ensures Valid() && Contents() == old(Contents())
    {
      ghost var s := data.Elems();
      SiftDownFinish(s, parent, ordered, cond);
      if pos < data.Size() {
        var _ := InternalSwapOnDemand(pos, Parent(pos));
      }
    }

    /** push: appends the item and lets it climb; the heap gains exactly it. */
    method Push(x: T)
      requires Valid()
      modifies data, data.buf
      ensures Valid() && data.Size() == old(data.Size()) + 1
      ensures Contents() == old(Contents()) + multiset{x}
      ensures data.buf == old(data.buf) || fresh(data.buf)
    {
      data.PushBack(x);
      SiftUpStart(old(data.Elems()), x, cond);
      InternalPush();
    }

    /** pop: swaps the root with the last item, drops the last item and lets
        the new root sink; the heap loses exactly its old root. On an empty
        heap the index 0 - 1 wraps to SIZE_MAX and swapItems throws. */
    method Pop() returns (r: Status)
      requires Valid()
      modifies data, data.buf
      ensures Valid()
      ensures r == if old(data.Size()) > 0 then Done else Failed(RuntimeError)
      ensures r.Done? ==> data.Size() == old(data.Size()) - 1
      ensures r.Done? ==> Contents() == old(Contents()) - multiset{old(data.Elems())[0]}
      ensures r.Failed? ==> data.Elems() == old(data.Elems())
    {
      ghost var s := data.Elems();
      var last := if data.Size() == 0 then SizeMax else data.Size() - 1;
      r := data.SwapItems(0, last);
      if r.Failed? {
        return;
      }
      data.PopBack();
      PopStart(s, data.Elems(), cond);
      InternalRemoveProcedure();
    }

    /** peak: the root, which no stored item belongs above. */
    function Peak(): (r: T)
      reads this, data, data.buf
      requires Valid() && data.Size() > 0
      ensures r in Contents()
      ensures forall x :: x in Contents() ==> !cond(x, r)
    {
      RootIsBestAll(data.Elems(), cond);
      data.Get(0)
    }

    /** clear: drops every item; the buffer is kept. */
    method Clear()
      requires Valid()
      modifies data
      ensures Valid() && Contents() == multiset{} && data.buf == old(data.buf)
    {
      data.Clear();
    }

    function Size(): (n: nat)
      reads this, data, data.buf
      requires data.Valid()
      ensures n == |Contents()|
    {
      data.Size()
    }

    function Empty(): (b: bool)
      reads this, data, data.buf
      requires data.Valid()
      ensures b <==> Contents() == multiset{}
    {
      data.Empty()
    }

    /** operator=(list): clears, then pushes every item. */
    method AssignList(list: seq<T>)
      requires Valid()
      modifies data, data.buf
      ensures Valid() && Contents() == multiset(list) && data.Size() == |list|
    {
      data.Clear();
      for i := 0 to |list|
        invariant Valid() && Contents() == multiset(list[..i]) && data.Size() == i
        invariant data.buf == old(data.buf) || fresh(data.buf)
      {
        Push(list[i]);
        PrefixContents(list, i);
      }
      assert list[..|list|] == list;
    }
  }
}
