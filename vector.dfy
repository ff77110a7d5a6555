/** oxf::vector<T>: a growable array over one owned buffer.
    The buffer is `buf` (its length is the capacity, bufferSize in the source),
    `count` is itemCounter, and the live elements are buf[..count]. */
module Vectors {
  import opened Outcomes

  /** OXF_VECTOR_SIZE: every buffer the library allocates has at least two slots. */
  function AtLeastTwo(n: nat): (r: nat)
    ensures r >= 2 && r >= n
    ensures r == n || r == 2
  {
    if 2 > n then 2 else n
  }

  /** Capacity after an overflow-triggered reallocation: floor(1.6 * cap), at least 2. */
  function GrownCapacity(cap: nat): (r: nat)
    ensures r > cap
    ensures r >= 2
  {
    assert cap >= 2 ==> cap * 8 / 5 >= cap + 1 by {
      if cap >= 2 { assert cap * 8 >= 5 * (cap + 1); }
    }
    AtLeastTwo(cap * 8 / 5)
  }

  /** The corrected buffer-reuse test of copy assignment: the existing buffer is
      reused exactly when it can hold every element of the source. */
  predicate ReusesBuffer(capacity: nat, srcCount: nat) {
    srcCount <= capacity
  }

  /** The test as written in the source: reuse when capacity <= srcCount. */
  predicate ReusesBufferAsWritten(capacity: nat, srcCount: nat) {
    capacity <= srcCount
  }

  /** Appends `src` to `acc` one element at a time into a buffer of `cap` slots,
      as the reuse branch of copy assignment does with internalPushBack, which
      never checks capacity; a write past the last slot yields None. */
  function PushAllInto<T>(cap: nat, acc: seq<T>, src: seq<T>): Option<seq<T>>
    decreases |src|
  {
    if src == [] then Some(acc)
    else if |acc| >= cap then None
    else PushAllInto(cap, acc + [src[0]], src[1..])
  }

  lemma {:induction false} PushAllIntoFits<T>(cap: nat, acc: seq<T>, src: seq<T>)
    requires |acc| + |src| <= cap
    ensures PushAllInto(cap, acc, src) == Some(acc + src)
    decreases |src|
  {
    if src == [] {
      assert acc + src == acc;
    } else {
      PushAllIntoFits(cap, acc + [src[0]], src[1..]);
      assert acc + [src[0]] + src[1..] == acc + src;
    }
  }

  lemma {:induction false} PushAllIntoOverflows<T>(cap: nat, acc: seq<T>, src: seq<T>)
    requires |acc| <= cap < |acc| + |src|
    ensures PushAllInto(cap, acc, src) == None
    decreases |src|
  {
    if |acc| < cap {
      PushAllIntoOverflows(cap, acc + [src[0]], src[1..]);
    }
  }

  /** Copy assignment on abstract state, as written: the resulting (capacity,
      elements), or None when the reuse branch writes past the buffer. */
  function CopyAssignAsWritten<T>(cap: nat, srcCap: nat, src: seq<T>): Option<(nat, seq<T>)> {
    if ReusesBufferAsWritten(cap, |src|) then
      match PushAllInto(cap, [], src)
      case Some(s) => Some((cap, s))
      case None => None
    else Some((srcCap, src))
  }

  /** Copy assignment with the corrected test. */
  function CopyAssignResult<T>(cap: nat, srcCap: nat, src: seq<T>): Option<(nat, seq<T>)> {
    if ReusesBuffer(cap, |src|) then
      match PushAllInto(cap, [], src)
      case Some(s) => Some((cap, s))
      case None => None
    else Some((srcCap, src))
  }

  /** As written, copy-assigning a vector with more elements than this buffer's
      capacity writes past the buffer. */
  lemma CopyAssignAsWrittenOverflows<T>(cap: nat, srcCap: nat, src: seq<T>)
    requires cap < |src|
    ensures CopyAssignAsWritten(cap, srcCap, src) == None
  {
    PushAllIntoOverflows(cap, [], src);
  }

  /** With the corrected test, copy assignment never overflows: the target holds
      exactly the source's elements, in a buffer large enough for them. */
  lemma CopyAssignCopies<T>(cap: nat, srcCap: nat, src: seq<T>)
    requires |src| <= srcCap
    ensures CopyAssignResult(cap, srcCap, src).Some?
    ensures CopyAssignResult(cap, srcCap, src).value.1 == src
    ensures |src| <= CopyAssignResult(cap, srcCap, src).value.0
  {
    if ReusesBuffer(cap, |src|) {
      PushAllIntoFits(cap, [], src);
      assert [] + src == src;
    }
  }

  /** Overwriting the first copy of a duplicated element is inserting. */
  lemma OverwriteDuplicate<T>(s: seq<T>, i: nat, x: T)
    requires i < |s|
    ensures (s[..i + 1] + s[i..])[i := x] == s[..i] + [x] + s[i..]
  {
    assert s[..i + 1] == s[..i] + [s[i]];
  }

  class Vector<T(0)> {
    var buf: array<T>
    var count: nat

    ghost predicate Valid()
      reads this
    {
      count <= buf.Length
    }

    /** The live elements, in positional order. */
    ghost function Elems(): seq<T>
      reads this, buf
      requires Valid()
    {
      buf[..count]
    }

    /** size(): the number of live elements. */
    function Size(): (n: nat)
      reads this, buf
      requires Valid()
      ensures n == |Elems()|
    {
      count
    }

    /** capacity(): the buffer's slot count, which always covers the elements. */
    function Capacity(): (n: nat)
      reads this, buf
      requires Valid()
      ensures |Elems()| <= n
    {
      buf.Length
    }

    /** empty(): no live elements. */
    function Empty(): (b: bool)
      reads this, buf
      requires Valid()
      ensures b <==> Elems() == []
    {
      count == 0
    }

    /** operator[]: unchecked access; the caller guarantees the index. */
    function Get(i: nat): (x: T)
      reads this, buf
      requires Valid() && i < count
      ensures x == Elems()[i]
    {
      buf[i]
    }

    /** vector(): two slots, no elements. */
    constructor ()
      ensures Valid() && fresh(buf)
      ensures Capacity() == 2 && Elems() == []
    {
      buf := new T[2];
      count := 0;
    }

    /** vector(size): max(2, size) slots, no elements. */
    constructor WithCapacity(n: nat)
      ensures Valid() && fresh(buf)
      ensures Capacity() == AtLeastTwo(n) && Elems() == []
    {
      buf := new T[AtLeastTwo(n)];
      count := 0;
    }

    /** vector(initializer_list): max(2, len) slots holding the list in order. */
    constructor FromList(list: seq<T>)
      ensures Valid() && fresh(buf)
      ensures Capacity() == AtLeastTwo(|list|) && Elems() == list
    {
      buf := new T[AtLeastTwo(|list|)];
      count := 0;
      new;
      for k := 0 to |list|
        invariant Valid() && fresh(buf) && buf.Length == AtLeastTwo(|list|)
        invariant count == k && Elems() == list[..k]
      {
        InternalPushBack(list[k]);
      }
    }

    /** Copy constructor: a fresh buffer of the same capacity, the same elements. */
    constructor Copy(v: Vector<T>)
      requires v.Valid()
      ensures Valid() && fresh(buf)
      ensures Capacity() == v.Capacity() && Elems() == v.Elems()
    {
      buf := new T[v.buf.Length];
      count := 0;
      new;
      for k := 0 to v.count
        invariant Valid() && fresh(buf) && buf.Length == v.buf.Length
        invariant count == k && Elems() == v.buf[..k]
      {
        PushBack(v.buf[k]);
      }
    }

    /** Move constructor: takes over v's buffer; v is left empty with no buffer. */
    constructor Moved(v: Vector<T>)
      requires v.Valid()
      modifies v
      ensures Valid() && v.Valid()
      ensures buf == old(v.buf) && count == old(v.count)
      ensures v.count == 0 && v.Capacity() == 0
    {
      buf := new T[0];
      count := 0;
      new;
      v.Swap(this);
    }

    /** internalPushBack: constructs item at the end; the caller ensures room. */
    method InternalPushBack(x: T)
      requires Valid() && count < buf.Length
      modifies this, buf
      ensures Valid() && buf == old(buf)
      ensures Elems() == old(Elems()) + [x]
    {
      buf[count] := x;
      count := count + 1;
    }

    /** internalSimpleCopy: pushes every element onto dst, which must have room. */
    method InternalSimpleCopy(dst: Vector<T>)
      requires Valid() && dst.Valid() && dst != this && dst.buf != buf
      requires dst.count + count <= dst.buf.Length
      modifies dst, dst.buf
      ensures dst.Valid() && dst.buf == old(dst.buf)
      ensures dst.Elems() == old(dst.Elems()) + Elems()
    {
      for k := 0 to count
        invariant dst.Valid() && dst.buf == old(dst.buf)
        invariant dst.count == old(dst.count) + k
        invariant dst.Elems() == old(dst.Elems()) + buf[..k]
      {
        dst.InternalPushBack(buf[k]);
        assert buf[..k + 1] == buf[..k] + [buf[k]];
      }
      assert buf[..count] == Elems();
    }

    /** internalResize: moves the elements into a fresh buffer of max(2, newSize)
        slots. The source does not check newSize; every caller passes at least count. */
    method InternalResize(newSize: nat)
      requires Valid() && count <= newSize
      modifies this
      ensures Valid() && fresh(buf)
      ensures Capacity() == AtLeastTwo(newSize) && Elems() == old(Elems())
    {
      var temp := new Vector<T>.WithCapacity(newSize);
      InternalSimpleCopy(temp);
      temp.Swap(this);
    }

    /** resizeOnDemand: grows a full buffer to GrownCapacity. */
    method ResizeOnDemand()
      requires Valid()
      modifies this
      ensures Valid() && Elems() == old(Elems()) && count < buf.Length
      ensures old(count) >= old(buf.Length) ==> fresh(buf) && Capacity() == GrownCapacity(old(Capacity()))
      ensures old(count) < old(buf.Length) ==> buf == old(buf)
    {
      if count >= buf.Length {
        InternalResize(buf.Length * 8 / 5);
      }
    }

    /** push_back / emplace_back: appends x, growing a full buffer first. */
    method PushBack(x: T)
      requires Valid()
      modifies this, buf
      ensures Valid() && Elems() == old(Elems()) + [x]
      ensures old(count) >= old(Capacity()) ==> fresh(buf) && Capacity() == GrownCapacity(old(Capacity()))
      ensures old(count) < old(Capacity()) ==> buf == old(buf)
    {
      ResizeOnDemand();
      InternalPushBack(x);
    }

    /** pop_back: drops the last element; the source decrements without a check. */
    method PopBack()
      requires Valid() && count > 0
      modifies this
      ensures Valid() && buf == old(buf)
      ensures Elems() == old(Elems())[..old(count) - 1]
    {
      count := count - 1;
    }

    /** resize(n): pops from the back until at most n elements remain. */
    method Resize(n: nat)
      requires Valid()
      modifies this
      ensures Valid() && buf == old(buf)
      ensures Elems() == if n < old(count) then old(Elems())[..n] else old(Elems())
    {
      var k := count;
      while k > n
        invariant Valid() && buf == old(buf)
        invariant count == k <= old(count)
        invariant n < old(count) ==> n <= k
        invariant n >= old(count) ==> k == old(count)
        invariant Elems() == old(Elems())[..k]
      {
        PopBack();
        k := k - 1;
      }
    }

    /** clear: no elements; the buffer is kept. */
    method Clear()
      requires Valid()
      modifies this
      ensures Valid() && buf == old(buf) && Elems() == []
    {
      count := 0;
    }

    /** reserve(k): reallocates only to grow. */
    method Reserve(k: nat)
      requires Valid()
      modifies this
      ensures Valid() && Elems() == old(Elems())
      ensures Capacity() == if k > old(Capacity()) then AtLeastTwo(k) else old(Capacity())
      ensures k > old(Capacity()) ==> fresh(buf)
      ensures k <= old(Capacity()) ==> buf == old(buf)
    {
      if k > buf.Length {
        InternalResize(k);
      }
    }

    /** shrink_to_fit: a fresh buffer of max(2, count) slots. */
    method ShrinkToFit()
      requires Valid()
      modifies this
      ensures Valid() && fresh(buf)
      ensures Capacity() == AtLeastTwo(old(count)) && Elems() == old(Elems())
    {
      var temp := new Vector<T>.WithCapacity(AtLeastTwo(count));
      InternalSimpleCopy(temp);
      temp.Swap(this);
    }

    /** internalShiftRight: makes room for one element (reserve(count + 1)), then
        moves buf[index..count] one slot right, from the top down. Slot index keeps
        its (moved-from) element. */
    method InternalShiftRight(index: nat)
      requires Valid() && index < count
      modifies this, buf
      ensures Valid() && count == old(count) && count < buf.Length
      ensures buf[..count + 1] == old(Elems())[..index + 1] + old(Elems())[index..]
      ensures Capacity() == if old(count) >= old(Capacity()) then old(count) + 1 else old(Capacity())
      ensures buf == old(buf) || fresh(buf)
    {
      ghost var s := Elems();
      Reserve(count + 1);
      assert AtLeastTwo(count + 1) == count + 1;
      var i := count;
      while i > index
        modifies buf
        invariant index <= i <= count < buf.Length
        invariant forall k :: 0 <= k < i ==> buf[k] == s[k]
        invariant forall k :: i < k <= count ==> buf[k] == s[k - 1]
        invariant i < count ==> buf[i] == s[i]
      {
        buf[i] := buf[i - 1];
        i := i - 1;
      }
      ghost var t := s[..index + 1] + s[index..];
      assert forall k :: 0 <= k <= count ==> buf[k] == t[k];
      assert buf[..count + 1] == t;
    }

    /** internalShiftLeft: removes the element at index, moving the tail one
        slot left. */
    method InternalShiftLeft(index: nat)
      requires Valid() && index < count
      modifies this, buf
      ensures Valid() && buf == old(buf)
      ensures Elems() == old(Elems())[..index] + old(Elems())[index + 1..]
    {
      ghost var s := Elems();
      var last := count - 1;
      count := last;
      for i := index to last
        modifies buf
        invariant buf[..index] == s[..index]
        invariant buf[index..i] == s[index + 1..i + 1]
        invariant buf[i + 1..last + 1] == s[i + 1..]
      {
        assert buf[i + 1..last + 1][0] == s[i + 1..][0];
        buf[i] := buf[i + 1];
      }
      assert Elems() == buf[..index] + buf[index..count];
    }

    /** insert / emplace: index must be below size, so index == size is refused.
        A full buffer grows to exactly count + 1 slots. */
    method Insert(i: nat, x: T) returns (r: Status)
      requires Valid()
      modifies this, buf
      ensures Valid()
      ensures r == if i < old(count) then Done else Failed(RuntimeError)
      ensures r.Done? ==> Elems() == old(Elems())[..i] + [x] + old(Elems())[i..]
      ensures r.Done? ==> Capacity() == if old(count) == old(Capacity()) then old(count) + 1 else old(Capacity())
      ensures r.Failed? ==> buf == old(buf) && Elems() == old(Elems())
    {
      if i >= count {
        return Failed(RuntimeError);
      }
      ghost var s := Elems();
      InternalShiftRight(i);
      ghost var t := buf[..count + 1];
      buf[i] := x;
      assert buf[..count + 1] == t[i := x];
      count := count + 1;
      r := Done;
      OverwriteDuplicate(s, i, x);
    }

    /** erase: removes the element at i; the capacity is unchanged. */
    method Erase(i: nat) returns (r: Status)
      requires Valid()
      modifies this, buf
      ensures Valid() && buf == old(buf)
      ensures r == if i < old(count) then Done else Failed(RuntimeError)
      ensures r.Done? ==> Elems() == old(Elems())[..i] + old(Elems())[i + 1..]
      ensures r.Failed? ==> Elems() == old(Elems())
    {
      if i >= count {
        return Failed(RuntimeError);
      }
      InternalShiftLeft(i);
      r := Done;
    }

    /** replace: overwrites position i only. */
    method Replace(i: nat, x: T) returns (r: Status)
      requires Valid()
      modifies buf
      ensures r == if i < count then Done else Failed(RuntimeError)
      ensures r.Done? ==> Elems() == old(Elems())[i := x]
      ensures r.Failed? ==> Elems() == old(Elems())
    {
      if i >= count {
        return Failed(RuntimeError);
      }
      buf[i] := x;
      r := Done;
    }

    /** swapItems: exchanges positions a and b; both must be below size. */
    method SwapItems(a: nat, b: nat) returns (r: Status)
      requires Valid()
      modifies buf
      ensures r == if a < count && b < count then Done else Failed(RuntimeError)
      ensures r.Done? ==> Elems() == old(Elems())[a := old(Elems())[b]][b := old(Elems())[a]]
      ensures r.Failed? ==> Elems() == old(Elems())
    {
      if a >= count || b >= count {
        return Failed(RuntimeError);
      }
      var temp := buf[a];
      buf[a] := buf[b];
      buf[b] := temp;
      r := Done;
    }

    /** at(i): checked access. */
    method At(i: nat) returns (r: Result<T>)
      requires Valid()
      ensures r.Ok? <==> i < count
      ensures r.Ok? ==> r.value == Elems()[i]
      ensures r.Err? ==> r.error == RuntimeError
    {
      if i >= count {
        return Err(RuntimeError);
      }
      r := Ok(buf[i]);
    }

    /** swap: exchanges all three fields with other. */
    method Swap(other: Vector<T>)
      modifies this, other
      ensures buf == old(other.buf) && count == old(other.count)
      ensures other.buf == old(buf) && other.count == old(count)
    {
      buf, other.buf := other.buf, buf;
      count, other.count := other.count, count;
    }

    /** Move assignment: swaps with v unless v is this. */
    method MoveAssign(v: Vector<T>)
      modifies this, v
      ensures buf == old(v.buf) && count == old(v.count)
      ensures v != this ==> v.buf == old(buf) && v.count == old(count)
    {
      if v != this {
        v.Swap(this);
      }
    }

    /** Copy assignment (the nothrow-destructible path) with the corrected
        buffer-reuse test: the result is the one CopyAssignResult describes. */
    method CopyAssign(v: Vector<T>)
      requires Valid() && v.Valid() && (v == this || v.buf != buf)
      modifies this, buf
      ensures Valid()
      ensures CopyAssignResult(old(Capacity()), old(v.Capacity()), old(v.Elems())) == Some((Capacity(), Elems()))
    {
      ghost var src := v.Elems();
      if v != this {
        if ReusesBuffer(buf.Length, v.count) {
          PushAllIntoFits(buf.Length, [], src);
          assert [] + src == src;
          Clear();
          for k := 0 to v.count
            invariant Valid() && buf == old(buf) && v.Valid() && v.Elems() == src
            invariant count == k && Elems() == src[..k]
          {
            InternalPushBack(v.buf[k]);
          }
          assert Elems() == src;
          assert CopyAssignResult(old(Capacity()), old(v.Capacity()), src) == Some((old(Capacity()), src));
        } else {
          var temp := new Vector<T>.Copy(v);
          temp.Swap(this);
        }
      } else {
        PushAllIntoFits(buf.Length, [], src);
        assert [] + src == src;
      }
    }

    /** Initializer-list assignment: clears, then push_backs every item. */
    method AssignList(list: seq<T>)
      requires Valid()
      modifies this, buf
      ensures Valid() && Elems() == list
      ensures Capacity() >= old(Capacity())
    {
      Clear();
      for k := 0 to |list|
        invariant Valid() && Elems() == list[..k] && Capacity() >= old(Capacity())
        invariant buf == old(buf) || fresh(buf)
      {
        PushBack(list[k]);
      }
    }
  }

  /** operator==: equal sizes and equal live ranges, compared element by element
      instead of memcmp. */
  method Equal<T(0, ==)>(a: Vector<T>, b: Vector<T>) returns (eq: bool)
    requires a.Valid() && b.Valid()
    ensures eq <==> a.Elems() == b.Elems()
  {
    if a.count != b.count {
      return false;
    }
    var i := 0;
    while i < a.count
      invariant i <= a.count
      invariant a.buf[..i] == b.buf[..i]
    {
      if a.buf[i] != b.buf[i] {
        assert a.Elems()[i] != b.Elems()[i];
        return false;
      }
      i := i + 1;
    }
    return true;
  }

  /** insert(i, x) followed by erase(i) gives back the original sequence. */
  lemma InsertThenEraseRestores<T>(s: seq<T>, i: nat, x: T)
    requires i < |s|
    ensures var t := s[..i] + [x] + s[i..]; t[..i] + t[i + 1..] == s
  {
    var t := s[..i] + [x] + s[i..];
    assert t[..i] == s[..i];
    assert t[i + 1..] == s[i..];
  }
}
