/** oxf::array<T, N>: a fixed array with per-slot occupancy.
    `buf` is the element buffer (its length is bufferSize), `valid` is the
    inline occupancy map `bool valid[N]`. The destructor capability of T is
    fixed per instantiation; `trivialDtor` records it. */
module FixedArrays {
  import opened Outcomes

  /** The occupancy writes of the list constructor (Array.hpp:180-186): slots
      i, i + 1, ..., len - 1 of the flag map are set in turn; None when a write
      falls outside the map. */
  function MarkOccupied(flags: seq<bool>, i: nat, len: nat): Option<seq<bool>>
    decreases len - i
  {
    if i >= len then Some(flags)
    else if i >= |flags| then None
    else MarkOccupied(flags[i := true], i + 1, len)
  }

  lemma {:induction false} MarkOccupiedOverflows(flags: seq<bool>, i: nat, len: nat)
    requires i <= |flags| < len
    ensures MarkOccupied(flags, i, len) == None
    decreases len - i
  {
    if i < |flags| {
      MarkOccupiedOverflows(flags[i := true], i + 1, len);
    }
  }

  lemma {:induction false} MarkOccupiedFits(flags: seq<bool>, i: nat, len: nat)
    requires i <= len <= |flags|
    requires forall k :: 0 <= k < i ==> flags[k]
    ensures MarkOccupied(flags, i, len).Some?
    ensures var r := MarkOccupied(flags, i, len).value;
      |r| == |flags| && forall k :: 0 <= k < |r| ==> r[k] == (k < len || flags[k])
    decreases len - i
  {
    if i < len {
      MarkOccupiedFits(flags[i := true], i + 1, len);
    }
  }

  /** As written, a list longer than N writes past the N occupancy flags. */
  lemma ListConstructorAsWrittenOverflows(n: nat, len: nat)
    requires n < len
    ensures MarkOccupied(seq(n, _ => false), 0, len) == None
  {
    MarkOccupiedOverflows(seq(n, _ => false), 0, len);
  }

  /** With a list of at most N items, exactly the first len flags end up set. */
  lemma ListConstructorMarksPrefix(n: nat, len: nat)
    requires len <= n
    ensures MarkOccupied(seq(n, _ => false), 0, len) == Some(seq(n, k => k < len))
  {
    MarkOccupiedFits(seq(n, _ => false), 0, len);
    var r := MarkOccupied(seq(n, _ => false), 0, len).value;
    assert forall k :: 0 <= k < n ==> r[k] == (k < len);
    assert r == seq(n, k => k < len);
  }

  class FixedArray<T(0)> {
    const N: nat
    const trivialDtor: bool
    var bufferSize: nat
    var buf: array<T>
    var valid: array<bool>

    /** The buffer has bufferSize slots, at most N, and only slots inside the
        buffer are marked occupied. */
    ghost predicate Valid()
      reads this, valid
    {
      buf.Length == bufferSize <= N && valid.Length == N &&
      buf as object != valid &&
      forall i :: 0 <= i < N && valid[i] ==> i < bufferSize
    }

    /** The two pieces of storage this array owns. */
    ghost function Repr(): set<object>
      reads this
    {
      {buf, valid}
    }

    function Size(): (n: nat)
      reads this, valid
      requires Valid()
      ensures n == buf.Length
    {
      bufferSize
    }

    /** array(): N slots, none occupied. */
    constructor (n: nat, trivialDtor: bool)
      ensures Valid() && fresh(buf) && fresh(valid)
      ensures N == n && this.trivialDtor == trivialDtor && Size() == n
      ensures forall i :: 0 <= i < n ==> !valid[i]
    {
      N := n;
      this.trivialDtor := trivialDtor;
      bufferSize := n;
      buf := new T[n];
      valid := new bool[n](_ => false);
    }

    /** array(initializer_list), for a list of at most N items: size() is the
        list's length, and slot i holds list[i] and is occupied. */
    constructor FromList(n: nat, list: seq<T>, trivialDtor: bool)
      requires |list| <= n
      ensures Valid() && fresh(buf) && fresh(valid)
      ensures N == n && this.trivialDtor == trivialDtor && Size() == |list|
      ensures buf[..] == list
      ensures Some(valid[..]) == MarkOccupied(seq(n, _ => false), 0, |list|)
      ensures forall k :: 0 <= k < n ==> valid[k] == (k < |list|)
    {
      N := n;
      this.trivialDtor := trivialDtor;
      bufferSize := |list|;
      buf := new T[|list|];
      valid := new bool[n](_ => false);
      new;
      for i := 0 to |list|
        modifies buf, valid
        invariant Valid() && fresh(buf) && fresh(valid)
        invariant forall k :: 0 <= k < i ==> buf[k] == list[k]
        invariant forall k :: 0 <= k < n ==> valid[k] == (k < i)
      {
        InternalCopyInsert(i, list[i]);
      }
      ListConstructorMarksPrefix(n, |list|);
      assert buf[..] == list;
      assert valid[..] == seq(n, k => k < |list|);
    }

    /** Copy constructor: N slots; every slot of arr's buffer is copied and
        marked occupied. */
    constructor Copy(arr: FixedArray<T>)
      requires arr.Valid()
      ensures Valid() && fresh(buf) && fresh(valid)
      ensures N == arr.N && trivialDtor == arr.trivialDtor && Size() == arr.N
      ensures buf[..arr.bufferSize] == arr.buf[..]
      ensures forall i :: 0 <= i < N ==> valid[i] == (i < arr.bufferSize)
    {
      N := arr.N;
      trivialDtor := arr.trivialDtor;
      bufferSize := arr.N;
      buf := new T[arr.N];
      valid := new bool[arr.N](_ => false);
      new;
      for i := 0 to arr.bufferSize
        modifies buf, valid
        invariant Valid() && fresh(buf) && fresh(valid)
        invariant forall k :: 0 <= k < i ==> buf[k] == arr.buf[k]
        invariant forall k :: 0 <= k < N ==> valid[k] == (k < i)
      {
        InternalCopyInsert(i, arr.buf[i]);
      }
    }

    /** Move constructor: starts with no buffer and no occupied slot, then
        swaps with arr. The swap exchanges buffer and size only, so this array
        takes arr's buffer with every slot marked free, and arr keeps its own
        flags over an empty buffer. */
    constructor Moved(arr: FixedArray<T>)
      requires arr.Valid()
      modifies arr
      ensures Valid() && fresh(valid)
      ensures N == arr.N && trivialDtor == arr.trivialDtor
      ensures buf == old(arr.buf) && bufferSize == old(arr.bufferSize)
      ensures forall i :: 0 <= i < N ==> !valid[i]
      ensures arr.bufferSize == 0 && arr.buf.Length == 0 && arr.valid == old(arr.valid)
    {
      N := arr.N;
      trivialDtor := arr.trivialDtor;
      bufferSize := 0;
      buf := new T[0];
      valid := new bool[arr.N](_ => false);
      new;
      arr.SwapAsWritten(this);
    }

    /** internalCopyInsert / internalMoveInsert / internalEmplace: slot index gets
        x and is marked occupied (a previous occupant is destroyed first). */
    method InternalCopyInsert(index: nat, x: T)
      requires Valid() && index < bufferSize
      modifies buf, valid
      ensures Valid()
      ensures buf[..] == old(buf[..])[index := x]
      ensures valid[..] == old(valid[..])[index := true]
    {
      buf[index] := x;
      valid[index] := true;
    }

    /** insert / emplace: checked; slot i becomes x and occupied, nothing else changes. */
    method Insert(i: nat, x: T) returns (r: Status)
      requires Valid()
      modifies buf, valid
      ensures Valid()
      ensures r == if i < bufferSize then Done else Failed(RuntimeError)
      ensures r.Done? ==> buf[..] == old(buf[..])[i := x] && valid[..] == old(valid[..])[i := true]
      ensures r.Failed? ==> buf[..] == old(buf[..]) && valid[..] == old(valid[..])
    {
      if i >= bufferSize {
        return Failed(RuntimeError);
      }
      InternalCopyInsert(i, x);
      r := Done;
    }

    /** at(i): checked access to the slot, occupied or not. */
    method At(i: nat) returns (r: Result<T>)
      requires Valid()
      ensures r.Ok? <==> i < bufferSize
      ensures r.Ok? ==> r.value == buf[i]
      ensures r.Err? ==> r.error == RuntimeError
    {
      if i >= bufferSize {
        return Err(RuntimeError);
      }
      r := Ok(buf[i]);
    }

    /** clear / internalClearItems: a non-trivial destructor runs on every
        occupied slot and the slot is marked free; otherwise nothing happens. */
    method Clear()
      requires Valid()
      modifies valid
      ensures Valid()
      ensures trivialDtor ==> valid[..] == old(valid[..])
      ensures !trivialDtor ==> forall i :: 0 <= i < N ==> !valid[i]
    {
      if !trivialDtor {
        for i := 0 to N
          invariant Valid()
          invariant forall k :: 0 <= k < i ==> !valid[k]
        {
          if valid[i] {
            valid[i] := false;
          }
        }
      }
    }

    /** internalCopyAssign: clears, then copies exactly the occupied slots of arr.
        The source writes buf[i] for each occupied slot of arr, so those must lie
        inside this buffer. */
    method InternalCopyAssign(arr: FixedArray<T>)
      requires Valid() && arr.Valid() && arr.N == N
      requires Repr() !! arr.Repr()
      requires forall i :: 0 <= i < N && arr.valid[i] ==> i < bufferSize
      modifies buf, valid
      ensures Valid()
      ensures forall i :: 0 <= i < N ==> valid[i] == (arr.valid[i] || (trivialDtor && old(valid[i])))
      ensures forall i :: 0 <= i < bufferSize ==> buf[i] == if arr.valid[i] then arr.buf[i] else old(buf[i])
    {
      Clear();
      for i := 0 to N
        invariant Valid() && arr.Valid()
        invariant forall k :: 0 <= k < N ==> valid[k] == ((k < i && arr.valid[k]) || (trivialDtor && old(valid[k])))
        invariant forall k :: 0 <= k < bufferSize ==> buf[k] == if k < i && arr.valid[k] then arr.buf[k] else old(buf[k])
      {
        if arr.valid[i] {
          buf[i] := arr.buf[i];
          valid[i] := true;
        }
      }
    }

    /** Copy assignment: skipped when arr is this. */
    method CopyAssign(arr: FixedArray<T>)
      requires Valid() && arr.Valid() && arr.N == N
      requires arr == this || Repr() !! arr.Repr()
      requires forall i :: 0 <= i < N && arr.valid[i] ==> i < bufferSize
      modifies buf, valid
      ensures Valid()
      ensures arr != this ==> forall i :: 0 <= i < N ==> valid[i] == (arr.valid[i] || (trivialDtor && old(valid[i])))
      ensures arr != this ==> forall i :: 0 <= i < bufferSize ==> buf[i] == if arr.valid[i] then arr.buf[i] else old(buf[i])
      ensures arr == this ==> buf[..] == old(buf[..]) && valid[..] == old(valid[..])
    {
      if arr != this {
        InternalCopyAssign(arr);
      }
    }

    /** Move assignment: swaps with arr unless arr is this. The swap exchanges
        buffer and size only, so each array keeps its own occupancy flags. */
    method MoveAssign(arr: FixedArray<T>)
      requires Valid() && arr.Valid() && arr.N == N
      modifies this, arr
      ensures buf == old(arr.buf) && bufferSize == old(arr.bufferSize) && valid == old(valid)
      ensures arr != this ==> arr.buf == old(buf) && arr.bufferSize == old(bufferSize) && arr.valid == old(arr.valid)
    {
      if arr != this {
        arr.SwapAsWritten(this);
      }
    }

    /** Initializer-list assignment: out_of_range when the list is longer than
        size(); otherwise clear, then slots 0..len-1 get the list, occupied. */
    method AssignList(list: seq<T>) returns (r: Status)
      requires Valid()
      modifies buf, valid
      ensures Valid()
      ensures r == if |list| <= bufferSize then Done else Failed(OutOfRange)
      ensures r.Failed? ==> buf[..] == old(buf[..]) && valid[..] == old(valid[..])
      ensures r.Done? ==> buf[..|list|] == list
      ensures r.Done? ==> forall i :: 0 <= i < N ==>
        valid[i] == (i < |list| || (trivialDtor && old(valid[i])))
      ensures r.Done? ==> buf[|list|..] == old(buf[|list|..])
    {
      if |list| > bufferSize {
        return Failed(OutOfRange);
      }
      Clear();
      for i := 0 to |list|
        invariant Valid()
        invariant forall k :: 0 <= k < i ==> buf[k] == list[k]
        invariant forall k :: i <= k < bufferSize ==> buf[k] == old(buf[k])
        invariant forall k :: 0 <= k < N ==> valid[k] == (k < i || (trivialDtor && old(valid[k])))
      {
        InternalCopyInsert(i, list[i]);
      }
      r := Done;
    }

    /** swap, corrected: buffer, size and occupancy all change hands, so each
        array's flags keep describing its own buffer. `valid` is inline storage
        in the source, so exchanging it means exchanging its contents. */
    method Swap(other: FixedArray<T>)
      requires Valid() && other.Valid() && other.N == N
      modifies this, other
      ensures Valid() && other.Valid()
      ensures buf == old(other.buf) && bufferSize == old(other.bufferSize) && valid == old(other.valid)
      ensures other.buf == old(buf) && other.bufferSize == old(bufferSize) && other.valid == old(valid)
    {
      bufferSize, other.bufferSize := other.bufferSize, bufferSize;
      buf, other.buf := other.buf, buf;
      valid, other.valid := other.valid, valid;
    }

    /** swap, as written (Array.hpp:353-356): only the buffer and the size
        change hands; each array keeps its own occupancy flags. */
    method SwapAsWritten(other: FixedArray<T>)
      requires Valid() && other.Valid() && other.N == N
      modifies this, other
      ensures buf == old(other.buf) && bufferSize == old(other.bufferSize) && valid == old(valid)
      ensures other.buf == old(buf) && other.bufferSize == old(bufferSize) && other.valid == old(other.valid)
    {
      var size, buffer := bufferSize, buf;
      bufferSize := other.bufferSize;
      other.bufferSize := size;
      buf := other.buf;
      other.buf := buffer;
    }
  }

  /** operator==: memcmp over this array's size() slots of both buffers,
      compared element by element. When the other array is smaller the
      comparison reads past its buffer; None stands for that read. */
  method Equal<T(0, ==)>(a: FixedArray<T>, b: FixedArray<T>) returns (r: Option<bool>)
    requires a.Valid() && b.Valid()
    ensures r.None? <==> a.bufferSize > b.bufferSize
    ensures r.Some? ==> (r.value <==> a.buf[..] == b.buf[..a.bufferSize])
  {
    if a.bufferSize > b.bufferSize {
      return None;
    }
    var i := 0;
    while i < a.bufferSize
      invariant i <= a.bufferSize
      invariant a.buf[..i] == b.buf[..i]
    {
      if a.buf[i] != b.buf[i] {
        assert a.buf[..][i] != b.buf[..a.bufferSize][i];
        return Some(false);
      }
      i := i + 1;
    }
    return Some(true);
  }

  /** operator== with the sizes compared first, as the vector's operator==
      does: equal exactly when both arrays hold the same slots, and no read
      leaves either buffer. */
  method EqualSized<T(0, ==)>(a: FixedArray<T>, b: FixedArray<T>) returns (eq: bool)
    requires a.Valid() && b.Valid()
    ensures eq <==> a.buf[..] == b.buf[..]
  {
    if a.bufferSize != b.bufferSize {
      return false;
    }
    var r := Equal(a, b);
    eq := r.value;
    assert b.buf[..a.bufferSize] == b.buf[..];
  }

  /** Comparing an array of two slots with one of a single slot reads past the
      smaller buffer as written. */
  method EqualAsWrittenReadsPastEnd() returns (r: Option<bool>)
    ensures r == None
  {
    var a := new FixedArray<int>.FromList(2, [1, 2], false);
    var b := new FixedArray<int>.FromList(2, [1], false);
    r := Equal(a, b);
  }

  /** With the sizes compared first the same arrays are simply unequal. */
  method EqualSizedRejects() returns (eq: bool)
    ensures !eq
  {
    var a := new FixedArray<int>.FromList(2, [1, 2], false);
    var b := new FixedArray<int>.FromList(2, [1], false);
    eq := EqualSized(a, b);
  }

  /** After the source's swap, an array holds the other array's value in a slot
      its own flags call free: swapping a fresh one-slot array with one built
      from [7] leaves the first holding 7 in a slot marked unoccupied, so its
      destructor never destroys that element and the other's destroys raw memory. */
  method SwapAsWrittenLosesOccupancy() returns (held: int, occupied: bool)
    ensures held == 7 && !occupied
  {
    var a := new FixedArray<int>(1, false);
    var b := new FixedArray<int>.FromList(1, [7], false);
    a.SwapAsWritten(b);
    held, occupied := a.buf[0], a.valid[0];
  }

  /** With the corrected swap the same scenario leaves slot 0 occupied. */
  method SwapKeepsOccupancy() returns (held: int, occupied: bool)
    ensures held == 7 && occupied
  {
    var a := new FixedArray<int>(1, false);
    var b := new FixedArray<int>.FromList(1, [7], false);
    a.Swap(b);
    held, occupied := a.buf[0], a.valid[0];
  }
}
