/** Object lifetimes in a vector's buffer for element types whose destructor is
    not trivial. Every slot is either live (an element is constructed in it) or
    raw memory; placement-new on a live slot and a destructor call on a raw slot
    are both undefined behaviour. The insert, emplace and erase paths are
    written as the sequence of construct and destroy events they perform and
    replayed against per-slot liveness flags. */
module Lifetimes {
  import opened Outcomes

  /** One lifetime event on a buffer slot. */
  datatype Event = Construct(slot: nat) | Destroy(slot: nat)

  /** Replays events on liveness flags: None as soon as an event constructs into
      a live slot, destroys a raw slot, or addresses a slot outside the buffer. */
  function Replay(live: seq<bool>, events: seq<Event>): Option<seq<bool>>
    decreases |events|
  {
    if events == [] then Some(live)
    else match events[0]
      case Construct(i) =>
        if i < |live| && !live[i] then Replay(live[i := true], events[1..]) else None
      case Destroy(i) =>
        if i < |live| && live[i] then Replay(live[i := false], events[1..]) else None
  }

  lemma {:induction false} ReplayAppend(live: seq<bool>, a: seq<Event>, b: seq<Event>)
    ensures Replay(live, a + b) ==
      match Replay(live, a)
      case Some(mid) => Replay(mid, b)
      case None => None
    decreases |a|
  {
    if a == [] {
      assert a + b == b;
    } else {
      assert (a + b)[0] == a[0];
      assert (a + b)[1..] == a[1..] + b;
      match a[0]
      case Construct(i) =>
        if i < |live| && !live[i] {
          ReplayAppend(live[i := true], a[1..], b);
        }
      case Destroy(i) =>
        if i < |live| && live[i] {
          ReplayAppend(live[i := false], a[1..], b);
        }
    }
  }

  /** A buffer of cap slots whose slots 0..last are live except `hole`. */
  function LiveExcept(last: nat, hole: nat, cap: nat): seq<bool> {
    seq(cap, k => k <= last && k != hole)
  }

  /** A buffer of cap slots whose first count slots are live. */
  function Live(count: nat, cap: nat): seq<bool> {
    seq(cap, k => k < count)
  }

  /** internalShiftRight, non-trivial destructor (Vector.hpp:227-230): for i from
      j down to index + 1, construct slot i from slot i - 1, then destroy slot i - 1. */
  function ShiftRightEvents(j: nat, index: nat): seq<Event>
    decreases j
  {
    if j <= index then [] else [Construct(j), Destroy(j - 1)] + ShiftRightEvents(j - 1, index)
  }

  /** The shift moves the hole (the one raw slot) from j down to index. */
  lemma {:induction false} ShiftRightMovesHole(last: nat, cap: nat, j: nat, index: nat)
    requires index <= j <= last < cap
    ensures Replay(LiveExcept(last, j, cap), ShiftRightEvents(j, index)) == Some(LiveExcept(last, index, cap))
    decreases j
  {
    if j > index {
      var live := LiveExcept(last, j, cap);
      var rest := ShiftRightEvents(j - 1, index);
      var events := [Construct(j), Destroy(j - 1)] + rest;
      assert events[0] == Construct(j) && events[1..] == [Destroy(j - 1)] + rest;
      assert ([Destroy(j - 1)] + rest)[0] == Destroy(j - 1) && ([Destroy(j - 1)] + rest)[1..] == rest;
      assert live[j := true][j - 1 := false] == LiveExcept(last, j - 1, cap);
      ShiftRightMovesHole(last, cap, j - 1, index);
    }
  }

  /** Insert and emplace as written (Vector.hpp:253-257, 277-281, 304-308):
      shift right, destroy slot index, construct the new element there. */
  function InsertEventsAsWritten(count: nat, index: nat): seq<Event> {
    ShiftRightEvents(count, index) + [Destroy(index), Construct(index)]
  }

  /** Insert with the redundant destroy removed: the shift already left slot
      index raw. */
  function InsertEvents(count: nat, index: nat): seq<Event> {
    ShiftRightEvents(count, index) + [Construct(index)]
  }

  /** As written, every insert into a non-empty vector destroys slot index twice. */
  lemma InsertAsWrittenDestroysTwice(count: nat, cap: nat, index: nat)
    requires index < count < cap
    ensures Replay(Live(count, cap), InsertEventsAsWritten(count, index)) == None
  {
    assert Live(count, cap) == LiveExcept(count, count, cap);
    ShiftRightMovesHole(count, cap, count, index);
    ReplayAppend(Live(count, cap), ShiftRightEvents(count, index), [Destroy(index), Construct(index)]);
  }

  /** Without the extra destroy, insert constructs into raw slots only and
      leaves exactly the first count + 1 slots live. */
  lemma InsertLifetimes(count: nat, cap: nat, index: nat)
    requires index < count < cap
    ensures Replay(Live(count, cap), InsertEvents(count, index)) == Some(Live(count + 1, cap))
  {
    assert Live(count, cap) == LiveExcept(count, count, cap);
    ShiftRightMovesHole(count, cap, count, index);
    ReplayAppend(Live(count, cap), ShiftRightEvents(count, index), [Construct(index)]);
    assert LiveExcept(count, index, cap)[index := true] == Live(count + 1, cap);
  }

  /** internalShiftLeft, non-trivial destructor (Vector.hpp:198-205), loop part:
      for i from j up to last - 1, destroy slot i, construct it from slot i + 1. */
  function ShiftLeftEvents(j: nat, last: nat): seq<Event>
    decreases last - j
  {
    if j >= last then [] else [Destroy(j), Construct(j)] + ShiftLeftEvents(j + 1, last)
  }

  /** Erase: the shift loop, then the destructor call on the vacated last slot. */
  function EraseEvents(count: nat, index: nat): seq<Event>
    requires count > 0
  {
    ShiftLeftEvents(index, count - 1) + [Destroy(count - 1)]
  }

  lemma {:induction false} ShiftLeftKeepsLive(live: seq<bool>, j: nat, last: nat)
    requires j <= last < |live|
    requires forall k :: j <= k < last ==> live[k]
    ensures Replay(live, ShiftLeftEvents(j, last)) == Some(live)
    decreases last - j
  {
    if j < last {
      var rest := ShiftLeftEvents(j + 1, last);
      var events := [Destroy(j), Construct(j)] + rest;
      assert events[0] == Destroy(j) && events[1..] == [Construct(j)] + rest;
      assert ([Construct(j)] + rest)[0] == Construct(j) && ([Construct(j)] + rest)[1..] == rest;
      assert live[j := false][j := true] == live;
      ShiftLeftKeepsLive(live, j + 1, last);
    }
  }

  /** Erase destroys and constructs only where allowed and leaves the first
      count - 1 slots live. */
  lemma EraseLifetimes(count: nat, cap: nat, index: nat)
    requires index < count <= cap
    ensures Replay(Live(count, cap), EraseEvents(count, index)) == Some(Live(count - 1, cap))
  {
    ShiftLeftKeepsLive(Live(count, cap), index, count - 1);
    ReplayAppend(Live(count, cap), ShiftLeftEvents(index, count - 1), [Destroy(count - 1)]);
    assert Live(count, cap)[count - 1 := false] == Live(count - 1, cap);
  }
}
