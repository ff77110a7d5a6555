/** oxf::disjoint_set: union-find over a fixed buffer of items, each holding
    a value, the index of its parent, a count of the items linked below it
    and whether it is the base (root) of its set. Byte comparison of values
    is modelled as equality on T. */
module DisjointSets {
  import opened Outcomes

  /** One buffer slot: the value, the parent index, the children count and
      the base flag. */
  datatype Item<T> = Item(value: T, parent: nat, children: nat, isBase: bool)

  /** The link of item i is well formed: its parent is in the buffer, it is a
      base exactly when it is its own parent, and a non-base item's parent
      counts strictly more children than the item. The last clause makes the
      parent links acyclic. */
  ghost predicate ItemLinked<T>(s: seq<Item<T>>, i: nat)
    requires i < |s|
  {
    s[i].parent < |s| &&
    (s[i].isBase <==> s[i].parent == i) &&
    (!s[i].isBase ==> s[s[i].parent].children > s[i].children)
  }

  ghost predicate Linked<T>(s: seq<Item<T>>) {
    forall i :: 0 <= i < |s| ==> ItemLinked(s, i)
  }

  /** The largest children count in the buffer. */
  function MaxChildren<T>(s: seq<Item<T>>): nat {
    if |s| == 0 then 0
    else
      var m := MaxChildren(s[1..]);
      if s[0].children > m then s[0].children else m
  }

  lemma {:induction false} MaxChildrenBound<T>(s: seq<Item<T>>, i: nat)
    requires i < |s|
    ensures s[i].children <= MaxChildren(s)
  {
    if i > 0 {
      MaxChildrenBound(s[1..], i - 1);
    }
  }

  /** The base reached from item i by following parent links. */
  function RootOf<T>(s: seq<Item<T>>, i: nat): (r: nat)
    requires Linked(s) && i < |s|
    ensures r < |s| && s[r].isBase
    decreases MaxChildren(s) - s[i].children
  {
    assert ItemLinked(s, i);
    if s[i].isBase then i
    else
      MaxChildrenBound(s, i);
      MaxChildrenBound(s, s[i].parent);
      RootOf(s, s[i].parent)
  }

  /** The index of the first item holding v, if any. */
  function FirstMatch<T(==)>(s: seq<Item<T>>, v: T): (r: Option<nat>)
    ensures r.None? <==> forall i :: 0 <= i < |s| ==> s[i].value != v
    ensures r.Some? ==> r.value < |s| && s[r.value].value == v
    ensures r.Some? ==> forall j :: 0 <= j < r.value ==> s[j].value != v
  {
    if |s| == 0 then None
    else if s[0].value == v then Some(0)
    else match FirstMatch(s[1..], v)
      case None => None
      case Some(j) => Some(j + 1)
  }

  /** What find returns: the base of the first item holding v, or null. */
  function Lookup<T(==)>(s: seq<Item<T>>, v: T): (r: Option<nat>)
    requires Linked(s)
    ensures r.None? <==> forall i :: 0 <= i < |s| ==> s[i].value != v
    ensures r.Some? ==> r.value < |s| && s[r.value].isBase
  {
    match FirstMatch(s, v)
    case None => None
    case Some(i) => Some(RootOf(s, i))
  }

  /** The link step of to_union: the winner w counts the loser l and its
      children, then l takes w's parent (w itself) and stops being a base. */
  function Link<T>(s: seq<Item<T>>, w: nat, l: nat): seq<Item<T>>
    requires w < |s| && l < |s| && w != l
  {
    s[w := s[w].(children := s[w].children + s[l].children + 1)]
     [l := s[l].(parent := s[w].parent, isBase := false)]
  }

  /** Which of the two roots stays a base. */
  datatype Winner = First | Second

  /** The unsigned subtraction of the source, reduced modulo 2^64. */
  function SizeDiff(a: nat, b: nat): (d: nat)
    ensures b <= a <= SizeMax ==> d == a - b
    ensures a < b <= SizeMax ==> d == SizeMax + 1 - (b - a)
  {
    (a - b) % (SizeMax + 1)
  }

  /** The weighted-union choice as written: the difference is unsigned, so
      the test for a negative difference never holds. */
  function WinnerAsWritten(c1: nat, c2: nat): Winner {
    if SizeDiff(c1, c2) < 0 then Second else First
  }

  /** The weighted-union choice as the comments describe it: the root with
      more children stays the base; on a tie the first one does. */
  function WeightedWinner(c1: nat, c2: nat): (w: Winner)
    ensures w == First <==> c1 >= c2
  {
    if c1 < c2 then Second else First
  }

  /** As written the first root wins for every pair of counts. */
  lemma FirstAlwaysWins(c1: nat, c2: nat)
    ensures WinnerAsWritten(c1, c2) == First
  {
  }

  /** The first root wins even with no children against three. */
  lemma AsWrittenIgnoresWeight()
    ensures WinnerAsWritten(0, 3) == First && WeightedWinner(0, 3) == Second
  {
    FirstAlwaysWins(0, 3);
  }

  /** to_union on the roots r1 and r2 with a given choice of winner. */
  function UnionBy<T>(s: seq<Item<T>>, r1: nat, r2: nat, w: Winner): seq<Item<T>>
    requires r1 < |s| && r2 < |s|
  {
    if s[r1].parent == s[r2].parent || r1 == r2 then s
    else if w == First then Link(s, r1, r2)
    else Link(s, r2, r1)
  }

  /** to_union as written. */
  function UnionAsWritten<T>(s: seq<Item<T>>, r1: nat, r2: nat): (t: seq<Item<T>>)
    requires r1 < |s| && r2 < |s|
    ensures |t| == |s| && forall k :: 0 <= k < |s| && k != r1 && k != r2 ==> t[k] == s[k]
    ensures r1 != r2 && s[r1].parent != s[r2].parent ==> !t[r2].isBase && t[r1].isBase == s[r1].isBase
  {
    FirstAlwaysWins(s[r1].children, s[r2].children);
    UnionBy(s, r1, r2, WinnerAsWritten(s[r1].children, s[r2].children))
  }

  /** to_union with the weighted choice. */
  function Union<T>(s: seq<Item<T>>, r1: nat, r2: nat): (t: seq<Item<T>>)
    requires r1 < |s| && r2 < |s|
    ensures |t| == |s| && forall k :: 0 <= k < |s| && k != r1 && k != r2 ==> t[k] == s[k]
    ensures r1 != r2 && s[r1].parent != s[r2].parent ==>
      (s[r1].children < s[r2].children ==> !t[r1].isBase && t[r2].isBase == s[r2].isBase) &&
      (s[r1].children >= s[r2].children ==> !t[r2].isBase && t[r1].isBase == s[r1].isBase)
  {
    UnionBy(s, r1, r2, WeightedWinner(s[r1].children, s[r2].children))
  }

  /** Linking one base below another keeps every link well formed. */
  lemma LinkKeepsLinked<T>(s: seq<Item<T>>, w: nat, l: nat)
    requires Linked(s) && w < |s| && l < |s| && w != l
    requires s[w].isBase && s[l].isBase
    ensures Linked(Link(s, w, l))
  {
    var t := Link(s, w, l);
    assert ItemLinked(s, w);
    forall i | 0 <= i < |t|
      ensures ItemLinked(t, i)
    {
      assert ItemLinked(s, i);
    }
  }

  /** Linking l below w sends every item whose base was l to w and leaves
      every other item's base unchanged. */
  lemma {:induction false} LinkRoots<T>(s: seq<Item<T>>, w: nat, l: nat, i: nat)
    requires Linked(s) && w < |s| && l < |s| && w != l
    requires s[w].isBase && s[l].isBase && i < |s|
    ensures Linked(Link(s, w, l))
    ensures RootOf(Link(s, w, l), i) == if RootOf(s, i) == l then w else RootOf(s, i)
    decreases MaxChildren(s) - s[i].children
  {
    LinkKeepsLinked(s, w, l);
    var t := Link(s, w, l);
    assert ItemLinked(s, i) && ItemLinked(s, w) && ItemLinked(t, w);
    if i == l {
      assert t[l].parent == w && !t[l].isBase;
      assert RootOf(t, l) == RootOf(t, w);
    } else if !s[i].isBase {
      assert t[i] == s[i];
      MaxChildrenBound(s, i);
      MaxChildrenBound(s, s[i].parent);
      LinkRoots(s, w, l, s[i].parent);
    }
  }

  /** Whether items i and j are in the same set. */
  ghost predicate SameSet<T>(s: seq<Item<T>>, i: nat, j: nat)
    requires Linked(s) && i < |s| && j < |s|
  {
    RootOf(s, i) == RootOf(s, j)
  }

  /** Union merges the sets of r1 and r2 and no others, and keeps every link
      well formed, whichever root wins. */
  lemma UnionByMerges<T>(s: seq<Item<T>>, r1: nat, r2: nat, w: Winner, i: nat, j: nat)
    requires Linked(s) && r1 < |s| && r2 < |s| && s[r1].isBase && s[r2].isBase
    requires i < |s| && j < |s|
    ensures Linked(UnionBy(s, r1, r2, w))
    ensures SameSet(UnionBy(s, r1, r2, w), i, j) <==>
      SameSet(s, i, j) ||
      (RootOf(s, i) == r1 && RootOf(s, j) == r2) ||
      (RootOf(s, i) == r2 && RootOf(s, j) == r1)
  {
    assert ItemLinked(s, r1) && ItemLinked(s, r2);
    if s[r1].parent != s[r2].parent && r1 != r2 {
      var winner, loser := if w == First then r1 else r2, if w == First then r2 else r1;
      LinkRoots(s, winner, loser, i);
      LinkRoots(s, winner, loser, j);
    }
  }

  /** With the weighted choice the root with fewer children is linked below
      the other (the second one on a tie): it stops being a base and points
      to the winner, the winner counts it and its children, no other item
      changes, and the winner had at least as many children as the loser. */
  lemma UnionLinksLighter<T>(s: seq<Item<T>>, r1: nat, r2: nat)
    requires Linked(s) && r1 < |s| && r2 < |s| && s[r1].isBase && s[r2].isBase && r1 != r2
    ensures var t := Union(s, r1, r2);
      var w, l := if s[r1].children < s[r2].children then r2 else r1,
                  if s[r1].children < s[r2].children then r1 else r2;
      |t| == |s| && s[w].children >= s[l].children &&
      t[l] == s[l].(parent := w, isBase := false) &&
      t[w] == s[w].(children := s[w].children + s[l].children + 1) &&
      forall k :: 0 <= k < |s| && k != r1 && k != r2 ==> t[k] == s[k]
  {
    assert ItemLinked(s, r1) && ItemLinked(s, r2);
  }

  /** As written the second root is always linked below the first: it stops
      being a base and points to the first root, the first root counts it and
      its children, and no other item changes. */
  lemma UnionAsWrittenLinksSecond<T>(s: seq<Item<T>>, r1: nat, r2: nat)
    requires Linked(s) && r1 < |s| && r2 < |s| && s[r1].isBase && s[r2].isBase && r1 != r2
    ensures var t := UnionAsWritten(s, r1, r2);
      |t| == |s| &&
      t[r2] == s[r2].(parent := r1, isBase := false) &&
      t[r1] == s[r1].(children := s[r1].children + s[r2].children + 1) &&
      forall k :: 0 <= k < |s| && k != r1 && k != r2 ==> t[k] == s[k]
  {
    assert ItemLinked(s, r1) && ItemLinked(s, r2);
    FirstAlwaysWins(s[r1].children, s[r2].children);
  }

  /** As written a base with no children stays the base over one with three. */
  lemma UnionAsWrittenIgnoresWeight()
    ensures var s := [Item(10, 0, 0, true), Item(20, 1, 3, true), Item(30, 1, 0, false),
                      Item(40, 1, 0, false), Item(50, 1, 0, false)];
      Linked(s) && !UnionAsWritten(s, 0, 1)[1].isBase && s[0].children < s[1].children
  {
    var s := [Item(10, 0, 0, true), Item(20, 1, 3, true), Item(30, 1, 0, false),
              Item(40, 1, 0, false), Item(50, 1, 0, false)];
    forall i | 0 <= i < |s|
      ensures ItemLinked(s, i)
    {
    }
    FirstAlwaysWins(0, 3);
  }

  class DisjointSet<T(0, ==)> {
    var items: array<Item<T>>
    var size: nat

    ghost predicate Valid()
      reads this, items
    {
      size == items.Length && Linked(items[..])
    }

    /** disjoint_set(list): one single-item set per list item, in order. */
    constructor (list: seq<T>)
      ensures Valid() && fresh(items)
      ensures size == |list|
      ensures forall i :: 0 <= i < |list| ==> items[i] == Item(list[i], i, 0, true)
    {
      var a := new Item<T>[|list|];
      var n := 0;
      while n < |list|
        invariant n <= |list|
        invariant forall i :: 0 <= i < n ==> a[i] == Item(list[i], i, 0, true)
      {
        a[n] := Item(list[n], n, 0, true);
        n := n + 1;
      }
      items := a;
      size := n;
      new;
      forall i | 0 <= i < items.Length
        ensures ItemLinked(items[..], i)
      {
      }
    }

    /** find: the base of the first item holding v, or None for null. */
    method Find(v: T) returns (r: Option<nat>)
      requires Valid()
      ensures r == Lookup(items[..], v)
    {
      ghost var s := items[..];
      var i := 0;
      r := None;
      while i < size
        invariant i <= size
        invariant forall j :: 0 <= j < i ==> s[j].value != v
      {
        if items[i].value == v {
          r := Some(i);
          break;
        }
        i := i + 1;
      }
      if r.None? {
        return;
      }
      var t: nat := r.value;
      while !items[t].isBase
        invariant t < items.Length && RootOf(s, t) == RootOf(s, r.value)
        decreases MaxChildren(s) - items[t].children
      {
        assert ItemLinked(s, t);
        MaxChildrenBound(s, t);
        MaxChildrenBound(s, items[t].parent);
        t := items[t].parent;
      }
      r := Some(t);
    }

    /** to_union: looks up both bases; when they differ, the base with fewer
        children is linked below the other, the second one on a tie. Both
        values must be present: a null lookup is dereferenced. */
    method ToUnion(v1: T, v2: T)
      requires Valid()
      requires Lookup(items[..], v1).Some? && Lookup(items[..], v2).Some?
      modifies items
      ensures Valid()
      ensures Lookup(old(items[..]), v1) == Lookup(old(items[..]), v2) ==> items[..] == old(items[..])
      ensures items[..] == Union(old(items[..]), Lookup(old(items[..]), v1).value, Lookup(old(items[..]), v2).value)
    {
      ghost var s := items[..];
      var f1 := Find(v1);
      var f2 := Find(v2);
      var i1, i2 := f1.value, f2.value;
      if items[i1].parent != items[i2].parent {
        var c1, c2 := items[i1].children, items[i2].children;
        assert ItemLinked(s, i1) && ItemLinked(s, i2);
        if c1 < c2 {
          items[i2] := items[i2].(children := c2 + c1 + 1);
          items[i1] := items[i1].(parent := items[i2].parent, isBase := false);
          LinkKeepsLinked(s, i2, i1);
        } else {
          items[i1] := items[i1].(children := c1 + c2 + 1);
          items[i2] := items[i2].(parent := items[i1].parent, isBase := false);
          LinkKeepsLinked(s, i1, i2);
        }
      }
    }

    function Size(): (n: nat)
      reads this, items
      requires Valid()
      ensures n == |items[..]|
    {
      size
    }
  }
}
