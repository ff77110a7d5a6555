/** Heap order over a level-order sequence, for a comparator `cond` where
    cond(a, b) means "a belongs above b". The standard 0-indexed complete
    binary tree mapping is used: the parent of i > 0 is (i - 1) / 2 and the
    children of p are 2p + 1 and 2p + 2. */
module HeapOrder {

  function Parent(i: nat): nat
    requires i > 0
  {
    (i - 1) / 2
  }

  /** The children of p are exactly 2p + 1 and 2p + 2. */
  lemma ChildrenOf(i: nat, p: nat)
    requires i > 0
    ensures Parent(i) == p <==> i == 2 * p + 1 || i == 2 * p + 2
  {
  }

  /** 2c + 1 is odd and the left child of c. */
  lemma LeftChild(c: nat)
    ensures (2 * c + 1) % 2 == 1 && Parent(2 * c + 1) == c
  {
  }

  /** What the heap needs of its comparator: a strict weak order. */
  ghost predicate StrictWeakOrder<T(!new)>(cond: (T, T) -> bool) {
    (forall a :: !cond(a, a)) &&
    (forall a, b, c {:trigger cond(a, b), cond(b, c), cond(a, c)} :: cond(a, b) && cond(b, c) ==> cond(a, c)) &&
    (forall a, b, c {:trigger cond(a, b), cond(b, c), cond(a, c)} :: !cond(a, b) && !cond(b, c) ==> !cond(a, c))
  }

  /** A strict weak order is asymmetric. */
  lemma Asymmetric<T(!new)>(cond: (T, T) -> bool, a: T, b: T)
    ensures StrictWeakOrder(cond) && cond(a, b) ==> !cond(b, a)
  {
    if StrictWeakOrder(cond) {
      assert !cond(a, a);
    }
  }

  /** No element belongs above its parent. */
  ghost predicate HeapOrdered<T>(s: seq<T>, cond: (T, T) -> bool) {
    forall i {:trigger Parent(i)} :: 0 < i < |s| ==> !cond(s[i], s[Parent(i)])
  }

  /** s with the items at a and b exchanged. */
  function Swapped<T>(s: seq<T>, a: nat, b: nat): (t: seq<T>)
    requires a < |s| && b < |s|
    ensures |t| == |s|
    ensures t[a] == s[b] && t[b] == s[a]
    ensures forall k :: 0 <= k < |s| && k != a && k != b ==> t[k] == s[k]
  {
    s[a := s[b]][b := s[a]]
  }

  /** Exchanging two items keeps the same items. */
  lemma SwappedContents<T>(s: seq<T>, a: nat, b: nat)
    requires a < |s| && b < |s|
    ensures multiset(Swapped(s, a, b)) == multiset(s)
  {
  }

  /** The default comparator, t1 < t2: the smallest element is on top. */
  function Less(a: int, b: int): bool {
    a < b
  }

  /** The comparator of OXF_MAX_HEAP, t1 > t2: the largest element is on top. */
  function Greater(a: int, b: int): bool {
    a > b
  }

  lemma LessIsStrictWeakOrder()
    ensures StrictWeakOrder(Less)
  {
  }

  lemma GreaterIsStrictWeakOrder()
    ensures StrictWeakOrder(Greater)
  {
  }

  /** In a heap-ordered sequence no element belongs above the root. */
  lemma {:induction false} RootIsBest<T(!new)>(s: seq<T>, cond: (T, T) -> bool, i: nat)
    requires StrictWeakOrder(cond) && HeapOrdered(s, cond) && i < |s|
    ensures !cond(s[i], s[0])
    decreases i
  {
    if i > 0 {
      RootIsBest(s, cond, Parent(i));
      assert !cond(s[i], s[Parent(i)]);
    }
  }

  lemma RootIsBestAll<T(!new)>(s: seq<T>, cond: (T, T) -> bool)
    requires StrictWeakOrder(cond) && HeapOrdered(s, cond) && |s| > 0
    ensures forall i :: 0 <= i < |s| ==> !cond(s[i], s[0])
  {
    forall i | 0 <= i < |s|
      ensures !cond(s[i], s[0])
    {
      RootIsBest(s, cond, i);
    }
  }

  // ---------------------------------------------------------------------
  // Sift-up: the pushed element climbs from the last position.

  /** Every edge holds except the one from pos to its parent, and the
      children of pos already fit under pos's parent. */
  ghost predicate SiftUpInv<T>(s: seq<T>, pos: nat, cond: (T, T) -> bool) {
    pos < |s| &&
    (forall i {:trigger Parent(i)} :: 0 < i < |s| && i != pos ==> !cond(s[i], s[Parent(i)])) &&
    (pos > 0 ==> forall c :: 0 < c < |s| && Parent(c) == pos ==> !cond(s[c], s[Parent(pos)]))
  }

  /** Appending to a heap-ordered sequence establishes the invariant at the end. */
  lemma SiftUpStart<T>(s: seq<T>, x: T, cond: (T, T) -> bool)
    requires HeapOrdered(s, cond)
    ensures SiftUpInv(s + [x], |s|, cond)
  {
    var t := s + [x];
    forall i | 0 < i < |t| && i != |s|
      ensures !cond(t[i], t[Parent(i)])
    {
      assert t[i] == s[i] && t[Parent(i)] == s[Parent(i)];
    }
  }

  /** One swap with the parent moves the invariant one level up. */
  lemma SiftUpStep<T(!new)>(s: seq<T>, pos: nat, cond: (T, T) -> bool)
    requires StrictWeakOrder(cond) && SiftUpInv(s, pos, cond)
    requires pos > 0 && cond(s[pos], s[Parent(pos)])
    ensures SiftUpInv(Swapped(s, pos, Parent(pos)), Parent(pos), cond)
  {
    var p := Parent(pos);
    var t := Swapped(s, pos, p);
    var x, y := s[pos], s[p];
    forall i | 0 < i < |t| && i != p
      ensures !cond(t[i], t[Parent(i)])
    {
      if i == pos {
        Asymmetric(cond, x, y);
      } else if Parent(i) == pos {
        assert t[i] == s[i] && t[pos] == y;
      } else if Parent(i) == p {
        assert t[i] == s[i] && !cond(s[i], y);
      } else {
        assert t[i] == s[i] && t[Parent(i)] == s[Parent(i)];
      }
    }
    if p > 0 {
      forall c | 0 < c < |t| && Parent(c) == p
        ensures !cond(t[c], t[Parent(p)])
      {
        assert t[Parent(p)] == s[Parent(p)];
        assert !cond(y, s[Parent(p)]);
        if c != pos {
          assert t[c] == s[c] && !cond(s[c], y);
        }
      }
    }
  }

  /** The climb stops at the root or under a parent it does not belong above. */
  lemma SiftUpDone<T>(s: seq<T>, pos: nat, cond: (T, T) -> bool)
    requires SiftUpInv(s, pos, cond)
    requires pos == 0 || !cond(s[pos], s[Parent(pos)])
    ensures HeapOrdered(s, cond)
  {
  }

  // ---------------------------------------------------------------------
  // Sift-down: the element moved to the root sinks.

  /** Every edge holds except those from p to its children, and the children
      of p already fit under p's parent. */
  ghost predicate SiftDownInv<T>(s: seq<T>, p: nat, cond: (T, T) -> bool) {
    (forall i {:trigger Parent(i)} :: 0 < i < |s| && Parent(i) != p ==> !cond(s[i], s[Parent(i)])) &&
    (p > 0 ==> forall c :: 0 < c < |s| && Parent(c) == p ==> !cond(s[c], s[Parent(p)]))
  }

  /** Moving the last element of a heap-ordered sequence to the root and
      dropping the last slot loses exactly the old root and establishes the
      sinking invariant at the root. */
  lemma PopStart<T>(s: seq<T>, u: seq<T>, cond: (T, T) -> bool)
    requires HeapOrdered(s, cond) && |s| > 0
    requires u == Swapped(s, 0, |s| - 1)[..|s| - 1]
    ensures multiset(u) == multiset(s) - multiset{s[0]}
    ensures SiftDownInv(u, 0, cond)
  {
    var t := Swapped(s, 0, |s| - 1);
    SwappedContents(s, 0, |s| - 1);
    assert t == u + [s[0]];
    assert multiset(t) == multiset(u) + multiset{s[0]};
    forall i | 0 < i < |u| && Parent(i) != 0
      ensures !cond(u[i], u[Parent(i)])
    {
      assert u[i] == s[i] && u[Parent(i)] == s[Parent(i)];
    }
  }

  /** Swapping p with a child c that no sibling belongs above, when c belongs
      above p, moves the invariant down to c. */
  lemma SiftDownStep<T(!new)>(s: seq<T>, p: nat, c: nat, cond: (T, T) -> bool)
    requires StrictWeakOrder(cond) && SiftDownInv(s, p, cond)
    requires 0 < c < |s| && Parent(c) == p
    requires forall o :: 0 < o < |s| && Parent(o) == p ==> !cond(s[o], s[c])
    requires cond(s[c], s[p])
    ensures SiftDownInv(Swapped(s, c, p), c, cond)
  {
    var t := Swapped(s, c, p);
    var x, y := s[c], s[p];
    forall i | 0 < i < |t| && Parent(i) != c
      ensures !cond(t[i], t[Parent(i)])
    {
      if i == c {
        Asymmetric(cond, x, y);
      } else if Parent(i) == p {
        assert t[i] == s[i] && !cond(s[i], x);
      } else if i == p {
        assert t[Parent(p)] == s[Parent(p)];
      } else {
        assert t[i] == s[i] && t[Parent(i)] == s[Parent(i)];
      }
    }
    forall cc | 0 < cc < |t| && Parent(cc) == c
      ensures !cond(t[cc], t[p])
    {
      assert t[cc] == s[cc];
    }
  }

  /** The sinking stops when no child of p belongs above p. */
  lemma SiftDownDone<T>(s: seq<T>, p: nat, cond: (T, T) -> bool)
    requires SiftDownInv(s, p, cond)
    requires forall c :: 0 < c < |s| && Parent(c) == p ==> !cond(s[c], s[p])
    ensures HeapOrdered(s, cond)
  {
  }

  /** Both children of p exist and c is one no sibling belongs above:
      then no child of p at all belongs above c. */
  lemma BestChild<T(!new)>(s: seq<T>, p: nat, c: nat, cond: (T, T) -> bool)
    requires 2 * p + 2 < |s| && (c == 2 * p + 1 || c == 2 * p + 2)
    requires !cond(s[2 * p + 1], s[c]) && !cond(s[2 * p + 2], s[c])
    ensures 0 < c && Parent(c) == p
    ensures forall o :: 0 < o < |s| && Parent(o) == p ==> !cond(s[o], s[c])
  {
    forall o | 0 < o < |s| && Parent(o) == p
      ensures !cond(s[o], s[c])
    {
      ChildrenOf(o, p);
    }
  }

  /** The sinking stops when the best child does not belong above p. */
  lemma SiftDownStopAtBest<T(!new)>(s: seq<T>, p: nat, c: nat, cond: (T, T) -> bool)
    requires StrictWeakOrder(cond) && SiftDownInv(s, p, cond)
    requires 0 < c < |s| && Parent(c) == p
    requires forall o :: 0 < o < |s| && Parent(o) == p ==> !cond(s[o], s[c])
    requires !cond(s[c], s[p])
    ensures HeapOrdered(s, cond)
  {
    forall o | 0 < o < |s| && Parent(o) == p
      ensures !cond(s[o], s[p])
    {
      assert !cond(s[o], s[c]);
    }
  }

  /** p has the single child 2p + 1: one compare-and-swap finishes the sinking. */
  lemma SiftDownLastChild<T(!new)>(s: seq<T>, p: nat, cond: (T, T) -> bool)
    requires StrictWeakOrder(cond) && SiftDownInv(s, p, cond)
    requires 2 * p + 1 == |s| - 1
    ensures HeapOrdered(if cond(s[2 * p + 1], s[p]) then Swapped(s, 2 * p + 1, p) else s, cond)
  {
    var c := 2 * p + 1;
    ChildrenOf(c, p);
    forall o | 0 < o < |s| && Parent(o) == p
      ensures o == c
    {
      ChildrenOf(o, p);
    }
    if cond(s[c], s[p]) {
      SiftDownStep(s, p, c, cond);
      var t := Swapped(s, c, p);
      forall o | 0 < o < |t|
        ensures Parent(o) != c
      {
        ChildrenOf(o, c);
      }
      SiftDownDone(t, c, cond);
    } else {
      SiftDownDone(s, p, cond);
    }
  }

  /** p has no child: the invariant is already heap order. */
  lemma SiftDownNoChild<T>(s: seq<T>, p: nat, cond: (T, T) -> bool)
    requires SiftDownInv(s, p, cond) && 2 * p + 1 >= |s|
    ensures HeapOrdered(s, cond)
  {
    forall o | 0 < o < |s|
      ensures Parent(o) != p
    {
      ChildrenOf(o, p);
    }
  }

  /** One round of the sinking loop at parent p, whose children 2p + 1 and
      2p + 2 both exist, with c the child neither child belongs above:
      either c is swapped up and the invariant moves to c, or the sequence
      is already heap-ordered. */
  lemma SiftDownRound<T(!new)>(s: seq<T>, p: nat, c: nat, cond: (T, T) -> bool)
    requires StrictWeakOrder(cond) && SiftDownInv(s, p, cond)
    requires 2 * p + 2 < |s| && (c == 2 * p + 1 || c == 2 * p + 2)
    requires !cond(s[2 * p + 1], s[c]) && !cond(s[2 * p + 2], s[c])
    ensures Parent(c) == p
    ensures cond(s[c], s[p]) ==> SiftDownInv(Swapped(s, c, p), c, cond)
    ensures !cond(s[c], s[p]) ==> HeapOrdered(s, cond)
  {
    BestChild(s, p, c, cond);
    if cond(s[c], s[p]) {
      SiftDownStep(s, p, c, cond);
    } else {
      SiftDownStopAtBest(s, p, c, cond);
    }
  }

  /** After the sinking loop the left child pos = 2p + 1 is compared with p
      once if it exists; the result is heap-ordered whether the loop ran out
      of pairs of children or stopped on an ordered sequence. */
  lemma SiftDownFinish<T(!new)>(s: seq<T>, p: nat, ordered: bool, cond: (T, T) -> bool)
    requires StrictWeakOrder(cond)
    requires ordered ==> HeapOrdered(s, cond)
    requires !ordered ==> SiftDownInv(s, p, cond) && 2 * p + 2 >= |s|
    ensures Parent(2 * p + 1) == p
    ensures HeapOrdered(if 2 * p + 1 < |s| && cond(s[2 * p + 1], s[p]) then Swapped(s, 2 * p + 1, p) else s, cond)
  {
    LeftChild(p);
    if ordered {
      if 2 * p + 1 < |s| {
        assert !cond(s[2 * p + 1], s[Parent(2 * p + 1)]);
      }
    } else if 2 * p + 1 < |s| {
      SiftDownLastChild(s, p, cond);
    } else {
      SiftDownNoChild(s, p, cond);
    }
  }
}
