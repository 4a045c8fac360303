/** Reasoning about one subtree of the buffer changing while the rest stays put:
    every mutation (insert, rotation, delete) edits the slots below one index and
    the recorded sizes of that index's ancestors. */
module Subtrees {
  import opened Wrappers
  import opened Implicit
  import opened Bst
  import opened Storage

  /** Outside the subtree rooted at `i` both stores hold the same values. */
  ghost predicate SameOutside(s: Store, t: Store, i: nat)
  {
    forall k: nat :: !Desc(i, k) ==> ElemAt(s, k) == ElemAt(t, k)
  }

  /** A slot of the other child's subtree is never inside the subtree of `i`. */
  lemma OutsideSibling(j: nat, i: nat, c1: nat, c2: nat, k: nat)
    requires (c1 == 2 * j + 1 && c2 == 2 * j + 2) || (c1 == 2 * j + 2 && c2 == 2 * j + 1)
    requires Desc(c1, i) && Desc(c2, k)
    ensures !Desc(i, k)
  {
    if Desc(i, k) {
      DescChain(i, c2, k);
      if Desc(i, c2) {
        DescTrans(c1, i, c2);
        SiblingsDisjoint(j, c2);
      } else {
        SiblingsDisjoint(j, i);
      }
    }
  }

  /** Editing the subtree of a slot `r` below the child `c` of `j` leaves `j` and
      the subtree of `j`'s other child `o` as they were. */
  lemma SiblingUntouched(s: Store, t: Store, j: nat, c: nat, o: nat, r: nat)
    requires (c == 2 * j + 1 && o == 2 * j + 2) || (c == 2 * j + 2 && o == 2 * j + 1)
    requires Desc(c, r) && SameOutside(s, t, r)
    ensures ElemAt(t, j) == ElemAt(s, j) && Abs(t, o) == Abs(s, o)
  {
    DescBelow(c, r);
    NotDescOfSmaller(r, j);
    forall k: nat | Desc(o, k)
      ensures ElemAt(s, k) == ElemAt(t, k)
    {
      OutsideSibling(j, r, c, o, k);
    }
    AbsFrame(s, t, o);
  }

  /** Every ancestor of an occupied slot is occupied. */
  lemma {:induction false} AncestorsOccupied(s: Store, m: nat, k: nat)
    requires GoodAt(s, 0) && ElemAt(s, m).Some? && Desc(k, m)
    ensures ElemAt(s, k).Some?
    decreases m
  {
    if k != m {
      DescRoot(m);
      AncestorsOccupied(s, (m - 1) / 2, k);
    }
  }

  /** Changing the subtree of `i` changes an ancestor `j` only through that subtree:
      its size moves by the same amount, and when the subtree only lost values and
      stayed ordered, the ancestor stays ordered and loses the same values. */
  lemma {:induction false} Splice(s: Store, t: Store, i: nat, j: nat)
    requires Desc(j, i) && SameOutside(s, t, i)
    requires forall k: nat :: Desc(j, k) && Desc(k, i) && k != i ==> ElemAt(s, k).Some?
    ensures TSize(Abs(t, j)) == TSize(Abs(s, j)) - TSize(Abs(s, i)) + TSize(Abs(t, i))
    ensures Elems(Abs(s, i)) <= Elems(Abs(s, j))
    ensures IsBst(Abs(s, j)) && IsBst(Abs(t, i)) && Elems(Abs(t, i)) <= Elems(Abs(s, i)) ==>
      && IsBst(Abs(t, j))
      && Elems(Abs(t, j)) == Elems(Abs(s, j)) - (Elems(Abs(s, i)) - Elems(Abs(t, i)))
    decreases i - j
  {
    if j != i {
      DescBelow(j, i);
      NotDescOfSmaller(i, j);
      assert ElemAt(s, j) == ElemAt(t, j);
      assert ElemAt(s, j).Some?;
      DescStep(j, i);
      var c1 := if Desc(2 * j + 1, i) then 2 * j + 1 else 2 * j + 2;
      var c2 := if c1 == 2 * j + 1 then 2 * j + 2 else 2 * j + 1;
      forall k: nat | Desc(c2, k)
        ensures ElemAt(s, k) == ElemAt(t, k)
      {
        OutsideSibling(j, i, c1, c2, k);
      }
      AbsFrame(s, t, c2);
      forall k: nat | Desc(c1, k) && Desc(k, i) && k != i
        ensures ElemAt(s, k).Some?
      {
        DescChildren(j, j);
        DescTrans(j, c1, k);
      }
      Splice(s, t, i, c1);
      var v := ElemAt(s, j).value;
      if IsBst(Abs(s, j)) && IsBst(Abs(t, i)) && Elems(Abs(t, i)) <= Elems(Abs(s, i)) {
        var d := Elems(Abs(s, i)) - Elems(Abs(t, i));
        if c1 == 2 * j + 1 {
          assert forall x :: x in d ==> x < v;
          assert forall x :: x in Elems(Abs(s, c2)) ==> v < x;
        } else {
          assert forall x :: x in d ==> v < x;
          assert forall x :: x in Elems(Abs(s, c2)) ==> x < v;
        }
      }
    }
  }

  /** The whole-buffer invariant survives a change confined to the subtree of `i`,
      when that subtree satisfies it, the ancestors' sizes moved by the subtree's
      change in size, and every other size stayed put. */
  lemma GoodSplice(s: Store, t: Store, i: nat)
    requires GoodAt(s, 0) && GoodAt(t, i) && SameOutside(s, t, i)
    requires forall k: nat :: !Desc(i, k) && !Desc(k, i) ==> SizeAt(s, k) == SizeAt(t, k)
    requires forall k: nat :: Desc(k, i) && k != i ==>
      SizeAt(t, k) == SizeAt(s, k) - TSize(Abs(s, i)) + TSize(Abs(t, i))
    requires forall k: nat :: Desc(k, i) && k != i ==> ElemAt(s, k).Some?
    requires i != 0 && ElemAt(t, i).Some? ==> ElemAt(s, (i - 1) / 2).Some?
    ensures GoodAt(t, 0)
  {
    if i != 0 {
      NotDescOfSmaller(i, (i - 1) / 2);
    }
    forall k: nat | Desc(0, k)
      ensures SizeAt(t, k) == TSize(Abs(t, k))
      ensures k != 0 && ElemAt(t, k).Some? ==> ElemAt(t, (k - 1) / 2).Some?
    {
      if Desc(i, k) {
        SpliceInside(t, i, k);
      } else if Desc(k, i) {
        SpliceAbove(s, t, i, k);
      } else {
        SpliceBeside(s, t, i, k);
      }
    }
  }

  /** A slot of the changed subtree keeps its size right and its parent occupied. */
  lemma SpliceInside(t: Store, i: nat, k: nat)
    requires Desc(i, k) && GoodAt(t, i)
    requires i != 0 && ElemAt(t, i).Some? ==> ElemAt(t, (i - 1) / 2).Some?
    ensures SizeAt(t, k) == TSize(Abs(t, k))
    ensures k != 0 && ElemAt(t, k).Some? ==> ElemAt(t, (k - 1) / 2).Some?
  {
    if k != i {
      DescBelow(i, k);
      assert Desc(i, (k - 1) / 2);
    }
  }

  /** An ancestor of the changed subtree keeps its size right and its parent occupied. */
  lemma SpliceAbove(s: Store, t: Store, i: nat, k: nat)
    requires Desc(k, i) && !Desc(i, k)
    requires GoodAt(s, 0) && GoodAt(t, i) && SameOutside(s, t, i)
    requires forall k: nat :: Desc(k, i) && k != i ==>
      SizeAt(t, k) == SizeAt(s, k) - TSize(Abs(s, i)) + TSize(Abs(t, i))
    requires forall k: nat :: Desc(k, i) && k != i ==> ElemAt(s, k).Some?
    ensures SizeAt(t, k) == TSize(Abs(t, k))
    ensures k != 0 && ElemAt(t, k).Some? ==> ElemAt(t, (k - 1) / 2).Some?
  {
    forall m: nat | Desc(k, m) && Desc(m, i) && m != i
      ensures ElemAt(s, m).Some?
    {
    }
    DescRoot(k);
    Splice(s, t, i, k);
    if k != 0 {
      DescBelow(k, i);
      NotDescOfSmaller(i, (k - 1) / 2);
    }
  }

  /** A slot related to the changed subtree in neither direction keeps its subtree. */
  lemma SpliceBeside(s: Store, t: Store, i: nat, k: nat)
    requires !Desc(k, i) && !Desc(i, k)
    requires GoodAt(s, 0) && SameOutside(s, t, i)
    requires forall k: nat :: !Desc(i, k) && !Desc(k, i) ==> SizeAt(s, k) == SizeAt(t, k)
    ensures SizeAt(t, k) == TSize(Abs(t, k))
    ensures k != 0 && ElemAt(t, k).Some? ==> ElemAt(t, (k - 1) / 2).Some?
  {
    forall m: nat | Desc(k, m)
      ensures ElemAt(s, m) == ElemAt(t, m)
    {
      if Desc(i, m) {
        DescChain(i, k, m);
      }
    }
    AbsFrame(s, t, k);
    DescRoot(k);
  }

  /** Below occupied ancestors, a subtree of a search tree is a search tree whose
      values are among the ancestor's. */
  lemma {:induction false} OrderedSub(s: Store, i: nat, j: nat)
    requires Desc(j, i) && IsBst(Abs(s, j))
    requires forall k: nat :: Desc(j, k) && Desc(k, i) && k != i ==> ElemAt(s, k).Some?
    ensures IsBst(Abs(s, i)) && Elems(Abs(s, i)) <= Elems(Abs(s, j))
    decreases i - j
  {
    if j != i {
      DescBelow(j, i);
      assert ElemAt(s, j).Some?;
      DescStep(j, i);
      var c := if Desc(2 * j + 1, i) then 2 * j + 1 else 2 * j + 2;
      forall k: nat | Desc(c, k) && Desc(k, i) && k != i
        ensures ElemAt(s, k).Some?
      {
        DescChildren(j, j);
        DescTrans(j, c, k);
      }
      OrderedSub(s, i, c);
    }
  }

  /** A path of occupied slots from `j` down to `i` is shorter than the number of
      values below `j`. */
  lemma {:induction false} PathLength(s: Store, i: nat, j: nat)
    requires Desc(j, i) && ElemAt(s, i).Some?
    requires forall k: nat :: Desc(j, k) && Desc(k, i) ==> ElemAt(s, k).Some?
    ensures Level(i) - Level(j) < TSize(Abs(s, j))
    decreases i - j
  {
    assert Desc(i, i);
    assert ElemAt(s, j).Some?;
    if j != i {
      DescBelow(j, i);
      DescStep(j, i);
      var c := if Desc(2 * j + 1, i) then 2 * j + 1 else 2 * j + 2;
      forall k: nat | Desc(c, k) && Desc(k, i)
        ensures ElemAt(s, k).Some?
      {
        DescChildren(j, j);
        DescTrans(j, c, k);
      }
      PathLength(s, i, c);
      assert (c - 1) / 2 == j;
      assert Level(c) == Level(j) + 1;
    }
  }
}
