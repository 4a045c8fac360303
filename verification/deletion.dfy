/** Deletion. The corrected operation removes the found value the way a search tree
    does: with no left subtree, the right subtree moves up one level into its place;
    otherwise the largest value of the left subtree takes its place and that value's
    own left subtree moves up one level. Every ancestor of the vacated position
    counts one value fewer. The source's operation is modelled as written next to it. */
module Deletion {
  import opened Wrappers
  import opened Implicit
  import opened Bst
  import opened Storage
  import opened Subtrees
  import opened Navigation
  import opened Relocation
  import opened Rotation

  datatype DeleteError = SlotOutOfBounds(index: int)

  // ---------------------------------------------------------------------------
  // Lifting a subtree one level

  /** One value fewer below every strict ancestor of `p`. */
  function DiscountAbove(s: Store, p: nat): (t: Store)
    requires Valid(s) && p < |s.elems|
    ensures Valid(t) && |t.elems| == |s.elems| && t.weightFactor == s.weightFactor
    ensures forall k: nat :: ElemAt(t, k) == ElemAt(s, k)
    ensures forall k: nat :: SizeAt(t, k) == SizeAt(s, k) - (if Desc(k, p) && k != p then 1 else 0)
  {
    forall k: nat | Desc(k, p)
      ensures k < |s.elems|
    {
      DescBelow(k, p);
    }
    s.(sizes := seq(|s.sizes|, k requires 0 <= k < |s.sizes| =>
      if Desc(k, p) && k != p then s.sizes[k] - 1 else s.sizes[k]))
  }

  /** Relocating towards the root never reads a slot before the one it writes. */
  lemma {:induction false} TranslateUp(b: nat, a: nat, k: nat)
    requires b <= a && Desc(b, k)
    ensures k <= Translate(b, a, k)
    decreases k
  {
    if k != b {
      TranslateUp(b, a, (k - 1) / 2);
    }
  }

  /** A relocation towards the root always fits. */
  lemma FitsUp(s: Store, a: nat, b: nat)
    requires b <= a
    ensures Fits(s, a, b)
  {
    forall m: nat | Desc(b, m) && m >= |s.elems|
      ensures ElemAt(s, Translate(b, a, m)) == None
    {
      TranslateUp(b, a, m);
    }
  }

  lemma DescAntisym(a: nat, b: nat)
    requires Desc(a, b) && Desc(b, a)
    ensures a == b
  {
    DescBelow(a, b);
    DescBelow(b, a);
  }

  /** Removing the occupied slot `p` whose other child is empty: the subtree of its
      child `c` moves up into its place. The encoded subtree at `p` becomes the one
      that was at `c`, nothing outside the subtree of `p` changes, one value is gone,
      and the invariant holds. */
  function Lift(s: Store, p: nat, c: nat): (t: Store)
    requires Inv(s) && ElemAt(s, p).Some? && (c == 2 * p + 1 || c == 2 * p + 2)
    requires ElemAt(s, 4 * p + 3 - c).None?
    ensures Inv(t) && |t.elems| == |s.elems| && t.weightFactor == s.weightFactor
    ensures Abs(t, p) == Abs(s, c) && SameOutside(s, t, p)
    ensures TSize(Abs(t, 0)) == TSize(Abs(s, 0)) - 1
  {
    var m := Move(s, c, p);
    var t := DiscountAbove(m, p);
    LiftShape(s, m, t, p, c);
    LiftGood(s, t, p, c);
    t
  }

  lemma LiftShape(s: Store, m: Store, t: Store, p: nat, c: nat)
    requires Valid(s) && (c == 2 * p + 1 || c == 2 * p + 2) && m == Move(s, c, p)
    requires Valid(t) && |t.elems| == |m.elems|
    requires forall k: nat :: ElemAt(t, k) == ElemAt(m, k)
    requires forall k: nat :: SizeAt(t, k) == SizeAt(m, k) - (if Desc(k, p) && k != p then 1 else 0)
    ensures Copies(s, t, c, p) && (p < |t.elems| ==> SizeAt(t, p) == SizeAt(s, c))
    ensures SameOutside(s, t, p)
    ensures forall k: nat :: !Desc(p, k) ==> SizeAt(t, k) == SizeAt(s, k) - (if Desc(k, p) then 1 else 0)
  {
    DescChildren(p, p);
    FitsUp(s, c, p);
    forall x: nat {:trigger ElemAt(t, x)} | Desc(p, x)
      ensures ElemAt(t, x) == ElemAt(s, Translate(p, c, x))
    {
      MoveSlot(s, c, p, x);
    }
    forall x: nat {:trigger SizeAt(t, x)} | Desc(p, x) && x < |t.elems|
      ensures SizeAt(t, x) == SizeAt(s, Translate(p, c, x))
    {
      MoveSlot(s, c, p, x);
      if Desc(x, p) {
        DescAntisym(p, x);
      }
    }
    forall k: nat | !Desc(p, k)
      ensures ElemAt(t, k) == ElemAt(s, k)
      ensures SizeAt(t, k) == SizeAt(s, k) - (if Desc(k, p) then 1 else 0)
    {
      if Desc(c, k) {
        DescTrans(p, c, k);
      }
      MoveSlot(s, c, p, k);
    }
  }

  lemma LiftGood(s: Store, t: Store, p: nat, c: nat)
    requires Inv(s) && ElemAt(s, p).Some? && (c == 2 * p + 1 || c == 2 * p + 2)
    requires ElemAt(s, 4 * p + 3 - c).None?
    requires Valid(t) && |t.elems| == |s.elems|
    requires Copies(s, t, c, p) && SizeAt(t, p) == SizeAt(s, c)
    requires SameOutside(s, t, p)
    requires forall k: nat :: !Desc(p, k) ==> SizeAt(t, k) == SizeAt(s, k) - (if Desc(k, p) then 1 else 0)
    ensures Inv(t) && Abs(t, p) == Abs(s, c) && TSize(Abs(t, 0)) == TSize(Abs(s, 0)) - 1
  {
    DescRoot(c);
    DescRoot(p);
    GoodSub(s, 0, c);
    GoodTranslate(s, t, c, p);
    OneChildSize(s, p, c);
    forall k: nat | Desc(k, p) && k != p
      ensures ElemAt(s, k).Some?
    {
      AncestorsOccupied(s, p, k);
    }
    forall k: nat | Desc(k, p) && k != p
      ensures !Desc(p, k)
    {
      if Desc(p, k) {
        DescAntisym(p, k);
      }
    }
    GoodSplice(s, t, p);
    Splice(s, t, p, 0);
  }

  /** An occupied slot with one empty child holds one value more than its other child. */
  lemma OneChildSize(s: Store, p: nat, c: nat)
    requires ElemAt(s, p).Some? && (c == 2 * p + 1 || c == 2 * p + 2)
    requires ElemAt(s, 4 * p + 3 - c).None?
    ensures TSize(Abs(s, p)) == TSize(Abs(s, c)) + 1
  {
    AbsNode(s, p);
    if c == 2 * p + 1 {
      assert Abs(s, 2 * p + 2) == Leaf;
    } else {
      assert Abs(s, 2 * p + 1) == Leaf;
    }
  }

  // ---------------------------------------------------------------------------
  // The largest value of a subtree

  /** The slot of the largest value below the occupied slot `j`: follow right children. */
  function MaxSlot(s: Store, j: nat): (m: nat)
    requires ElemAt(s, j).Some?
    ensures Desc(j, m) && ElemAt(s, m).Some? && ElemAt(s, 2 * m + 2).None?
    decreases |s.elems| - j
  {
    if ElemAt(s, 2 * j + 2).Some? then
      var m := MaxSlot(s, 2 * j + 2);
      DescChildren(j, j);
      DescTrans(j, 2 * j + 2, m);
      m
    else j
  }

  /** Replacing the subtree at the largest slot by its left subtree removes the
      largest value from every subtree on the right spine above it. */
  lemma {:induction false} RemoveMaxAt(s: Store, t: Store, j: nat, m: nat)
    requires ElemAt(s, j).Some? && m == MaxSlot(s, j)
    requires SameOutside(s, t, m)
    requires Abs(t, m) == Abs(s, 2 * m + 1)
    ensures Abs(t, j) == RemoveMax(Abs(s, j)) && Max(Abs(s, j)) == ElemAt(s, m).value
    decreases |s.elems| - j
  {
    AbsNode(s, j);
    if ElemAt(s, 2 * j + 2).Some? {
      assert MaxSlot(s, 2 * j + 2) == m;
      RemoveMaxAt(s, t, 2 * j + 2, m);
      SiblingUntouched(s, t, j, 2 * j + 2, 2 * j + 1, m);
      AbsNode(t, j);
      AbsNode(s, 2 * j + 2);
      var l, v, r := Abs(s, 2 * j + 1), ElemAt(s, j).value, Abs(s, 2 * j + 2);
      assert RemoveMax(Node(l, v, r)) == Node(l, v, RemoveMax(r));
      assert Max(Node(l, v, r)) == Max(r);
    } else {
      assert m == j && Abs(s, 2 * j + 2) == Leaf;
    }
  }

  // ---------------------------------------------------------------------------
  // The descent and the removed node

  /** Replacing the subtree at the slot where the descent finds `x` by the root
      deletion of that subtree turns the encoded subtree into its search-tree
      deletion of `x`. */
  lemma {:induction false} ReplaceAtFind(s: Store, t: Store, x: int, i: nat, r: nat)
    requires r == FindFrom(s, x, i) && ElemAt(s, r) == Some(x)
    requires SameOutside(s, t, r) && Abs(s, r).Node? && Abs(t, r) == DeleteRoot(Abs(s, r))
    ensures Abs(t, i) == Bst.Delete(Abs(s, i), x)
    decreases |s.elems| - i
  {
    AbsNode(s, i);
    if r != i {
      var u := ElemAt(s, i).value;
      var c, o := if x < u then 2 * i + 1 else 2 * i + 2, if x < u then 2 * i + 2 else 2 * i + 1;
      assert FindFrom(s, x, c) == r;
      ReplaceAtFind(s, t, x, c, r);
      assert Desc(c, r);
      SiblingUntouched(s, t, i, c, o, r);
      AbsNode(t, i);
    }
  }

  /** Search-tree deletion of a value the descent does not find changes nothing. */
  lemma {:induction false} DeleteMissing(t: Tree, x: int)
    requires !Bst.Contains(t, x)
    ensures Bst.Delete(t, x) == t
  {
    match t
    case Leaf =>
    case Node(l, u, r) =>
      if x < u {
        DeleteMissing(l, x);
      } else {
        DeleteMissing(r, x);
      }
  }

  /** Buffers with the same occupied slots encode trees of the same sizes. */
  lemma {:induction false} SameShapeSize(a: Store, b: Store, k: nat)
    requires |a.elems| == |b.elems|
    requires forall m: nat :: ElemAt(a, m).Some? <==> ElemAt(b, m).Some?
    ensures TSize(Abs(a, k)) == TSize(Abs(b, k))
    decreases |a.elems| - k
  {
    if ElemAt(a, k).Some? {
      SameShapeSize(a, b, 2 * k + 1);
      SameShapeSize(a, b, 2 * k + 2);
      AbsNode(a, k);
      AbsNode(b, k);
    }
  }

  /** Changing the value of an occupied slot keeps the structural invariant. */
  lemma Relabel(a: Store, b: Store, r: nat)
    requires Inv(a) && Valid(b) && |b.elems| == |a.elems| && ElemAt(a, r).Some? && ElemAt(b, r).Some?
    requires forall m: nat :: m != r ==> ElemAt(b, m) == ElemAt(a, m)
    requires forall m: nat :: SizeAt(b, m) == SizeAt(a, m)
    ensures Inv(b) && TSize(Abs(b, 0)) == TSize(Abs(a, 0))
  {
    forall k: nat | Desc(0, k)
      ensures SizeAt(b, k) == TSize(Abs(b, k))
    {
      SameShapeSize(a, b, k);
    }
    SameShapeSize(a, b, 0);
  }

  // ---------------------------------------------------------------------------
  // Deletion, corrected

  /** The found value has a left subtree: its largest value takes the found slot and
      its own left subtree moves up. The encoded subtree at the found slot becomes
      the root deletion of the old one. */
  function ReplaceByMax(s: Store, r: nat): (t: Store)
    requires Inv(s) && ElemAt(s, r).Some? && ElemAt(s, 2 * r + 1).Some?
    ensures Inv(t) && |t.elems| == |s.elems| && t.weightFactor == s.weightFactor
    ensures SameOutside(s, t, r) && Abs(s, r).Node? && Abs(t, r) == DeleteRoot(Abs(s, r))
    ensures TSize(Abs(t, 0)) == TSize(Abs(s, 0)) - 1
  {
    var m := MaxSlot(s, 2 * r + 1);
    assert 4 * m + 3 - (2 * m + 1) == 2 * m + 2;
    var t1 := Lift(s, m, 2 * m + 1);
    var t := WriteSlot(t1, r, ElemAt(s, m));
    ReplaceByMaxCorrect(s, t1, t, r, m);
    t
  }

  lemma ReplaceByMaxCorrect(s: Store, t1: Store, t: Store, r: nat, m: nat)
    requires Inv(s) && ElemAt(s, r).Some? && ElemAt(s, 2 * r + 1).Some? && m == MaxSlot(s, 2 * r + 1)
    requires Inv(t1) && |t1.elems| == |s.elems| && Abs(t1, m) == Abs(s, 2 * m + 1) && SameOutside(s, t1, m)
    requires TSize(Abs(t1, 0)) == TSize(Abs(s, 0)) - 1
    requires Valid(t) && |t.elems| == |t1.elems| && ElemAt(t, r) == ElemAt(s, m)
    requires forall k: nat :: k != r ==> ElemAt(t, k) == ElemAt(t1, k)
    requires forall k: nat :: SizeAt(t, k) == SizeAt(t1, k)
    ensures Inv(t) && TSize(Abs(t, 0)) == TSize(Abs(s, 0)) - 1
    ensures SameOutside(s, t, r) && Abs(s, r).Node? && Abs(t, r) == DeleteRoot(Abs(s, r))
  {
    DescChildren(r, r);
    DescTrans(r, 2 * r + 1, m);
    DescBelow(2 * r + 1, m);
    NotDescOfSmaller(m, r);
    assert ElemAt(t1, r) == ElemAt(s, r);
    Relabel(t1, t, r);
    RemoveMaxAt(s, t1, 2 * r + 1, m);
    ReplaceByMaxShape(s, t1, t, r, m);
  }

  lemma ReplaceByMaxShape(s: Store, t1: Store, t: Store, r: nat, m: nat)
    requires Desc(2 * r + 1, m) && ElemAt(s, r).Some? && ElemAt(s, 2 * r + 1).Some? && ElemAt(t, r) == ElemAt(s, m)
    requires ElemAt(s, m).Some?
    requires SameOutside(s, t1, m) && forall k: nat :: k != r ==> ElemAt(t, k) == ElemAt(t1, k)
    requires Abs(t1, 2 * r + 1) == RemoveMax(Abs(s, 2 * r + 1))
    requires Max(Abs(s, 2 * r + 1)) == ElemAt(s, m).value
    ensures SameOutside(s, t, r) && Abs(s, r).Node? && Abs(t, r) == DeleteRoot(Abs(s, r))
  {
    DescChildren(r, r);
    DescTrans(r, 2 * r + 1, m);
    forall k: nat | !Desc(r, k)
      ensures ElemAt(s, k) == ElemAt(t, k)
    {
      if Desc(m, k) {
        DescTrans(r, m, k);
      }
    }
    forall k: nat | Desc(2 * r + 1, k)
      ensures ElemAt(t, k) == ElemAt(t1, k)
    {
      DescBelow(2 * r + 1, k);
    }
    AbsFrame(t, t1, 2 * r + 1);
    forall k: nat | Desc(2 * r + 2, k)
      ensures ElemAt(t, k) == ElemAt(s, k)
    {
      DescBelow(2 * r + 2, k);
      OutsideSibling(r, m, 2 * r + 1, 2 * r + 2, k);
    }
    AbsFrame(t, s, 2 * r + 2);
    AbsNode(t, r);
    AbsNode(s, r);
    AbsNode(s, 2 * r + 1);
  }

  /** `delete`, corrected: removes `x` when the descent finds it and reports whether
      the tree changed. The encoded tree becomes the search-tree deletion of `x`. */
  function Delete(s: Store, x: int): (r: (Store, bool))
    requires Inv(s)
    ensures Inv(r.0) && |r.0.elems| == |s.elems| && r.0.weightFactor == s.weightFactor
    ensures !r.1 ==> r.0 == s
    ensures Abs(r.0, 0) == Bst.Delete(Abs(s, 0), x)
    ensures r.1 <==> Bst.Contains(Abs(s, 0), x)
    ensures TSize(Abs(r.0, 0)) == TSize(Abs(s, 0)) - (if r.1 then 1 else 0)
  {
    var i := FindIndex(s, x);
    FindFromRefines(s, x, 0);
    if ElemAt(s, i) != Some(x) then
      DeleteMissing(Abs(s, 0), x);
      (s, false)
    else
      var t := if ElemAt(s, 2 * i + 1).None? then Lift(s, i, 2 * i + 2) else ReplaceByMax(s, i);
      AbsNode(s, i);
      ReplaceAtFind(s, t, x, 0, i);
      (t, true)
  }

  /** On a search tree the corrected deletion keeps the order and removes exactly `x`. */
  lemma DeleteCorrectOrdered(s: Store, x: int)
    requires Inv(s) && Ordered(s)
    ensures Ordered(Delete(s, x).0)
    ensures Elems(Abs(Delete(s, x).0, 0)) == Elems(Abs(s, 0)) - {x}
    ensures Delete(s, x).1 <==> x in Elems(Abs(s, 0))
  {
    DeleteCorrect(Abs(s, 0), x);
    ContainsCorrect(Abs(s, 0), x);
  }

  // ---------------------------------------------------------------------------
  // Deletion as written

  /** The first loop of `delete` as written: while the recorded size at `i` is not
      zero, a slot of size one is emptied, and otherwise the child with the larger
      recorded size (the right one on a tie) moves its value up and `i` follows it.
      Reading a size past the end of the buffer fails. The subtrees below the moved
      values stay where they are. */
  function PromoteAsWritten(s: Store, i: nat): (r: Result<(Store, nat), DeleteError>)
    requires Valid(s)
    ensures r.Success? ==>
      && Valid(r.value.0) && |r.value.0.elems| == |s.elems| && r.value.0.weightFactor == s.weightFactor
      && r.value.1 < |s.elems|
    decreases |s.elems| - i
  {
    if i >= |s.elems| then Failure(SlotOutOfBounds(i))
    else if s.sizes[i] == 0 then Success((s, i))
    else if s.sizes[i] == 1 then Success((s.(elems := s.elems[i := None], sizes := s.sizes[i := 0]), i))
    else if 2 * i + 1 >= |s.elems| then Failure(SlotOutOfBounds(2 * i + 1))
    else if 2 * i + 2 >= |s.elems| then Failure(SlotOutOfBounds(2 * i + 2))
    else
      var c := if s.sizes[2 * i + 1] > s.sizes[2 * i + 2] then 2 * i + 1 else 2 * i + 2;
      PromoteAsWritten(s.(elems := s.elems[i := s.elems[c]][c := None]), c)
  }

  /** The second loop of `delete` as written: from the slot where the first loop
      stopped up to the root, record one plus the two children's recorded sizes.
      Reading a size past the end of the buffer fails. */
  function RecountAsWritten(s: Store, i: int): (r: Result<Store, DeleteError>)
    requires Valid(s) && i < |s.elems|
    ensures r.Success? ==>
      Valid(r.value) && r.value.elems == s.elems && r.value.weightFactor == s.weightFactor
    decreases i + 1
  {
    if i < 0 then Success(s)
    else if 2 * i + 1 >= |s.elems| then Failure(SlotOutOfBounds(2 * i + 1))
    else if 2 * i + 2 >= |s.elems| then Failure(SlotOutOfBounds(2 * i + 2))
    else RecountAsWritten(s.(sizes := s.sizes[i := s.sizes[2 * i + 1] + s.sizes[2 * i + 2] + 1]), Parent(i))
  }

  /** `delete` as written. */
  function DeleteAsWritten(s: Store, x: int): (r: Result<(Store, bool), DeleteError>)
    requires Valid(s)
    ensures r.Success? && !r.value.1 ==> r.value.0 == s && !Bst.Contains(Abs(s, 0), x)
    ensures r.Success? ==> |r.value.0.elems| == |s.elems|
  {
    var i := FindIndex(s, x);
    FindFromRefines(s, x, 0);
    if i >= |s.elems| || s.elems[i].None? || s.elems[i].value != x then Success((s, false))
    else match PromoteAsWritten(s, i)
      case Failure(e) => Failure(e)
      case Success((t, j)) =>
        match RecountAsWritten(t, j)
        case Failure(e) => Failure(e)
        case Success(u) => Success((u, true))
  }

  /** Deleting 10 from the search tree 10, 5, 15, 3, 7 in a buffer of 16: the heavier
      left child 5 moves up, then its right child 7 (on the tie with 3) moves into the
      left child's slot, leaving 7 to the left of 5. The result is not a search tree
      and the root still records five values for four. The corrected deletion keeps
      the order and removes exactly 10. */
  lemma DeleteAsWrittenBreaksOrder()
    ensures var s := Example();
      && Inv(s) && Ordered(s)
      && DeleteAsWritten(s, 10) == Success((ExampleAfter(), true))
      && !Ordered(ExampleAfter()) && SizeAt(ExampleAfter(), 0) == 5 && TSize(Abs(ExampleAfter(), 0)) == 4
  {
    var s := Example();
    ExampleGood();
    ExamplePromote();
    ExampleRecount();
    ExampleAfterTree();
    assert FindFrom(s, 10, 0) == 0;
  }

  /** The buffer after the first loop of `delete` as written on the example. */
  function ExamplePromoted(): Store
  {
    Store([Some(5), Some(7), Some(15), Some(3), None] + seq(11, _ => None),
          [5, 3, 1, 1, 0] + seq(11, _ => 0), 3)
  }

  /** The buffer after the second loop. */
  function ExampleAfter(): Store
  {
    Store([Some(5), Some(7), Some(15), Some(3), None] + seq(11, _ => None),
          [5, 3, 1, 1, 1] + seq(11, _ => 0), 3)
  }

  lemma ExamplePromote()
    ensures Valid(Example())
    ensures PromoteAsWritten(Example(), 0) == Success((ExamplePromoted(), 4))
  {
    var s := Example();
    ExampleGood();
    var s1 := s.(elems := s.elems[0 := s.elems[1]][1 := None]);
    var s2 := s1.(elems := s1.elems[1 := s1.elems[4]][4 := None]);
    var s3 := s2.(elems := s2.elems[4 := None], sizes := s2.sizes[4 := 0]);
    assert s3.elems == ExamplePromoted().elems;
    assert s3.sizes == ExamplePromoted().sizes;
    assert PromoteAsWritten(s2, 4) == Success((s3, 4));
    assert PromoteAsWritten(s1, 1) == PromoteAsWritten(s2, 4);
  }

  lemma ExampleRecount()
    ensures Valid(ExamplePromoted())
    ensures RecountAsWritten(ExamplePromoted(), 4) == Success(ExampleAfter())
  {
    ExampleGood();
    var s := ExamplePromoted();
    var u1 := s.(sizes := s.sizes[4 := 1]);
    var u2 := u1.(sizes := u1.sizes[1 := 3]);
    var u3 := u2.(sizes := u2.sizes[0 := 5]);
    assert u3.sizes == ExampleAfter().sizes by {
      forall k | 0 <= k < 16
        ensures u3.sizes[k] == ExampleAfter().sizes[k]
      {
        if k >= 5 {
          assert u3.sizes[k] == s.sizes[k];
        }
      }
    }
    assert Parent(0) == -1 && Parent(1) == 0 && Parent(4) == 1;
    assert RecountAsWritten(u3, -1) == Success(u3);
    assert RecountAsWritten(u2, 0) == Success(u3);
    assert RecountAsWritten(u1, 1) == Success(u3);
  }

  lemma ExampleAfterTree()
    ensures Abs(ExampleAfter(), 0) == Node(Node(Node(Leaf, 3, Leaf), 7, Leaf), 5, Node(Leaf, 15, Leaf))
    ensures !Ordered(ExampleAfter())
  {
    var u := ExampleAfter();
    assert Abs(u, 3) == Node(Leaf, 3, Leaf);
    assert Abs(u, 4) == Leaf;
    assert Abs(u, 1) == Node(Node(Leaf, 3, Leaf), 7, Leaf);
    assert Abs(u, 2) == Node(Leaf, 15, Leaf);
    AbsNode(u, 0);
    assert 7 in Elems(Abs(u, 1));
  }

  /** The five-value search tree 10, 5, 15, 3, 7 in a buffer of 16 slots. */
  function Example(): Store
  {
    Store([Some(10), Some(5), Some(15), Some(3), Some(7)] + seq(11, _ => None),
          [5, 3, 1, 1, 1] + seq(11, _ => 0), 3)
  }

  lemma ExampleGood()
    ensures Inv(Example()) && Ordered(Example())
    ensures Abs(Example(), 0) == Node(Node(Node(Leaf, 3, Leaf), 5, Node(Leaf, 7, Leaf)), 10, Node(Leaf, 15, Leaf))
  {
    ExampleShape();
    var a, b, r := Node(Leaf, 3, Leaf), Node(Leaf, 7, Leaf), Node(Leaf, 15, Leaf);
    assert Elems(a) == {3} && Elems(b) == {7} && Elems(r) == {15};
    var l := Node(a, 5, b);
    assert IsBst(l);
    assert Elems(l) == {3, 5, 7};
    assert IsBst(Node(l, 10, r));
  }

  /** The example buffer is valid and encodes the intended tree. */
  lemma ExampleShape()
    ensures Inv(Example())
    ensures Abs(Example(), 0) == Node(Node(Node(Leaf, 3, Leaf), 5, Node(Leaf, 7, Leaf)), 10, Node(Leaf, 15, Leaf))
  {
    var s := Example();
    assert IsPow2(16) by {
      assert IsPow2(8) by { assert IsPow2(4) by { assert IsPow2(2); } }
    }
    forall k | 0 <= k < |s.elems|
      ensures SizeOkAt(s, k)
    {
      if k >= 5 {
        assert s.elems[k] == None && s.sizes[k] == 0;
      } else {
        assert 2 * k + 2 < 16;
      }
    }
    forall k | 0 < k < |s.elems|
      ensures ParentOccupied(s, k)
    {
    }
    assert SizeRecurrence(s) && NoOrphans(s);
    InvIsLocal(s);
    assert Abs(s, 3) == Node(Leaf, 3, Leaf);
    assert Abs(s, 4) == Node(Leaf, 7, Leaf);
    assert Abs(s, 2) == Node(Leaf, 15, Leaf);
  }

  /** Deleting the only value of a one-slot buffer: the first loop empties slot 0,
      then the second loop reads the recorded size of slot 1, past the end. The
      corrected deletion leaves an empty tree. */
  lemma DeleteAsWrittenReadsPastEnd()
    ensures var s := Store([Some(5)], [1], 3);
      && Inv(s)
      && DeleteAsWritten(s, 5) == Failure(SlotOutOfBounds(1))
      && Delete(s, 5).1 && Abs(Delete(s, 5).0, 0) == Leaf
  {
    var s := Store([Some(5)], [1], 3);
    assert IsPow2(|s.elems|);
    assert SizeOkAt(s, 0);
    InvIsLocal(s);
    assert FindFrom(s, 5, 0) == 0;
    assert Abs(s, 0) == Node(Leaf, 5, Leaf);
  }
}
