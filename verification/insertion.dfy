/** Insertion: locate the slot by the search descent, grow the buffer when that slot
    lies past its end, store the value, count it in the recorded size of every slot
    on the path from the root, and rebalance from the root. */
module Insertion {
  import opened Wrappers
  import opened Implicit
  import opened Bst
  import opened Storage
  import opened Subtrees
  import opened Navigation
  import opened Rotation
  import opened Balance

  datatype InsertError = IndexOutOfBounds(index: int)

  // ---------------------------------------------------------------------------
  // Growth and the size walk

  /** Doubling until slot `r` lies inside the buffer; every slot is kept. */
  function GrowUntil(s: Store, r: nat): (g: Store)
    requires Valid(s)
    ensures Valid(g) && r < |g.elems| && |g.elems| >= |s.elems| && g.weightFactor == s.weightFactor
    ensures forall k: nat :: ElemAt(g, k) == ElemAt(s, k) && SizeAt(g, k) == SizeAt(s, k)
    ensures r < 2 * |s.elems| ==> |g.elems| <= 2 * |s.elems|
    decreases r + 1 - |s.elems|
  {
    if r < |s.elems| then s else GrowUntil(Grow(s), r)
  }

  /** One more value below every slot on the path from the root down to `r`. */
  function CountPath(s: Store, r: nat): (t: Store)
    requires Valid(s) && r < |s.elems|
    ensures Valid(t) && |t.elems| == |s.elems| && t.weightFactor == s.weightFactor
    ensures forall k: nat :: ElemAt(t, k) == ElemAt(s, k)
    ensures forall k: nat :: SizeAt(t, k) == SizeAt(s, k) + (if Desc(k, r) then 1 else 0)
  {
    var sizes := seq(|s.sizes|, k requires 0 <= k < |s.sizes| =>
      if Desc(k, r) then s.sizes[k] + 1 else s.sizes[k]);
    var t := s.(sizes := sizes);
    forall k: nat | Desc(k, r)
      ensures k < |s.elems|
    {
      DescBelow(k, r);
    }
    t
  }

  /** The size walk of `insert` as a loop: add one to the recorded size at `index`,
      step by the source's parent formula, and stop once it yields -1 at the root. It counts the value exactly on
      the path from the root. */
  method CountAncestors(s: Store, index: nat) returns (t: Store)
    requires Valid(s) && index < |s.elems|
    ensures t == CountPath(s, index)
  {
    var i: int := index;
    t := s;
    while i >= 0
      invariant -1 <= i <= index
      invariant i >= 0 ==> Desc(i, index)
      invariant Valid(t) && t.elems == s.elems && t.weightFactor == s.weightFactor
      invariant forall k: nat ::
        SizeAt(t, k) == SizeAt(s, k) + (if Desc(k, index) && (i < 0 || !Desc(k, i)) then 1 else 0)
      decreases i + 1
    {
      var p := Parent(i);
      if i > 0 {
        ParentOfChildren(i);
        assert Desc(p, i);
        DescTrans(p, i, index);
        NotDescOfSmaller(i, p);
        forall k: nat | k != i && Desc(k, p)
          ensures Desc(k, i)
        {
          DescTrans(k, p, i);
        }
      } else {
        DescRoot(index);
      }
      t := t.(sizes := t.sizes[i := t.sizes[i] + 1]);
      i := p;
    }
    SlotsEqual(t, CountPath(s, index));
  }

  /** Stores that agree on every slot and every size, with the same capacity and
      weight factor, are equal. */
  lemma SlotsEqual(a: Store, b: Store)
    requires Valid(a) && Valid(b) && |a.elems| == |b.elems| && a.weightFactor == b.weightFactor
    requires forall k: nat :: ElemAt(a, k) == ElemAt(b, k) && SizeAt(a, k) == SizeAt(b, k)
    ensures a == b
  {
    assert a.elems == b.elems by {
      forall k | 0 <= k < |a.elems|
        ensures a.elems[k] == b.elems[k]
      {
        assert ElemAt(a, k) == ElemAt(b, k);
      }
    }
    assert a.sizes == b.sizes by {
      forall k | 0 <= k < |a.sizes|
        ensures a.sizes[k] == b.sizes[k]
      {
        assert SizeAt(a, k) == SizeAt(b, k);
      }
    }
  }

  // ---------------------------------------------------------------------------
  // The descent and the new leaf

  /** The search descent depends only on the slots, not on the capacity. */
  lemma {:induction false} FindFromFrame(s: Store, g: Store, v: int, i: nat)
    requires forall k: nat :: ElemAt(g, k) == ElemAt(s, k)
    ensures FindFrom(g, v, i) == FindFrom(s, v, i)
    decreases |s.elems| - i
  {
    assert ElemAt(g, i) == ElemAt(s, i);
    if ElemAt(s, i).Some? && v != ElemAt(s, i).value {
      FindFromFrame(s, g, v, if v < ElemAt(s, i).value then 2 * i + 1 else 2 * i + 2);
    }
  }

  /** The descent only passes through occupied slots, so the slot it stops at hangs
      below an occupied one unless it is the start. */
  lemma {:induction false} FindFromParent(s: Store, v: int, i: nat)
    ensures FindFrom(s, v, i) != i ==> ElemAt(s, (FindFrom(s, v, i) - 1) / 2).Some?
    decreases |s.elems| - i
  {
    if i < |s.elems| && s.elems[i].Some? && v != s.elems[i].value {
      var c := if v < s.elems[i].value then 2 * i + 1 else 2 * i + 2;
      FindFromParent(s, v, c);
      assert (c - 1) / 2 == i;
    }
  }

  /** Writing `v` into the empty slot the descent stops at, with both of that slot's
      children empty, turns the encoded subtree into its search-tree insertion. */
  lemma {:induction false} WriteAtFind(s: Store, w: Store, v: int, i: nat, r: nat)
    requires r == FindFrom(s, v, i)
    requires ElemAt(s, r) == None && ElemAt(w, r) == Some(v)
    requires forall k: nat :: k != r ==> ElemAt(w, k) == ElemAt(s, k)
    requires ElemAt(s, 2 * r + 1) == None && ElemAt(s, 2 * r + 2) == None
    ensures Abs(w, i) == Bst.Insert(Abs(s, i), v)
    decreases |s.elems| - i
  {
    if r == i {
      assert ElemAt(w, 2 * i + 1) == None && ElemAt(w, 2 * i + 2) == None by {
        assert 2 * i + 1 != r && 2 * i + 2 != r;
      }
      AbsNode(w, i);
    } else {
      var u := ElemAt(s, i).value;
      var c, o := if v < u then 2 * i + 1 else 2 * i + 2, if v < u then 2 * i + 2 else 2 * i + 1;
      assert FindFrom(s, v, c) == r;
      WriteAtFind(s, w, v, c, r);
      assert Desc(c, r);
      SiblingsDisjoint(i, r);
      assert !Desc(o, r);
      AbsFrame(s, w, o);
      AbsNode(w, i);
      AbsNode(s, i);
    }
  }

  /** Below an empty slot every slot is empty. */
  lemma EmptyBelow(s: Store, r: nat, k: nat)
    requires GoodAt(s, 0) && ElemAt(s, r).None? && Desc(r, k)
    ensures ElemAt(s, k).None?
  {
    if ElemAt(s, k).Some? {
      AncestorsOccupied(s, k, r);
    }
  }

  /** A value written into an empty slot below which everything is empty, with size
      one there, is a well-formed one-value subtree. */
  lemma FreshLeaf(g: Store, u: Store, r: nat, v: int)
    requires GoodAt(g, 0) && ElemAt(g, r).None? && ElemAt(u, r) == Some(v) && SizeAt(u, r) == 1
    requires forall k: nat :: k != r ==> ElemAt(u, k) == ElemAt(g, k)
    requires forall k: nat :: k != r && Desc(r, k) ==> SizeAt(u, k) == SizeAt(g, k)
    ensures GoodAt(u, r) && Abs(u, r) == Node(Leaf, v, Leaf)
  {
    forall k: nat | Desc(r, k) && k != r
      ensures ElemAt(u, k).None? && SizeAt(u, k) == 0
    {
      EmptyBelow(g, r, k);
      DescRoot(k);
    }
    DescChildren(r, r);
    AbsNode(u, r);
  }

  // ---------------------------------------------------------------------------
  // Insertion

  /** Everything `insert` does before rebalancing, for a value the descent did not
      find: grow, store, and count. The result encodes the search-tree insertion. */
  function Place(s: Store, v: int): (u: Store)
    requires Inv(s) && ElemAt(s, FindIndex(s, v)) != Some(v)
    ensures Inv(u) && u.weightFactor == s.weightFactor && |u.elems| >= |s.elems|
    ensures Abs(u, 0) == Bst.Insert(Abs(s, 0), v)
  {
    var r := FindIndex(s, v);
    var g := GrowUntil(s, r);
    var u := CountPath(WriteSlot(g, r, Some(v)), r);
    PlaceCorrect(s, g, u, v, r);
    u
  }

  lemma PlaceCorrect(s: Store, g: Store, u: Store, v: int, r: nat)
    requires Inv(s) && r == FindFrom(s, v, 0) && ElemAt(s, r) != Some(v)
    requires Valid(g) && forall k: nat :: ElemAt(g, k) == ElemAt(s, k) && SizeAt(g, k) == SizeAt(s, k)
    requires Valid(u) && |u.elems| == |g.elems| && r < |u.elems| && ElemAt(u, r) == Some(v)
    requires forall k: nat :: k != r ==> ElemAt(u, k) == ElemAt(g, k)
    requires forall k: nat :: SizeAt(u, k) == SizeAt(g, k) + (if Desc(k, r) then 1 else 0)
    ensures Inv(u) && Abs(u, 0) == Bst.Insert(Abs(s, 0), v)
  {
    SlotsAgree(s, g);
    FindFromFrame(s, g, v, 0);
    FindFromParent(g, v, 0);
    PlaceShape(g, u, v, r);
    WriteAtFind(g, u, v, 0, r);
  }

  lemma PlaceShape(g: Store, u: Store, v: int, r: nat)
    requires Inv(g) && ElemAt(g, r) == None
    requires r != 0 ==> ElemAt(g, (r - 1) / 2).Some?
    requires ElemAt(u, r) == Some(v) && forall k: nat :: k != r ==> ElemAt(u, k) == ElemAt(g, k)
    requires Valid(u) && |u.elems| == |g.elems|
    requires forall k: nat :: SizeAt(u, k) == SizeAt(g, k) + (if Desc(k, r) then 1 else 0)
    ensures Inv(u)
    ensures ElemAt(g, 2 * r + 1) == None && ElemAt(g, 2 * r + 2) == None
  {
    DescChildren(r, r);
    EmptyBelow(g, r, 2 * r + 1);
    EmptyBelow(g, r, 2 * r + 2);
    DescRoot(r);
    assert SizeAt(g, r) == 0;
    forall k: nat | k != r && Desc(r, k)
      ensures SizeAt(u, k) == SizeAt(g, k)
    {
      DescBelow(r, k);
      NotDescOfSmaller(k, r);
    }
    FreshLeaf(g, u, r, v);
    forall k: nat | Desc(k, r) && k != r
      ensures ElemAt(g, k).Some?
    {
      DescBelow(k, r);
      AncestorsOccupied(g, (r - 1) / 2, k);
    }
    GoodSplice(g, u, r);
  }

  /** `insert`: adds `v` when the descent does not find it and rebalances from the
      root; reports whether the tree changed. */
  function Insert(s: Store, v: int): (r: (Store, bool))
    requires Inv(s) && s.weightFactor >= 1
    ensures Inv(r.0) && r.0.weightFactor == s.weightFactor && |r.0.elems| >= |s.elems|
    ensures !r.1 ==> r.0 == s
    ensures Ordered(s) ==>
      && (r.1 <==> v !in Elems(Abs(s, 0)))
      && Ordered(r.0)
      && Elems(Abs(r.0, 0)) == Elems(Abs(s, 0)) + {v}
      && InOrder(Abs(r.0, 0)) == InOrder(Bst.Insert(Abs(s, 0), v))
    ensures TSize(Abs(r.0, 0)) == TSize(Abs(s, 0)) + (if r.1 then 1 else 0)
  {
    if ElemAt(s, FindIndex(s, v)) == Some(v) then
      FoundFacts(s, v);
      (s, false)
    else
      var u := Place(s, v);
      var t := FixTree(u, 0);
      InsertSizes(s, v);
      AddedFacts(s, v, u, t);
      (t, true)
  }

  lemma FoundFacts(s: Store, v: int)
    requires ElemAt(s, FindIndex(s, v)) == Some(v)
    ensures Ordered(s) ==> v in Elems(Abs(s, 0)) && Bst.Insert(Abs(s, 0), v) == Abs(s, 0)
  {
    if Ordered(s) {
      FindIndexCorrect(s, v);
      InsertCorrect(Abs(s, 0), v);
    }
  }

  lemma AddedFacts(s: Store, v: int, u: Store, t: Store)
    requires ElemAt(s, FindIndex(s, v)) != Some(v)
    requires Abs(u, 0) == Bst.Insert(Abs(s, 0), v) && Rebalanced(u, t, 0)
    ensures Ordered(s) ==>
      && v !in Elems(Abs(s, 0)) && Ordered(t)
      && Elems(Abs(t, 0)) == Elems(Abs(s, 0)) + {v}
      && InOrder(Abs(t, 0)) == InOrder(Bst.Insert(Abs(s, 0), v))
  {
    if Ordered(s) {
      FindIndexCorrect(s, v);
      InsertCorrect(Abs(s, 0), v);
      InOrderDetermined(Abs(t, 0), Bst.Insert(Abs(s, 0), v));
    }
  }

  /** The search-tree insertion of a value the descent does not find adds one node. */
  lemma InsertSizes(s: Store, v: int)
    requires ElemAt(s, FindIndex(s, v)) != Some(v)
    ensures TSize(Bst.Insert(Abs(s, 0), v)) == TSize(Abs(s, 0)) + 1
  {
    FindFromRefines(s, v, 0);
    InsertGrows(Abs(s, 0), v);
  }

  lemma {:induction false} InsertGrows(t: Tree, v: int)
    requires !Bst.Contains(t, v)
    ensures TSize(Bst.Insert(t, v)) == TSize(t) + 1
  {
    match t
    case Leaf =>
    case Node(l, u, r) =>
      if v < u {
        InsertGrows(l, v);
      } else {
        InsertGrows(r, v);
      }
  }

  /** `insert` as written grows the buffer once when the slot lies past its end, and
      then stores into that slot even if it still lies past the end. */
  function InsertAsWritten(s: Store, v: int): (r: Result<(Store, bool), InsertError>)
    requires Inv(s) && s.weightFactor >= 1
    ensures r.Failure? <==> FindIndex(s, v) >= 2 * |s.elems|
    ensures r.Success? ==> r.value == Insert(s, v)
  {
    var index := FindIndex(s, v);
    var g := if index >= |s.elems| then Grow(s) else s;
    if index >= |g.elems| then Failure(IndexOutOfBounds(index))
    else Success(Insert(s, v))
  }

  /** The one-slot tree holding 5: it is well formed and ordered, and 6 descends to slot 2. */
  lemma {:induction false} OneSlotFacts(s: Store)
    requires s == Store([Some(5)], [1], 3)
    ensures Inv(s) && Ordered(s) && Elems(Abs(s, 0)) == {5} && FindIndex(s, 6) == 2
  {
    assert IsPow2(|s.elems|);
    assert SizeOkAt(s, 0);
    InvIsLocal(s);
    assert Abs(s, 1) == Leaf && Abs(s, 2) == Leaf;
    assert Abs(s, 0) == Node(Leaf, 5, Leaf);
    assert FindFrom(s, 6, 2) == 2;
  }

  /** A one-slot tree holding 5: inserting 6 descends to slot 2, one doubling gives
      capacity 2, and the store into slot 2 is out of bounds. The corrected insertion
      doubles twice and adds the value. */
  lemma InsertAsWrittenOverruns(s: Store)
    requires s == Store([Some(5)], [1], 3)
    ensures Inv(s) && Ordered(s)
    ensures InsertAsWritten(s, 6) == Failure(IndexOutOfBounds(2))
    ensures Insert(s, 6).1 && Elems(Abs(Insert(s, 6).0, 0)) == {5, 6}
  {
    OneSlotFacts(s);
    var r := Insert(s, 6);
    assert Elems(Abs(r.0, 0)) == {5} + {6};
  }
}
