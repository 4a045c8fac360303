/** Weight balancing after a mutation: at each occupied slot far enough above the
    end of the buffer, compare the recorded sizes of the two children and rotate
    the heavier side up, with a double rotation when the heavier child's inner
    grandchild is not the lighter of its two grandchildren; then rebalance the right
    subtree and the left subtree. */
module Balance {
  import opened Wrappers
  import opened Implicit
  import opened Bst
  import opened Storage
  import opened Subtrees
  import opened Rotation

  datatype Plan = Keep | Single(toRight: bool) | Double(toRight: bool)

  function Max(a: int, b: int): int { if a < b then b else a }
  function Min(a: int, b: int): int { if a < b then a else b }

  /** The weight-balance condition on two sibling subtree sizes: both below two, or
      the larger at most `weightFactor` times the smaller. */
  predicate WeightBalanced(a: int, b: int, weightFactor: int)
  {
    (a < 2 && b < 2) || Max(a, b) <= weightFactor * Min(a, b)
  }

  /** The factor test against the lighter side, for a factor of at least one. */
  lemma FactorTest(sl: int, sr: int, w: int)
    ensures w >= 1 && sl >= 0 && sr >= 0 ==>
      && sl * w >= sl && sr * w >= sr
      && (WeightBalanced(sl, sr, w) <==> (sl < 2 && sr < 2) || (sr <= sl * w && sl <= sr * w))
  {
    if w >= 1 && sl >= 0 && sr >= 0 {
      assert sl * w >= sl && sr * w >= sr by {
        assert sl * (w - 1) >= 0 && sr * (w - 1) >= 0;
      }
      if sl <= sr {
        assert Max(sl, sr) == sr && Min(sl, sr) == sl;
        assert w * sl == sl * w;
      } else {
        assert Max(sl, sr) == sl && Min(sl, sr) == sr;
        assert w * sr == sr * w;
      }
    }
  }

  /** The rebalancing step chosen at slot `i` from the recorded sizes. `toRight`
      means the left child is promoted. With a factor of at least one, a slot is
      left alone exactly when its children satisfy the weight-balance condition;
      otherwise the strictly heavier child is promoted, by a single rotation exactly
      when that child's outer child (4i+3 on the left, 4i+6 on the right) is
      strictly heavier than its inner child (4i+4, 4i+5). */
  function Decide(s: Store, i: nat): (p: Plan)
    ensures var sl, sr := SizeAt(s, 2 * i + 1), SizeAt(s, 2 * i + 2);
      s.weightFactor >= 1 && sl >= 0 && sr >= 0 ==>
        && (p.Keep? <==> WeightBalanced(sl, sr, s.weightFactor))
        && (!p.Keep? ==> (p.toRight <==> sl > sr))
        && (!p.Keep? ==>
              (p.Single? <==>
                 if sl > sr then SizeAt(s, 4 * i + 3) > SizeAt(s, 4 * i + 4)
                 else SizeAt(s, 4 * i + 6) > SizeAt(s, 4 * i + 5)))
  {
    var left, right := 2 * i + 1, 2 * i + 2;
    var sl, sr := SizeAt(s, left), SizeAt(s, right);
    FactorTest(sl, sr, s.weightFactor);
    if sl < 2 && sr < 2 then Keep
    else if sr > sl * s.weightFactor then
      if SizeAt(s, 2 * right + 1) < SizeAt(s, 2 * right + 2) then Single(false) else Double(false)
    else if sl > sr * s.weightFactor then
      if SizeAt(s, 2 * left + 1) > SizeAt(s, 2 * left + 2) then Single(true) else Double(true)
    else Keep
  }

  /** Under the invariant an occupied slot records a positive size and an empty one 0. */
  lemma SizeOccupancy(s: Store, k: nat)
    requires Inv(s)
    ensures SizeAt(s, k) >= 0
    ensures ElemAt(s, k).Some? <==> SizeAt(s, k) > 0
    ensures ElemAt(s, k).Some? ==> SizeAt(s, k) == 1 + SizeAt(s, 2 * k + 1) + SizeAt(s, 2 * k + 2)
  {
    DescRoot(k);
    if ElemAt(s, k).Some? {
      DescRoot(2 * k + 1);
      DescRoot(2 * k + 2);
    }
  }

  /** The heavier side by the factor test is strictly heavier, and has at least two
      values once either side does. */
  lemma Heavier(light: int, heavy: int, w: int)
    requires w >= 1 && light >= 0 && heavy >= 0 && heavy > light * w
    ensures heavy > light
    ensures light >= 2 || heavy >= 2 ==> heavy >= 2
  {
    assert light * w >= light by {
      assert light * (w - 1) >= 0;
    }
  }

  /** With a weight factor of at least one, every rotation the plan calls for has
      the child it promotes. */
  lemma DecideEnables(s: Store, i: nat)
    requires Inv(s) && s.weightFactor >= 1 && ElemAt(s, i).Some?
    ensures Decide(s, i).Single? ==> ElemAt(s, Near(i, Decide(s, i).toRight)).Some?
    ensures Decide(s, i).Double? ==>
      var d := Decide(s, i).toRight;
      ElemAt(s, Near(i, d)).Some? && ElemAt(s, Far(Near(i, d), d)).Some?
  {
    var left, right := 2 * i + 1, 2 * i + 2;
    var sl, sr, w := SizeAt(s, left), SizeAt(s, right), s.weightFactor;
    SizeOccupancy(s, left);
    SizeOccupancy(s, right);
    var plan := Decide(s, i);
    if plan != Keep {
      if sr > sl * w {
        Heavier(sl, sr, w);
        SizeOccupancy(s, 2 * right + 1);
        SizeOccupancy(s, 2 * right + 2);
      } else {
        assert sl > sr * w;
        Heavier(sr, sl, w);
        SizeOccupancy(s, 2 * left + 1);
        SizeOccupancy(s, 2 * left + 2);
      }
    }
  }

  /** Growth keeps every slot, so it keeps the encoded tree and the invariant. */
  lemma SlotsAgree(s: Store, g: Store)
    requires forall k: nat :: ElemAt(g, k) == ElemAt(s, k) && SizeAt(g, k) == SizeAt(s, k)
    ensures forall j: nat :: Abs(g, j) == Abs(s, j)
    ensures GoodAt(s, 0) ==> GoodAt(g, 0)
  {
    forall j: nat
      ensures Abs(g, j) == Abs(s, j)
    {
      AbsFrame(g, s, j);
    }
    if GoodAt(s, 0) {
      GoodFrame(s, g, 0);
    }
  }

  /** One rotation preceded by making room, on an invariant-holding buffer. */
  function RotateAt(s: Store, i: nat, toRight: bool): (t: Store)
    requires Inv(s) && ElemAt(s, i).Some? && ElemAt(s, Near(i, toRight)).Some?
    ensures Inv(t) && t.weightFactor == s.weightFactor && |t.elems| >= |s.elems|
    ensures Rotatable(Abs(s, i), toRight) && Abs(t, i) == TreeRotate(Abs(s, i), toRight)
    ensures SameOutside(s, t, i) && (forall k: nat :: !Desc(i, k) ==> SizeAt(t, k) == SizeAt(s, k))
    ensures TSize(Abs(t, 0)) == TSize(Abs(s, 0))
    ensures Ordered(s) ==> Ordered(t) && Elems(Abs(t, 0)) == Elems(Abs(s, 0))
  {
    var g := EnsureRoom(s);
    SlotsAgree(s, g);
    Rotate(g, i, toRight)
  }

  /** A change confined to the subtree of a descendant is confined to the subtree
      of its ancestor too. */
  lemma Widen(s: Store, t: Store, i: nat, j: nat)
    requires Desc(i, j) && SameOutside(s, t, j)
    requires forall k: nat :: !Desc(j, k) ==> SizeAt(t, k) == SizeAt(s, k)
    ensures SameOutside(s, t, i) && (forall k: nat :: !Desc(i, k) ==> SizeAt(t, k) == SizeAt(s, k))
  {
    forall k: nat | !Desc(i, k)
      ensures !Desc(j, k)
    {
      if Desc(j, k) {
        DescTrans(i, j, k);
      }
    }
  }

  /** Changing only the subtree of the promoted child changes the subtree of `i`
      exactly there. */
  lemma NearReplaced(s: Store, s1: Store, i: nat, toRight: bool)
    requires ElemAt(s, i).Some? && SameOutside(s, s1, Near(i, toRight))
    ensures ElemAt(s1, i) == ElemAt(s, i) && Abs(s, i).Node?
    ensures Abs(s1, i) == WithNear(Abs(s, i), toRight, Abs(s1, Near(i, toRight)))
  {
    var near, far := Near(i, toRight), Far(i, toRight);
    NotDescOfSmaller(near, i);
    assert Desc(near, near);
    forall k: nat | Desc(far, k)
      ensures ElemAt(s, k) == ElemAt(s1, k)
    {
      OutsideSibling(i, near, near, far, k);
    }
    AbsFrame(s, s1, far);
    AbsNode(s, i);
    AbsNode(s1, i);
  }

  /** A double rotation: first the promoted child is rotated the other way, so that
      its inner grandchild comes up, then the slot itself is rotated. */
  function DoubleRotate(s: Store, i: nat, toRight: bool): (t: Store)
    requires Inv(s) && ElemAt(s, i).Some? && ElemAt(s, Near(i, toRight)).Some?
    requires ElemAt(s, Far(Near(i, toRight), toRight)).Some?
    ensures Inv(t) && t.weightFactor == s.weightFactor && |t.elems| >= |s.elems|
    ensures DoubleRotatable(Abs(s, i), toRight) && Abs(t, i) == TreeDoubleRotate(Abs(s, i), toRight)
    ensures SameOutside(s, t, i) && (forall k: nat :: !Desc(i, k) ==> SizeAt(t, k) == SizeAt(s, k))
    ensures ElemAt(t, i).Some?
    ensures TSize(Abs(t, 0)) == TSize(Abs(s, 0))
    ensures Ordered(s) ==> Ordered(t) && Elems(Abs(t, 0)) == Elems(Abs(s, 0))
  {
    var near := Near(i, toRight);
    Family(i, toRight);
    NotDescOfSmaller(near, i);
    assert Near(near, !toRight) == Far(near, toRight);
    var s1 := RotateAt(s, near, !toRight);
    assert ElemAt(s1, near).Some?;
    NearReplaced(s, s1, i, toRight);
    NearReplaced(s, s, i, toRight);
    var t := RotateAt(s1, i, toRight);
    Widen(s, s1, i, near);
    t
  }

  /** The rebalancing step at an occupied slot: the encoded subtree is left alone,
      rotated once or rotated twice, as the plan says. */
  function Rebalance(s: Store, i: nat): (t: Store)
    requires Inv(s) && s.weightFactor >= 1 && ElemAt(s, i).Some?
    ensures Decide(s, i).Keep? ==> t == s
    ensures Decide(s, i).Single? ==>
      Rotatable(Abs(s, i), Decide(s, i).toRight) && Abs(t, i) == TreeRotate(Abs(s, i), Decide(s, i).toRight)
    ensures Decide(s, i).Double? ==>
      DoubleRotatable(Abs(s, i), Decide(s, i).toRight)
      && Abs(t, i) == TreeDoubleRotate(Abs(s, i), Decide(s, i).toRight)
    ensures Inv(t) && t.weightFactor == s.weightFactor && |t.elems| >= |s.elems|
    ensures SameOutside(s, t, i) && (forall k: nat :: !Desc(i, k) ==> SizeAt(t, k) == SizeAt(s, k))
    ensures ElemAt(t, i).Some?
    ensures TSize(Abs(t, 0)) == TSize(Abs(s, 0))
    ensures Ordered(s) ==> Ordered(t) && Elems(Abs(t, 0)) == Elems(Abs(s, 0))
  {
    DecideEnables(s, i);
    match Decide(s, i)
    case Keep => s
    case Single(d) =>
      var t := RotateAt(s, i, d);
      AbsNode(t, i);
      t
    case Double(d) => DoubleRotate(s, i, d)
  }

  /** Under the invariant, an occupied slot sits at a level below the number of values. */
  lemma LevelBelowSize(s: Store, i: nat)
    requires Inv(s) && ElemAt(s, i).Some?
    ensures Level(i) < TSize(Abs(s, 0))
  {
    DescRoot(i);
    forall k: nat | Desc(0, k) && Desc(k, i)
      ensures ElemAt(s, k).Some?
    {
      AncestorsOccupied(s, i, k);
    }
    PathLength(s, i, 0);
  }

  /** `t` is a rebalanced form of `s` confined to the subtree of `i`: the invariants
      hold, the capacity did not shrink, nothing outside the subtree changed, and the
      values are the same ones. */
  ghost predicate Rebalanced(s: Store, t: Store, i: nat)
  {
    && Inv(t) && t.weightFactor == s.weightFactor && |t.elems| >= |s.elems|
    && SameOutside(s, t, i) && (forall k: nat :: !Desc(i, k) ==> SizeAt(t, k) == SizeAt(s, k))
    && TSize(Abs(t, 0)) == TSize(Abs(s, 0))
    && (Ordered(s) ==> Ordered(t) && Elems(Abs(t, 0)) == Elems(Abs(s, 0)))
  }

  lemma RebalancedTrans(s: Store, s1: Store, t: Store, i: nat, j: nat)
    requires Rebalanced(s, s1, i) && Rebalanced(s1, t, j) && Desc(i, j)
    ensures Rebalanced(s, t, i)
  {
    Widen(s1, t, i, j);
  }

  /** Rebalancing a slot and then both of its children's subtrees rebalances the slot's subtree. */
  lemma FixStep(s: Store, s1: Store, s2: Store, t: Store, i: nat)
    requires Rebalanced(s, s1, i) && Rebalanced(s1, s2, 2 * i + 2) && Rebalanced(s2, t, 2 * i + 1)
    ensures Rebalanced(s, t, i)
    ensures ElemAt(t, i) == ElemAt(s1, i)
  {
    DescChildren(i, i);
    NotDescOfSmaller(2 * i + 1, i);
    NotDescOfSmaller(2 * i + 2, i);
    RebalancedTrans(s, s1, s2, i, 2 * i + 2);
    RebalancedTrans(s, s2, t, i, 2 * i + 1);
  }

  /** Every occupied slot of the subtree of `i` that lies above the bottom two levels
      of the buffer already passes the weight check. */
  ghost predicate Settled(s: Store, i: nat)
  {
    forall k: nat {:trigger Desc(i, k)} ::
      Desc(i, k) && ElemAt(s, k).Some? && 4 * k + 6 < |s.elems| ==> Decide(s, k).Keep?
  }

  lemma SettledChildren(s: Store, i: nat)
    ensures Settled(s, i) ==>
      && Settled(s, 2 * i + 1) && Settled(s, 2 * i + 2)
      && (ElemAt(s, i).Some? && 4 * i + 6 < |s.elems| ==> Decide(s, i).Keep?)
  {
    if Settled(s, i) {
      assert Desc(i, i);
      DescChildren(i, i);
      forall c: nat, k: nat | (c == 2 * i + 1 || c == 2 * i + 2) && Desc(c, k)
        ensures Desc(i, k)
      {
        DescTrans(i, c, k);
      }
    }
  }

  /** Rebalancing from slot `i` down to the leaves: nothing is done at an empty slot or
      at a slot within the bottom two levels of the buffer; otherwise the slot itself
      is rebalanced, then the subtree of its right child and then that of its left
      child. */
  function FixTree(s: Store, i: nat): (t: Store)
    requires Inv(s) && s.weightFactor >= 1
    ensures Rebalanced(s, t, i)
    ensures Settled(s, i) ==> t == s
    ensures ElemAt(s, i).Some? && 4 * i + 6 < |s.elems| ==> ElemAt(t, i) == ElemAt(Rebalance(s, i), i)
    ensures !(ElemAt(s, i).Some? && 4 * i + 6 < |s.elems|) ==> t == s
    decreases TSize(Abs(s, 0)) - Level(i)
  {
    if ElemAt(s, i).None? || !(4 * i + 6 < |s.elems|) then s
    else
      LevelBelowSize(s, i);
      SettledChildren(s, i);
      LevelChild(i);
      var s1 := Rebalance(s, i);
      var s2 := FixTree(s1, 2 * i + 2);
      var t := FixTree(s2, 2 * i + 1);
      FixStep(s, s1, s2, t, i);
      t
  }

  /** Rebalancing keeps the in-order sequence of a search tree. */
  lemma FixTreeKeepsOrder(s: Store, i: nat)
    requires Inv(s) && s.weightFactor >= 1 && Ordered(s)
    ensures InOrder(Abs(FixTree(s, i), 0)) == InOrder(Abs(s, 0))
  {
    var t := FixTree(s, i);
    InOrderDetermined(Abs(t, 0), Abs(s, 0));
  }
}
