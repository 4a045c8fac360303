/** Rotations performed inside the buffer. A rotation about slot `i` promotes one
    child (`Near`) into `i`, pushes the old value of `i` into the other child
    (`Far`), and relocates the three grandchild subtrees: the far child's subtree
    one level down, the near child's inner subtree across, and the near child's
    outer subtree one level up. `toRight` selects a right rotation (the left child
    is promoted) or a left rotation (the right child is promoted). */
module Rotation {
  import opened Wrappers
  import opened Implicit
  import opened Bst
  import opened Storage
  import opened Subtrees
  import opened Relocation

  /** The child promoted by the rotation. */
  function Near(i: nat, toRight: bool): nat
  {
    if toRight then 2 * i + 1 else 2 * i + 2
  }

  /** The child that receives the old value of the rotated slot. */
  function Far(i: nat, toRight: bool): nat
  {
    if toRight then 2 * i + 2 else 2 * i + 1
  }

  /** The search tree has the child a rotation in the given direction promotes. */
  predicate Rotatable(t: Tree, toRight: bool)
  {
    t.Node? && (if toRight then t.left.Node? else t.right.Node?)
  }

  function TreeRotate(t: Tree, toRight: bool): Tree
    requires Rotatable(t, toRight)
  {
    if toRight then RotateRight(t) else RotateLeft(t)
  }

  /** The child a rotation in the given direction promotes. */
  function NearChild(t: Tree, toRight: bool): Tree
    requires t.Node?
  {
    if toRight then t.left else t.right
  }

  /** The tree with the child on the promoted side replaced by `c`. */
  function WithNear(t: Tree, toRight: bool, c: Tree): Tree
    requires t.Node?
  {
    if toRight then Node(c, t.value, t.right) else Node(t.left, t.value, c)
  }

  /** The promoted child has an inner child, which a double rotation brings up. */
  predicate DoubleRotatable(t: Tree, toRight: bool)
  {
    t.Node? && Rotatable(NearChild(t, toRight), !toRight)
  }

  /** A double rotation: the promoted child is first rotated the other way, then
      the root is rotated. */
  function TreeDoubleRotate(t: Tree, toRight: bool): Tree
    requires DoubleRotatable(t, toRight)
  {
    TreeRotate(WithNear(t, toRight, TreeRotate(NearChild(t, toRight), !toRight)), toRight)
  }

  /** Store one value. */
  function WriteSlot(s: Store, k: nat, v: Option<int>): (t: Store)
    requires Valid(s) && k < |s.elems|
    ensures Valid(t) && |t.elems| == |s.elems| && t.weightFactor == s.weightFactor
    ensures ElemAt(t, k) == v
    ensures forall m: nat :: m != k ==> ElemAt(t, m) == ElemAt(s, m)
    ensures forall m: nat :: SizeAt(t, m) == SizeAt(s, m)
  {
    s.(elems := s.elems[k := v])
  }

  /** Size recomputation after a rotation, corrected: an empty slot records 0 and an
      occupied one records one more than its children. */
  function Recompute(s: Store, k: nat): (t: Store)
    requires Valid(s) && k < |s.elems|
    ensures Valid(t) && t.elems == s.elems && t.weightFactor == s.weightFactor
    ensures SizeOkAt(t, k)
    ensures forall m: nat :: m != k ==> SizeAt(t, m) == SizeAt(s, m)
  {
    var size := if s.elems[k].None? then 0 else 1 + SizeAt(s, 2 * k + 1) + SizeAt(s, 2 * k + 2);
    s.(sizes := s.sizes[k := size])
  }

  /** Size recomputation after a rotation, as written: one more than the children,
      whether or not the slot holds a value. */
  function RecomputeAsWritten(s: Store, k: nat): (t: Store)
    requires Valid(s) && k < |s.elems|
    ensures Valid(t) && t.elems == s.elems
    ensures ElemAt(s, k).Some? ==> SizeOkAt(t, k)
    ensures forall m: nat :: m != k ==> SizeAt(t, m) == SizeAt(s, m)
  {
    s.(sizes := s.sizes[k := 1 + SizeAt(s, 2 * k + 1) + SizeAt(s, 2 * k + 2)])
  }

  /** As written, an emptied slot is recorded as holding one value, which breaks the
      size recurrence; the corrected recomputation records 0. */
  lemma RecomputeAsWrittenCountsEmpty(s: Store, k: nat)
    requires Valid(s) && k < |s.elems| && s.elems[k] == None
    requires SizeAt(s, 2 * k + 1) >= 0 && SizeAt(s, 2 * k + 2) >= 0
    ensures SizeAt(RecomputeAsWritten(s, k), k) >= 1
    ensures !SizeOkAt(RecomputeAsWritten(s, k), k)
    ensures SizeAt(Recompute(s, k), k) == 0
  {
  }

  /** The relocations and the two value writes of a rotation, before sizes are recomputed. */
  function Shift(s: Store, i: nat, toRight: bool): (t: Store)
    requires Valid(s) && Roomy(s) && ElemAt(s, i).Some?
    ensures Valid(t) && |t.elems| == |s.elems| && t.weightFactor == s.weightFactor
  {
    var near, far := Near(i, toRight), Far(i, toRight);
    assert s.elems[i].Some?;
    var s1 := Move(s, far, Far(far, toRight));
    var s2 := WriteSlot(s1, far, s.elems[i]);
    var s3 := Move(s2, Far(near, toRight), Near(far, toRight));
    var s4 := WriteSlot(s3, i, s3.elems[near]);
    Move(s4, Near(near, toRight), near)
  }

  /** The relocations of a rotation about slot `i` followed by recomputing the sizes
      of the three changed slots in the source's order: left child, right child,
      then `i`. */
  function ShiftRecount(s: Store, i: nat, toRight: bool): (t: Store)
    requires Valid(s) && Roomy(s) && ElemAt(s, i).Some?
    ensures Valid(t) && |t.elems| == |s.elems| && t.weightFactor == s.weightFactor
  {
    assert s.elems[i].Some?;
    var t := Shift(s, i, toRight);
    Recompute(Recompute(Recompute(t, 2 * i + 1), 2 * i + 2), i)
  }

  lemma LevelChild(x: nat)
    ensures Level(2 * x + 1) == Level(x) + 1 && Level(2 * x + 2) == Level(x) + 1
  {
    assert (2 * x + 1 - 1) / 2 == x && (2 * x + 2 - 1) / 2 == x;
  }

  /** The slots a rotation about `i` touches, and how they nest. */
  lemma Family(i: nat, toRight: bool)
    ensures var near, far := Near(i, toRight), Far(i, toRight);
      && Desc(i, near) && Desc(i, far)
      && Desc(near, Near(near, toRight)) && Desc(near, Far(near, toRight))
      && Desc(far, Near(far, toRight)) && Desc(far, Far(far, toRight))
      && i < near && i < far && near < Near(near, toRight) && near < Far(near, toRight)
      && far < Near(far, toRight) && far < Far(far, toRight)
  {
    var near, far := Near(i, toRight), Far(i, toRight);
    DescChildren(i, i);
    DescChildren(near, near);
    DescChildren(far, far);
  }

  /** A rotation leaves every slot outside the subtree of `i` alone. */
  lemma ShiftOutside(s: Store, i: nat, toRight: bool, k: nat)
    requires Valid(s) && Roomy(s) && ElemAt(s, i).Some? && !Desc(i, k)
    ensures ElemAt(Shift(s, i, toRight), k) == ElemAt(s, k)
    ensures SizeAt(Shift(s, i, toRight), k) == SizeAt(s, k)
  {
    var near, far := Near(i, toRight), Far(i, toRight);
    var nn, nf, fn, ff := Near(near, toRight), Far(near, toRight), Near(far, toRight), Far(far, toRight);
    Family(i, toRight);
    assert s.elems[i].Some?;
    forall x: nat | Desc(i, x)
      ensures !Desc(x, k) && x != k
    {
      if Desc(x, k) {
        DescTrans(i, x, k);
      }
    }
    DescTrans(i, near, nn);
    DescTrans(i, near, nf);
    DescTrans(i, far, fn);
    DescTrans(i, far, ff);
    var s1 := Move(s, far, ff);
    MoveSlot(s, far, ff, k);
    var s2 := WriteSlot(s1, far, s.elems[i]);
    var s3 := Move(s2, nf, fn);
    MoveSlot(s2, nf, fn, k);
    var s4 := WriteSlot(s3, i, s3.elems[near]);
    MoveSlot(s4, nn, near, k);
  }

  /** After the relocations, `i` holds the promoted child and the far child holds the
      old value of `i`. */
  lemma ShiftRoots(s: Store, i: nat, toRight: bool)
    requires Valid(s) && Roomy(s) && ElemAt(s, i).Some?
    ensures ElemAt(Shift(s, i, toRight), i) == ElemAt(s, Near(i, toRight))
    ensures ElemAt(Shift(s, i, toRight), Far(i, toRight)) == ElemAt(s, i)
  {
    var near, far := Near(i, toRight), Far(i, toRight);
    var nn, nf, fn, ff := Near(near, toRight), Far(near, toRight), Near(far, toRight), Far(far, toRight);
    Family(i, toRight);
    assert s.elems[i].Some?;
    var s1 := Move(s, far, ff);
    var s2 := WriteSlot(s1, far, s.elems[i]);
    var s3 := Move(s2, nf, fn);
    var s4 := WriteSlot(s3, i, s3.elems[near]);
    NotDescOfSmaller(near, i);
    NotDescOfSmaller(nn, i);
    MoveSlot(s4, nn, near, i);
    OutsideSibling(i, fn, far, near, near);
    NotDescOfSmaller(nf, near);
    MoveSlot(s2, nf, fn, near);
    OutsideSibling(i, ff, far, near, near);
    OutsideSibling(i, far, far, near, near);
    MoveSlot(s, far, ff, near);
    OutsideSibling(i, near, near, far, far);
    OutsideSibling(i, nn, near, far, far);
    MoveSlot(s4, nn, near, far);
    NotDescOfSmaller(fn, far);
    OutsideSibling(i, nf, near, far, far);
    MoveSlot(s2, nf, fn, far);
  }

  /** The promoted child's slot now holds the promoted child's outer subtree. */
  lemma ShiftNear(s: Store, i: nat, toRight: bool, k: nat)
    requires Valid(s) && Roomy(s) && ElemAt(s, i).Some? && Desc(Near(i, toRight), k)
    ensures var t, src := Shift(s, i, toRight), Translate(Near(i, toRight), Near(Near(i, toRight), toRight), k);
      && ElemAt(t, k) == ElemAt(s, src)
      && (k < |s.elems| ==> SizeAt(t, k) == SizeAt(s, src))
  {
    var near, far := Near(i, toRight), Far(i, toRight);
    var nn, nf, fn, ff := Near(near, toRight), Far(near, toRight), Near(far, toRight), Far(far, toRight);
    Family(i, toRight);
    assert s.elems[i].Some?;
    var s1 := Move(s, far, ff);
    var s2 := WriteSlot(s1, far, s.elems[i]);
    var s3 := Move(s2, nf, fn);
    var s4 := WriteSlot(s3, i, s3.elems[near]);
    var src := Translate(near, nn, k);
    if k < |s.elems| {
      MoveSlot(s4, nn, near, k);
      DescTrans(near, nn, src);
      DescBelow(nn, src);
      OutsideSibling(i, fn, far, near, src);
      OutsideSibling(near, nf, nf, nn, src);
      MoveSlot(s2, nf, fn, src);
      OutsideSibling(i, near, near, far, far);
      OutsideSibling(i, ff, far, near, src);
      OutsideSibling(i, far, far, near, src);
      MoveSlot(s, far, ff, src);
    } else {
      LevelChild(i);
      LevelChild(near);
      RoomyFits(s, nn, near);
    }
  }

  /** The far child's inner subtree now holds the promoted child's inner subtree. */
  lemma ShiftInner(s: Store, i: nat, toRight: bool, k: nat)
    requires Valid(s) && Roomy(s) && ElemAt(s, i).Some? && Desc(Near(Far(i, toRight), toRight), k)
    ensures var t, src := Shift(s, i, toRight), Translate(Near(Far(i, toRight), toRight), Far(Near(i, toRight), toRight), k);
      && ElemAt(t, k) == ElemAt(s, src)
      && (k < |s.elems| ==> SizeAt(t, k) == SizeAt(s, src))
  {
    var near, far := Near(i, toRight), Far(i, toRight);
    var nn, nf, fn, ff := Near(near, toRight), Far(near, toRight), Near(far, toRight), Far(far, toRight);
    Family(i, toRight);
    assert s.elems[i].Some?;
    var s1 := Move(s, far, ff);
    var s2 := WriteSlot(s1, far, s.elems[i]);
    var s3 := Move(s2, nf, fn);
    var s4 := WriteSlot(s3, i, s3.elems[near]);
    var src := Translate(fn, nf, k);
    DescTrans(far, fn, k);
    DescBelow(fn, k);
    OutsideSibling(i, near, near, far, k);
    OutsideSibling(i, nn, near, far, k);
    MoveSlot(s4, nn, near, k);
    if k < |s.elems| {
      MoveSlot(s2, nf, fn, k);
      DescTrans(near, nf, src);
      OutsideSibling(i, near, near, far, far);
      OutsideSibling(i, ff, far, near, src);
      OutsideSibling(i, far, far, near, src);
      MoveSlot(s, far, ff, src);
    } else {
      LevelChild(i);
      LevelChild(near);
      LevelChild(far);
      RoomyFits(s, nf, fn);
    }
  }

  /** The far child's outer subtree now holds the old far subtree, one level down. */
  lemma ShiftOuter(s: Store, i: nat, toRight: bool, k: nat)
    requires Valid(s) && Roomy(s) && ElemAt(s, i).Some? && Desc(Far(Far(i, toRight), toRight), k)
    ensures var t, src := Shift(s, i, toRight), Translate(Far(Far(i, toRight), toRight), Far(i, toRight), k);
      && ElemAt(t, k) == ElemAt(s, src)
      && (k < |s.elems| ==> SizeAt(t, k) == SizeAt(s, src))
  {
    var near, far := Near(i, toRight), Far(i, toRight);
    var nn, nf, fn, ff := Near(near, toRight), Far(near, toRight), Near(far, toRight), Far(far, toRight);
    Family(i, toRight);
    assert s.elems[i].Some?;
    var s1 := Move(s, far, ff);
    var s2 := WriteSlot(s1, far, s.elems[i]);
    var s3 := Move(s2, nf, fn);
    var s4 := WriteSlot(s3, i, s3.elems[near]);
    DescTrans(far, ff, k);
    DescBelow(ff, k);
    OutsideSibling(i, near, near, far, k);
    OutsideSibling(i, nn, near, far, k);
    MoveSlot(s4, nn, near, k);
    OutsideSibling(far, fn, fn, ff, k);
    OutsideSibling(i, nf, near, far, k);
    MoveSlot(s2, nf, fn, k);
    if k < |s.elems| {
      MoveSlot(s, far, ff, k);
    } else {
      LevelChild(far);
      RoomyFits(s, far, ff);
    }
  }

  /** The size recurrence at `k` reads only `k`'s value and the sizes at `k` and its children. */
  lemma SizeOkKept(s: Store, t: Store, k: nat)
    requires k < |s.elems| && t.elems == s.elems
    requires SizeAt(t, k) == SizeAt(s, k)
    requires SizeAt(t, 2 * k + 1) == SizeAt(s, 2 * k + 1) && SizeAt(t, 2 * k + 2) == SizeAt(s, 2 * k + 2)
    ensures SizeOkAt(t, k) == SizeOkAt(s, k)
  {
  }

  /** After the three recomputations, each of the slots `i`, `2i + 1`, `2i + 2`
      satisfies the size recurrence, every other size is the relocated one, and the
      values are those of the relocation. */
  lemma RecomputedSizes(s: Store, i: nat, toRight: bool)
    requires Valid(s) && Roomy(s) && ElemAt(s, i).Some?
    ensures var t5, t := Shift(s, i, toRight), ShiftRecount(s, i, toRight);
      && t.elems == t5.elems
      && SizeOkAt(t, i) && SizeOkAt(t, 2 * i + 1) && SizeOkAt(t, 2 * i + 2)
      && (forall k: nat :: k != i && k != 2 * i + 1 && k != 2 * i + 2 ==> SizeAt(t, k) == SizeAt(t5, k))
  {
    assert s.elems[i].Some?;
    var t5 := Shift(s, i, toRight);
    var l, r := 2 * i + 1, 2 * i + 2;
    var r1 := Recompute(t5, l);
    var r2 := Recompute(r1, r);
    var t := Recompute(r2, i);
    SizeOkKept(r1, r2, l);
    SizeOkKept(r2, t, l);
    SizeOkKept(r2, t, r);
  }

  /** Rotation precondition: room below every occupied slot, the invariant, and
      both the rotated slot and the child to promote occupied. */
  ghost predicate CanRotate(s: Store, i: nat, toRight: bool)
  {
    Valid(s) && Roomy(s) && GoodAt(s, 0) && ElemAt(s, i).Some? && ElemAt(s, Near(i, toRight)).Some?
  }

  /** What a rotation about `i` leaves in `t`, slot by slot, in terms of `s`: the
      promoted child's outer subtree moved up into the promoted child's slot, its
      inner subtree moved across below the far child, the far subtree moved one level
      down, the two values exchanged between `i` and the far child, and the three
      sizes recomputed. Nothing outside the subtree of `i` changes. */
  ghost predicate Rotated(s: Store, t: Store, i: nat, toRight: bool)
  {
    var near, far := Near(i, toRight), Far(i, toRight);
    var nn, nf, fn, ff := Near(near, toRight), Far(near, toRight), Near(far, toRight), Far(far, toRight);
    && Valid(t) && |t.elems| == |s.elems| && 2 * i + 2 < |t.elems|
    && (forall k: nat :: !Desc(i, k) ==> ElemAt(t, k) == ElemAt(s, k) && SizeAt(t, k) == SizeAt(s, k))
    && ElemAt(t, i) == ElemAt(s, near) && ElemAt(t, far) == ElemAt(s, i)
    && SizeOkAt(t, i) && SizeOkAt(t, near) && SizeOkAt(t, far)
    && Copies(s, t, nn, near)
    && Copies(s, t, nf, fn) && (fn < |t.elems| ==> SizeAt(t, fn) == SizeAt(s, nf))
    && Copies(s, t, far, ff) && (ff < |t.elems| ==> SizeAt(t, ff) == SizeAt(s, far))
  }

  lemma RotatedNear(s: Store, i: nat, toRight: bool)
    requires Valid(s) && Roomy(s) && ElemAt(s, i).Some?
    ensures Copies(s, ShiftRecount(s, i, toRight), Near(Near(i, toRight), toRight), Near(i, toRight))
  {
    var near, far := Near(i, toRight), Far(i, toRight);
    var nn := Near(near, toRight);
    Family(i, toRight);
    var t := ShiftRecount(s, i, toRight);
    RecomputedSizes(s, i, toRight);
    forall m: nat {:trigger ElemAt(t, m)} | Desc(near, m)
      ensures ElemAt(t, m) == ElemAt(s, Translate(near, nn, m))
    {
      ShiftNear(s, i, toRight, m);
    }
    forall m: nat {:trigger SizeAt(t, m)} | Desc(near, m) && m != near && m < |t.elems|
      ensures SizeAt(t, m) == SizeAt(s, Translate(near, nn, m))
    {
      ShiftNear(s, i, toRight, m);
      DescBelow(near, m);
      OutsideSibling(i, far, far, near, m);
    }
  }

  lemma RotatedInner(s: Store, i: nat, toRight: bool)
    requires Valid(s) && Roomy(s) && ElemAt(s, i).Some?
    ensures var t, fn, nf := ShiftRecount(s, i, toRight), Near(Far(i, toRight), toRight), Far(Near(i, toRight), toRight);
      Copies(s, t, nf, fn) && (fn < |t.elems| ==> SizeAt(t, fn) == SizeAt(s, nf))
  {
    var near, far := Near(i, toRight), Far(i, toRight);
    var nf, fn := Far(near, toRight), Near(far, toRight);
    Family(i, toRight);
    var t := ShiftRecount(s, i, toRight);
    RecomputedSizes(s, i, toRight);
    forall m: nat {:trigger ElemAt(t, m)} | Desc(fn, m)
      ensures ElemAt(t, m) == ElemAt(s, Translate(fn, nf, m))
    {
      ShiftInner(s, i, toRight, m);
    }
    forall m: nat {:trigger SizeAt(t, m)} | Desc(fn, m) && m < |t.elems|
      ensures SizeAt(t, m) == SizeAt(s, Translate(fn, nf, m))
    {
      ShiftInner(s, i, toRight, m);
      DescBelow(fn, m);
    }
    assert Desc(fn, fn);
  }

  lemma RotatedOuter(s: Store, i: nat, toRight: bool)
    requires Valid(s) && Roomy(s) && ElemAt(s, i).Some?
    ensures var t, ff, far := ShiftRecount(s, i, toRight), Far(Far(i, toRight), toRight), Far(i, toRight);
      Copies(s, t, far, ff) && (ff < |t.elems| ==> SizeAt(t, ff) == SizeAt(s, far))
  {
    var far := Far(i, toRight);
    var ff := Far(far, toRight);
    Family(i, toRight);
    var t := ShiftRecount(s, i, toRight);
    RecomputedSizes(s, i, toRight);
    forall m: nat {:trigger ElemAt(t, m)} | Desc(ff, m)
      ensures ElemAt(t, m) == ElemAt(s, Translate(ff, far, m))
    {
      ShiftOuter(s, i, toRight, m);
    }
    forall m: nat {:trigger SizeAt(t, m)} | Desc(ff, m) && m < |t.elems|
      ensures SizeAt(t, m) == SizeAt(s, Translate(ff, far, m))
    {
      ShiftOuter(s, i, toRight, m);
      DescBelow(ff, m);
    }
    assert Desc(ff, ff);
  }

  lemma RotatedOutside(s: Store, i: nat, toRight: bool)
    requires Valid(s) && Roomy(s) && ElemAt(s, i).Some?
    ensures var t := ShiftRecount(s, i, toRight);
      forall k: nat :: !Desc(i, k) ==> ElemAt(t, k) == ElemAt(s, k) && SizeAt(t, k) == SizeAt(s, k)
  {
    var t := ShiftRecount(s, i, toRight);
    Family(i, toRight);
    RecomputedSizes(s, i, toRight);
    forall k: nat | !Desc(i, k)
      ensures ElemAt(t, k) == ElemAt(s, k) && SizeAt(t, k) == SizeAt(s, k)
    {
      ShiftOutside(s, i, toRight, k);
    }
  }

  lemma RotatedRoots(s: Store, i: nat, toRight: bool)
    requires Valid(s) && Roomy(s) && ElemAt(s, i).Some?
    ensures var t, near, far := ShiftRecount(s, i, toRight), Near(i, toRight), Far(i, toRight);
      && 2 * i + 2 < |t.elems|
      && ElemAt(t, i) == ElemAt(s, near) && ElemAt(t, far) == ElemAt(s, i)
      && SizeOkAt(t, i) && SizeOkAt(t, near) && SizeOkAt(t, far)
  {
    assert s.elems[i].Some?;
    RecomputedSizes(s, i, toRight);
    ShiftRoots(s, i, toRight);
  }

  /** The store-level rotation has the slot-by-slot effect described by `Rotated`. */
  lemma RotateEffect(s: Store, i: nat, toRight: bool)
    requires Valid(s) && Roomy(s) && ElemAt(s, i).Some?
    ensures Rotated(s, ShiftRecount(s, i, toRight), i, toRight)
  {
    RotatedRoots(s, i, toRight);
    RotatedOutside(s, i, toRight);
    RotatedNear(s, i, toRight);
    RotatedInner(s, i, toRight);
    RotatedOuter(s, i, toRight);
  }

  /** Each of the three relocated subtrees is a well-formed copy of its source. */
  lemma RotatedParts(s: Store, t: Store, i: nat, toRight: bool)
    requires CanRotate(s, i, toRight) && Rotated(s, t, i, toRight)
    ensures var near, far := Near(i, toRight), Far(i, toRight);
      && GoodAt(t, near) && Abs(t, near) == Abs(s, Near(near, toRight))
      && GoodAt(t, Near(far, toRight)) && Abs(t, Near(far, toRight)) == Abs(s, Far(near, toRight))
      && GoodAt(t, Far(far, toRight)) && Abs(t, Far(far, toRight)) == Abs(s, far)
  {
    var near, far := Near(i, toRight), Far(i, toRight);
    var nn, nf := Near(near, toRight), Far(near, toRight);
    Family(i, toRight);
    DescTrans(i, near, nn);
    DescTrans(i, near, nf);
    DescRoot(nn);
    DescRoot(nf);
    DescRoot(far);
    PartGood(s, t, nn, near);
    PartGood(s, t, nf, Near(far, toRight));
    PartGood(s, t, far, Far(far, toRight));
  }

  lemma PartGood(s: Store, t: Store, a: nat, b: nat)
    requires GoodAt(s, 0) && Desc(0, a) && Copies(s, t, a, b)
    requires b < |t.elems| ==> SizeAt(t, b) == SizeAt(s, a) || SizeOkAt(t, b)
    ensures GoodAt(t, b) && Abs(t, b) == Abs(s, a)
  {
    GoodSub(s, 0, a);
    GoodTranslate(s, t, a, b);
  }

  /** The rotated subtree is well formed. */
  lemma RotatedGood(s: Store, t: Store, i: nat, toRight: bool)
    requires CanRotate(s, i, toRight) && Rotated(s, t, i, toRight)
    ensures GoodAt(t, i)
  {
    var near, far := Near(i, toRight), Far(i, toRight);
    var fn, ff := Near(far, toRight), Far(far, toRight);
    RotatedParts(s, t, i, toRight);
    assert GoodAt(t, fn) && GoodAt(t, ff);
    if toRight {
      assert fn == 2 * far + 1 && ff == 2 * far + 2;
    } else {
      assert fn == 2 * far + 2 && ff == 2 * far + 1;
    }
    GoodCompose(t, far);
    assert GoodAt(t, near) && GoodAt(t, far);
    if toRight {
      assert near == 2 * i + 1 && far == 2 * i + 2;
    } else {
      assert near == 2 * i + 2 && far == 2 * i + 1;
    }
    GoodCompose(t, i);
  }

  /** The rotated subtree encodes the search-tree rotation of the old subtree. */
  lemma RotatedAbs(s: Store, t: Store, i: nat, toRight: bool)
    requires CanRotate(s, i, toRight) && Rotated(s, t, i, toRight)
    ensures Rotatable(Abs(s, i), toRight)
    ensures Abs(t, i) == TreeRotate(Abs(s, i), toRight)
  {
    var near, far := Near(i, toRight), Far(i, toRight);
    RotatedParts(s, t, i, toRight);
    AbsNode(t, far);
    AbsNode(t, i);
    AbsNode(s, i);
    AbsNode(s, near);
  }

  /** A double rotation brings the promoted child's inner child to the root and,
      like a single rotation, keeps the in-order sequence, the values, the size and
      the search-tree property. */
  lemma TreeDoubleRotatePreserves(t: Tree, toRight: bool)
    requires DoubleRotatable(t, toRight)
    ensures TreeDoubleRotate(t, toRight).value
      == (if toRight then t.left.right.value else t.right.left.value)
    ensures InOrder(TreeDoubleRotate(t, toRight)) == InOrder(t)
    ensures Elems(TreeDoubleRotate(t, toRight)) == Elems(t)
    ensures TSize(TreeDoubleRotate(t, toRight)) == TSize(t)
    ensures IsBst(t) ==> IsBst(TreeDoubleRotate(t, toRight))
  {
    var c := NearChild(t, toRight);
    TreeRotatePreserves(c, !toRight);
    var w := WithNear(t, toRight, TreeRotate(c, !toRight));
    if toRight {
      assert InOrder(w) == InOrder(c) + [t.value] + InOrder(t.right);
    } else {
      assert InOrder(w) == InOrder(t.left) + [t.value] + InOrder(c);
    }
    TreeRotatePreserves(w, toRight);
  }

  lemma TreeRotatePreserves(t: Tree, toRight: bool)
    requires Rotatable(t, toRight)
    ensures InOrder(TreeRotate(t, toRight)) == InOrder(t)
    ensures Elems(TreeRotate(t, toRight)) == Elems(t)
    ensures TSize(TreeRotate(t, toRight)) == TSize(t)
    ensures IsBst(t) ==> IsBst(TreeRotate(t, toRight))
  {
    if toRight {
      RotateRightPreserves(t);
    } else {
      RotateLeftPreserves(t);
    }
  }

  /** A change with the effect `Rotated` keeps the whole-buffer invariant, the
      number of values and, on an ordered buffer, the order and the set of values. */
  lemma RotatedGlobal(s: Store, t: Store, i: nat, toRight: bool)
    requires CanRotate(s, i, toRight) && Rotated(s, t, i, toRight)
    ensures GoodAt(t, 0)
    ensures TSize(Abs(t, 0)) == TSize(Abs(s, 0))
    ensures Ordered(s) ==> Ordered(t) && Elems(Abs(t, 0)) == Elems(Abs(s, 0))
  {
    RotatedGood(s, t, i, toRight);
    RotatedAbs(s, t, i, toRight);
    TreeRotatePreserves(Abs(s, i), toRight);
    forall k: nat | Desc(k, i) && k != i
      ensures ElemAt(s, k).Some?
    {
      AncestorsOccupied(s, i, k);
    }
    forall k: nat | Desc(k, i) && k != i
      ensures !Desc(i, k)
    {
      DescBelow(k, i);
      NotDescOfSmaller(i, k);
    }
    DescRoot(i);
    if i != 0 {
      assert Desc(0, i);
    }
    GoodSplice(s, t, i);
    Splice(s, t, i, 0);
    if Ordered(s) {
      OrderedSub(s, i, 0);
    }
  }

  lemma RotateCorrect(s: Store, i: nat, toRight: bool)
    requires Inv(s) && Roomy(s) && ElemAt(s, i).Some? && ElemAt(s, Near(i, toRight)).Some?
    ensures Rotatable(Abs(s, i), toRight)
    ensures var t := ShiftRecount(s, i, toRight);
      && Inv(t)
      && Abs(t, i) == TreeRotate(Abs(s, i), toRight)
      && SameOutside(s, t, i)
      && (forall k: nat :: !Desc(i, k) ==> SizeAt(t, k) == SizeAt(s, k))
      && TSize(Abs(t, 0)) == TSize(Abs(s, 0))
      && (Ordered(s) ==> Ordered(t) && Elems(Abs(t, 0)) == Elems(Abs(s, 0)))
  {
    var t := ShiftRecount(s, i, toRight);
    RotateEffect(s, i, toRight);
    RotatedAbs(s, t, i, toRight);
    RotatedGlobal(s, t, i, toRight);
  }

  /** `rotateRight` (`toRight`) and `rotateLeft` about slot `i` on a buffer with an
      empty bottom level: the encoded subtree is rotated, the invariant and the
      number of values are kept, and on an ordered buffer so are the order and the
      set of values. Nothing outside the rotated subtree changes. */
  function Rotate(s: Store, i: nat, toRight: bool): (t: Store)
    requires Inv(s) && Roomy(s) && ElemAt(s, i).Some? && ElemAt(s, Near(i, toRight)).Some?
    ensures |t.elems| == |s.elems| && t.weightFactor == s.weightFactor
    ensures Inv(t)
    ensures Rotatable(Abs(s, i), toRight) && Abs(t, i) == TreeRotate(Abs(s, i), toRight)
    ensures SameOutside(s, t, i) && (forall k: nat :: !Desc(i, k) ==> SizeAt(t, k) == SizeAt(s, k))
    ensures TSize(Abs(t, 0)) == TSize(Abs(s, 0))
    ensures Ordered(s) ==> Ordered(t) && Elems(Abs(t, 0)) == Elems(Abs(s, 0))
  {
    RotateCorrect(s, i, toRight);
    ShiftRecount(s, i, toRight)
  }
}
