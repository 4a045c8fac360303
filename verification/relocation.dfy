/** Relocation of whole subtrees between index ranges, the primitive behind
    rotations without links. `Move` is the intended effect of the source's
    shift-down, shift-across and shift-up primitives: each slot of the destination
    subtree takes the value and size of the slot at the same relative depth and
    position in the source subtree. */
module Relocation {
  import opened Wrappers
  import opened Implicit
  import opened Bst
  import opened Storage

  /** Relocate the subtree rooted at `a` so that it is rooted at `b`. Source slots
      that are not also destination slots are emptied. */
  function Move(s: Store, a: nat, b: nat): (t: Store)
    requires Valid(s)
    ensures Valid(t) && |t.elems| == |s.elems| && t.weightFactor == s.weightFactor
    ensures Fits(s, a, b) ==> Abs(t, b) == Abs(s, a)
    ensures forall k: nat {:trigger ElemAt(t, k)} :: Desc(b, k) && k < |t.elems| ==>
      ElemAt(t, k) == ElemAt(s, Translate(b, a, k))
    ensures forall k: nat {:trigger SizeAt(t, k)} :: Desc(b, k) && k < |t.elems| ==>
      SizeAt(t, k) == SizeAt(s, Translate(b, a, k))
    ensures forall k: nat {:trigger ElemAt(t, k)} :: !Desc(b, k) && Desc(a, k) ==> ElemAt(t, k) == None
    ensures forall k: nat {:trigger ElemAt(t, k)} :: !Desc(b, k) && !Desc(a, k) ==> ElemAt(t, k) == ElemAt(s, k)
    ensures forall k: nat {:trigger SizeAt(t, k)} :: !Desc(b, k) && !Desc(a, k) ==> SizeAt(t, k) == SizeAt(s, k)
  {
    var n := |s.elems|;
    var t := Store(
      seq(n, k requires 0 <= k < n =>
        if Desc(b, k) then ElemAt(s, Translate(b, a, k))
        else if Desc(a, k) then None
        else s.elems[k]),
      seq(n, k requires 0 <= k < n =>
        if Desc(b, k) then SizeAt(s, Translate(b, a, k))
        else if Desc(a, k) then 0
        else s.sizes[k]),
      s.weightFactor);
    MovedAbs(s, t, a, b);
    t
  }

  /** A buffer that holds, below `b`, the values found at the corresponding slots
      below `a` encodes at `b` the tree encoded at `a`, provided nothing below `a`
      corresponds to a slot past the end. */
  lemma MovedAbs(s: Store, t: Store, a: nat, b: nat)
    requires |t.elems| == |s.elems|
    requires forall m: nat {:trigger ElemAt(t, m)} ::
      Desc(b, m) && m < |t.elems| ==> ElemAt(t, m) == ElemAt(s, Translate(b, a, m))
    ensures Fits(s, a, b) ==> Abs(t, b) == Abs(s, a)
  {
    if Fits(s, a, b) {
      forall m: nat {:trigger ElemAt(t, m)} | Desc(b, m)
        ensures ElemAt(t, m) == ElemAt(s, Translate(b, a, m))
      {
      }
      assert Desc(b, b);
      AbsTranslate(s, t, a, b, b);
    }
  }

  /** Nothing of the source subtree would land past the end of the buffer. */
  ghost predicate Fits(s: Store, a: nat, b: nat)
  {
    forall m: nat :: Desc(b, m) && m >= |s.elems| ==> ElemAt(s, Translate(b, a, m)) == None
  }

  /** Slot-by-slot effect of a relocation. */
  lemma MoveSlot(s: Store, a: nat, b: nat, k: nat)
    requires Valid(s)
    ensures Desc(b, k) && k < |s.elems| ==>
      ElemAt(Move(s, a, b), k) == ElemAt(s, Translate(b, a, k))
      && SizeAt(Move(s, a, b), k) == SizeAt(s, Translate(b, a, k))
    ensures !Desc(b, k) && Desc(a, k) ==> ElemAt(Move(s, a, b), k) == None
    ensures !Desc(b, k) && !Desc(a, k) ==>
      ElemAt(Move(s, a, b), k) == ElemAt(s, k) && SizeAt(Move(s, a, b), k) == SizeAt(s, k)
  {
  }

  /** Two buffers whose subtrees at `b` and `a` agree slot for slot under the
      relocation map encode the same trees there. */
  lemma {:induction false} AbsTranslate(s: Store, t: Store, a: nat, b: nat, k: nat)
    requires Desc(b, k)
    requires forall m: nat {:trigger ElemAt(t, m)} :: Desc(b, m) ==> ElemAt(t, m) == ElemAt(s, Translate(b, a, m))
    ensures Abs(t, k) == Abs(s, Translate(b, a, k))
    decreases |t.elems| - k
  {
    var src := Translate(b, a, k);
    assert ElemAt(t, k) == ElemAt(s, src);
    if ElemAt(t, k).Some? {
      TranslateChild(b, a, k);
      var l, r := 2 * k + 1, 2 * k + 2;
      AbsTranslate(s, t, a, b, l);
      AbsTranslate(s, t, a, b, r);
      AbsNode(t, k);
      AbsNode(s, src);
    }
  }

  /** The relocated subtree encodes the same tree as its source, slot for slot. */
  lemma MoveAbs(s: Store, a: nat, b: nat, k: nat)
    requires Valid(s) && Fits(s, a, b) && Desc(b, k)
    ensures Abs(Move(s, a, b), k) == Abs(s, Translate(b, a, k))
  {
    var t := Move(s, a, b);
    forall m: nat | Desc(b, m)
      ensures ElemAt(t, m) == ElemAt(s, Translate(b, a, m))
    {
      MoveSlot(s, a, b, m);
    }
    AbsTranslate(s, t, a, b, k);
  }

  /** Premises shared by the relocation lemmas: the subtree of `b` in `t` copies the
      subtree of `a` in `s` slot for slot, sizes included except possibly at `b`. */
  ghost predicate Copies(s: Store, t: Store, a: nat, b: nat)
  {
    && (forall m: nat {:trigger ElemAt(t, m)} :: Desc(b, m) ==> ElemAt(t, m) == ElemAt(s, Translate(b, a, m)))
    && (forall m: nat {:trigger SizeAt(t, m)} :: Desc(b, m) && m != b && m < |t.elems| ==>
          SizeAt(t, m) == SizeAt(s, Translate(b, a, m)))
  }

  /** The root of a copy records the right size if it either copies the source's
      size or satisfies the size recurrence. */
  lemma CopyRootSize(s: Store, t: Store, a: nat, b: nat)
    requires GoodAt(s, a) && Copies(s, t, a, b) && b < |t.elems|
    requires SizeAt(t, b) == SizeAt(s, a) || SizeOkAt(t, b)
    ensures SizeAt(t, b) == TSize(Abs(t, b))
  {
    assert Desc(b, b) && Desc(a, a);
    AbsTranslate(s, t, a, b, b);
    if SizeOkAt(t, b) && ElemAt(t, b).Some? {
      TranslateChild(b, a, b);
      AbsTranslate(s, t, a, b, 2 * b + 1);
      AbsTranslate(s, t, a, b, 2 * b + 2);
      DescChildren(a, a);
      assert 2 * b + 1 < |t.elems| ==> SizeAt(t, 2 * b + 1) == SizeAt(s, 2 * a + 1);
      assert 2 * b + 2 < |t.elems| ==> SizeAt(t, 2 * b + 2) == SizeAt(s, 2 * a + 2);
      assert Abs(s, a) == Node(Abs(s, 2 * a + 1), ElemAt(s, a).value, Abs(s, 2 * a + 2));
    }
  }

  /** One slot below the root of a copy records the right size... */
  lemma CopySlotSize(s: Store, t: Store, a: nat, b: nat, k: nat)
    requires GoodAt(s, a) && Copies(s, t, a, b) && Desc(b, k) && k != b
    ensures SizeAt(t, k) == TSize(Abs(t, k))
  {
    AbsTranslate(s, t, a, b, k);
    if k < |t.elems| {
      assert SizeAt(t, k) == SizeAt(s, Translate(b, a, k));
    }
  }

  /** ...and hangs below an occupied slot when it is occupied. */
  lemma CopySlotParent(s: Store, t: Store, a: nat, b: nat, k: nat)
    requires GoodAt(s, a) && Copies(s, t, a, b) && Desc(b, k) && k != b
    requires ElemAt(t, k).Some?
    ensures ElemAt(t, (k - 1) / 2).Some?
  {
    var p := (k - 1) / 2;
    assert Desc(b, p);
    var up := Translate(b, a, p);
    var src := Translate(b, a, k);
    assert src == if k % 2 == 1 then 2 * up + 1 else 2 * up + 2;
    DescBelow(a, up);
    assert (src - 1) / 2 == up;
    assert ElemAt(t, k) == ElemAt(s, src);
    assert Desc(a, src);
    assert ElemAt(s, up).Some?;
    assert ElemAt(t, p) == ElemAt(s, up);
  }

  /** A subtree that copies a well-formed subtree slot for slot under the relocation
      map is well formed, and encodes the same tree. */
  lemma GoodTranslate(s: Store, t: Store, a: nat, b: nat)
    requires GoodAt(s, a) && Copies(s, t, a, b)
    requires b < |t.elems| ==> SizeAt(t, b) == SizeAt(s, a) || SizeOkAt(t, b)
    ensures GoodAt(t, b) && Abs(t, b) == Abs(s, a)
  {
    assert Desc(b, b);
    AbsTranslate(s, t, a, b, b);
    if b < |t.elems| {
      CopyRootSize(s, t, a, b);
    }
    forall k: nat | Desc(b, k) && k != b
      ensures SizeAt(t, k) == TSize(Abs(t, k))
      ensures ElemAt(t, k).Some? ==> ElemAt(t, (k - 1) / 2).Some?
    {
      CopySlotSize(s, t, a, b, k);
      if ElemAt(t, k).Some? {
        CopySlotParent(s, t, a, b, k);
      }
    }
  }

  /** In a buffer of capacity 2^e with room below every occupied slot, occupied
      slots lie at least two levels above the first slot past the end. */
  lemma RoomyLevel(s: Store, m: nat)
    requires Valid(s) && Roomy(s) && ElemAt(s, m).Some?
    ensures Level(m) + 2 <= Log2(|s.elems|)
  {
    var n := |s.elems|;
    var e := Log2(n);
    assert s.elems[m].Some?;
    assert 2 * m + 2 < n;
    assert e != 0;
    var half := Pow2(e - 1);
    assert n == 2 * half;
    var c := 2 * m + 2;
    assert c < n - 1;
    LevelBelow(c, e);
    assert Level(c) == 1 + Level(m) by {
      assert (c - 1) / 2 == m;
    }
  }

  /** Slots past the end of a buffer of capacity 2^e lie at level e or deeper. */
  lemma BeyondLevel(s: Store, m: nat)
    requires Valid(s) && m >= |s.elems|
    ensures Level(m) >= Log2(|s.elems|)
  {
    LevelBelow(m, Log2(|s.elems|));
  }

  /** A buffer with room below every occupied slot fits any relocation that moves
      nodes at most one level deeper. */
  lemma RoomyFits(s: Store, a: nat, b: nat)
    requires Valid(s) && Roomy(s) && Level(b) <= Level(a) + 1
    ensures Fits(s, a, b)
  {
    forall m: nat | Desc(b, m) && m >= |s.elems|
      ensures ElemAt(s, Translate(b, a, m)) == None
    {
      var src := Translate(b, a, m);
      TranslateLevel(b, a, m);
      BeyondLevel(s, m);
      if ElemAt(s, src).Some? {
        RoomyLevel(s, src);
      }
    }
  }

  /** Fitting depends only on the source subtree's contents. */
  lemma FitsTransfer(s: Store, t: Store, a: nat, b: nat)
    requires Fits(s, a, b) && |t.elems| == |s.elems|
    requires forall k: nat :: Desc(a, k) ==> ElemAt(s, k) == ElemAt(t, k)
    ensures Fits(t, a, b)
  {
  }

  // ---------------------------------------------------------------------------
  // The per-level index maps of the source's relocation loops.
  //
  // A move handles the subtree level by level. At relative depth `d` the nodes
  // are the slots At(root, d, p) for 0 <= p < 2^d.

  /** Distributivity facts about a level width `w`, kept apart from `Pow2`. */
  lemma Widths(a: nat, w: int)
    ensures (2 * a + 2) * w == 2 * ((a + 1) * w)
    ensures (2 * a + 3) * w == (a + 1) * w + (a + 2) * w
    ensures (a + 2) * w == (a + 1) * w + w
    ensures (2 * a + 3) * w == 2 * ((a + 1) * w) + w
  {
  }

  /** shift-down-left at one level: `i` is the leftmost slot of the level, and slot
      `j` is written to `2j + 1 - (j - i)`. */
  function DownLeftDest(i: nat, j: nat): int
  {
    2 * j + (1 - (j - i))
  }

  /** The left shift-down is exact: it moves each node to the same relative place
      below the root's left child, and the next level starts at `2i + 1`. */
  lemma DownLeftExact(a: nat, d: nat, p: nat)
    requires p < Pow2(d)
    ensures At(a, d, p) == At(a, d, 0) + p
    ensures Desc(2 * a + 1, At(2 * a + 1, d, p))
    ensures DownLeftDest(At(a, d, 0), At(a, d, p)) == At(2 * a + 1, d, p)
    ensures 2 * At(a, d, 0) + 1 == At(a, d + 1, 0)
    ensures Translate(2 * a + 1, a, DownLeftDest(At(a, d, 0), At(a, d, p))) == At(a, d, p)
  {
    AtChild(a, d, 0, 0);
    TranslateAt(2 * a + 1, a, d, p);
    Widths(a, Pow2(d));
  }


  /** shift-down-right at one level as written: `i` is the rightmost slot of the
      level, the scanned slots are `[i - 2^level, i)`, and slot `j` goes to
      `2j + 2 + (j - (i - 2^level))`. */
  predicate DownRightScannedAsWritten(i: nat, level: nat, j: int)
  {
    i - Pow2(level) <= j < i
  }

  function DownRightDestAsWritten(i: nat, level: nat, j: int): int
  {
    2 * j + (2 + (j - (i - Pow2(level))))
  }

  /** shift-down-right at one level, corrected: the scanned slots are
      `(i - 2^level, i]` and slot `j` goes to `2j + 2 + (i - j)`. */
  predicate DownRightScanned(i: nat, level: nat, j: int)
  {
    i - Pow2(level) < j <= i
  }

  function DownRightDest(i: nat, j: int): int
  {
    2 * j + 2 + (i - j)
  }

  /** The corrected right shift-down scans exactly the level and moves each node to
      the same relative place below the root's right child. */
  lemma DownRightExact(a: nat, d: nat, p: nat)
    requires p < Pow2(d)
    ensures Desc(2 * a + 2, At(2 * a + 2, d, p))
    ensures DownRightScanned(At(a, d, Pow2(d) - 1), d, At(a, d, p))
    ensures DownRightDest(At(a, d, Pow2(d) - 1), At(a, d, p)) == At(2 * a + 2, d, p)
    ensures 2 * At(a, d, Pow2(d) - 1) + 2 == At(a, d + 1, Pow2(d + 1) - 1)
    ensures Translate(2 * a + 2, a, DownRightDest(At(a, d, Pow2(d) - 1), At(a, d, p))) == At(a, d, p)
  {
    TranslateAt(2 * a + 2, a, d, p);
    AtChild(a, d, Pow2(d) - 1, 1);
    Widths(a, Pow2(d));
    assert Pow2(d + 1) == 2 * Pow2(d);
  }


  /** As written, the right shift-down never reads the root of the moved subtree:
      no level's scan contains it, so its value is never relocated. */
  lemma DownRightAsWrittenSkipsRoot(a: nat, d: nat)
    requires a >= 1
    ensures !DownRightScannedAsWritten(At(a, d, Pow2(d) - 1), d, a)
  {
    if d >= 1 {
      assert Pow2(d) == 2 * Pow2(d - 1);
      assert (a + 1) * Pow2(d) >= (a + 1) * 2;
    }
  }

  /** At the top level of `rotateRight(i)`'s shift-down of the slot `2i + 2`, the
      source reads only the left child `2i + 1` and writes it to `4i + 4`. */
  lemma DownRightAsWrittenTopLevel(i: nat, j: int)
    ensures DownRightScannedAsWritten(2 * i + 2, 0, j) <==> j == 2 * i + 1
    ensures DownRightDestAsWritten(2 * i + 2, 0, 2 * i + 1) == 4 * i + 4
    ensures DownRightScanned(2 * i + 2, 0, j) <==> j == 2 * i + 2
    ensures DownRightDest(2 * i + 2, 2 * i + 2) == 4 * i + 6
  {
  }

  /** shift-across as written: at relative depth `d` the offset is `d + 1`. */
  function AcrossDestAsWritten(k: nat, isRightMove: bool, d: nat): int
  {
    var direction := if isRightMove then 1 else -1;
    k + direction * (d + 1)
  }

  /** shift-across, corrected: adjacent subtrees at the same level are `2^d` apart at relative depth `d`. */
  function AcrossDest(k: nat, isRightMove: bool, d: nat): int
  {
    var direction := if isRightMove then 1 else -1;
    k + direction * Pow2(d)
  }

  /** The corrected across map moves the subtree of `a` onto the subtree of its
      right neighbour `a + 1` (and back), node for node. */
  lemma AcrossExact(a: nat, d: nat, p: nat)
    requires p < Pow2(d)
    ensures Desc(a + 1, At(a + 1, d, p)) && Desc(a, At(a, d, p))
    ensures AcrossDest(At(a, d, p), true, d) == At(a + 1, d, p)
    ensures AcrossDest(At(a + 1, d, p), false, d) == At(a, d, p)
    ensures Translate(a + 1, a, At(a + 1, d, p)) == At(a, d, p)
    ensures Translate(a, a + 1, At(a, d, p)) == At(a + 1, d, p)
  {
    TranslateAt(a + 1, a, d, p);
    TranslateAt(a, a + 1, d, p);
    Widths(a, Pow2(d));
  }


  /** The source's offset agrees with the correct one exactly at relative depths 0 and 1. */
  lemma AcrossAsWrittenOnlyNearTop(k: nat, isRightMove: bool, d: nat)
    ensures AcrossDestAsWritten(k, isRightMove, d) == AcrossDest(k, isRightMove, d) <==> d <= 1
  {
    if d >= 2 {
      Pow2Exceeds(d);
    }
  }

  lemma {:induction false} Pow2Exceeds(d: nat)
    requires d >= 2
    ensures Pow2(d) > d + 1
  {
    if d > 2 {
      Pow2Exceeds(d - 1);
    }
  }

  /** Counterexample: in `rotateRight(0)` the across move of the subtree at 4 puts its
      depth-2 node 19 at 22, where the correct slot is 23. */
  lemma AcrossAsWrittenExample()
    ensures At(4, 2, 0) == 19 && At(5, 2, 0) == 23
    ensures AcrossDestAsWritten(19, true, 2) == 22
    ensures AcrossDest(19, true, 2) == 23
  {
    assert Pow2(2) == 4;
  }

  /** Slots two levels below `a`. */
  lemma AtDepthTwo(a: nat, p: nat)
    ensures At(a, 2, p) == 4 * a + 3 + p
  {
    assert Pow2(2) == 4;
    calc {
      At(a, 2, p);
      (a + 1) * Pow2(2) - 1 + p;
      (a + 1) * 4 - 1 + p;
    }
  }

  /** shift-up-right as written: the count handed to a node is the number of right
      steps from the moved root (left child keeps the count, right child adds one). */
  function UpRightCountAsWritten(a: nat, k: nat): nat
    requires Desc(a, k)
    decreases k
  {
    if k == a then 0
    else UpRightCountAsWritten(a, (k - 1) / 2) + (if k % 2 == 0 then 1 else 0)
  }

  /** shift-up-right destination for a node with count `c`: `(k + c - 1) / 2`
      (non-negative operands, so truncation and floor agree). */
  function UpRightDest(k: nat, c: int): int
  {
    (k + (c - 1)) / 2
  }

  /** With the count equal to the node's position from the left, shift-up-right moves
      the subtree of a left child `a = 2P + 1` onto `P`, node for node. */
  lemma UpRightExact(parent: nat, d: nat, p: nat)
    requires p < Pow2(d)
    ensures Desc(parent, At(parent, d, p))
    ensures UpRightDest(At(2 * parent + 1, d, p), p) == At(parent, d, p)
    ensures Translate(parent, 2 * parent + 1, At(parent, d, p)) == At(2 * parent + 1, d, p)
  {
    TranslateAt(parent, 2 * parent + 1, d, p);
    Widths(parent, Pow2(d));
  }


  /** The source's count is the position for the top two levels of the moved group... */
  lemma UpRightAsWrittenNearTop(a: nat)
    ensures UpRightCountAsWritten(a, a) == 0 == At(a, 0, 0) - a
    ensures UpRightCountAsWritten(a, 2 * a + 1) == 0
    ensures UpRightCountAsWritten(a, 2 * a + 2) == 1
  {
    DescChildren(a, a);
    assert (2 * a + 1 - 1) / 2 == a && (2 * a + 2 - 1) / 2 == a;
  }

  /** ...but not below: the left child of the right child (position 2 at depth 2)
      gets count 1 and lands on `2a + 2` instead of `2a + 3`. */
  lemma UpRightAsWrittenExample(a: nat)
    ensures Desc(a, 4 * a + 5) && At(a, 2, 2) == 4 * a + 5
    ensures UpRightCountAsWritten(a, 4 * a + 5) == 1
    ensures UpRightDest(4 * a + 5, 1) == 2 * a + 2
    ensures UpRightDest(4 * a + 5, 2) == 2 * a + 3
  {
    UpRightAsWrittenNearTop(a);
    DescChildren(a, a);
    DescChildren(a, 2 * a + 2);
    var k := 4 * a + 5;
    assert (k - 1) / 2 == 2 * a + 2 && k % 2 == 1 && k != a;
    assert UpRightCountAsWritten(a, k) == UpRightCountAsWritten(a, 2 * a + 2);
    AtDepthTwo(a, 2);
  }

  /** shift-up-left as written: the count handed to a node is the number of left
      steps from the moved root (left child adds one, right child keeps the count). */
  function UpLeftCountAsWritten(a: nat, k: nat): nat
    requires Desc(a, k)
    decreases k
  {
    if k == a then 0
    else UpLeftCountAsWritten(a, (k - 1) / 2) + (if k % 2 == 1 then 1 else 0)
  }

  /** shift-up-left destination for a node with count `c`: `(k - (c + 1)) / 2`. */
  function UpLeftDest(k: nat, c: int): int
  {
    (k - (c + 1)) / 2
  }

  /** With the count equal to the node's position from the right, shift-up-left moves
      the subtree of a right child `a = 2P + 2` onto `P`, node for node. */
  lemma UpLeftExact(parent: nat, d: nat, p: nat)
    requires p < Pow2(d)
    ensures Desc(parent, At(parent, d, p))
    ensures UpLeftDest(At(2 * parent + 2, d, p), Pow2(d) - 1 - p) == At(parent, d, p)
    ensures Translate(parent, 2 * parent + 2, At(parent, d, p)) == At(2 * parent + 2, d, p)
  {
    TranslateAt(parent, 2 * parent + 2, d, p);
    Widths(parent, Pow2(d));
    var x := (parent + 1) * Pow2(d) + p;
    assert At(2 * parent + 2, d, p) - (Pow2(d) - 1 - p + 1) == 2 * x - 1;
    assert (2 * x - 1) / 2 == x - 1;
  }


  lemma UpLeftAsWrittenNearTop(a: nat)
    ensures UpLeftCountAsWritten(a, a) == 0
    ensures UpLeftCountAsWritten(a, 2 * a + 1) == 1
    ensures UpLeftCountAsWritten(a, 2 * a + 2) == 0
  {
    DescChildren(a, a);
    assert (2 * a + 1 - 1) / 2 == a && (2 * a + 2 - 1) / 2 == a;
  }

  /** The right child of the left child (position 1 from the left, 2 from the right,
      at depth 2) gets count 1 and lands on `2a + 1` instead of `2a`. */
  lemma UpLeftAsWrittenExample(a: nat)
    ensures Desc(a, 4 * a + 4) && At(a, 2, 1) == 4 * a + 4
    ensures UpLeftCountAsWritten(a, 4 * a + 4) == 1
    ensures UpLeftDest(4 * a + 4, 1) == 2 * a + 1
    ensures UpLeftDest(4 * a + 4, 2) == 2 * a
  {
    UpLeftAsWrittenNearTop(a);
    DescChildren(a, a);
    DescChildren(a, 2 * a + 1);
    assert (4 * a + 4 - 1) / 2 == 2 * a + 1;
    AtDepthTwo(a, 1);
  }

  /** The slots of the top `h` levels below `a` in the order the source's recursive
      moves visit them: node, then its left subtree, then its right subtree. */
  function Preorder(a: nat, h: nat): seq<nat>
    decreases h
  {
    if h == 0 then [] else [a] + Preorder(2 * a + 1, h - 1) + Preorder(2 * a + 2, h - 1)
  }

  /** Even with corrected counts, a depth-first shift-up overwrites a slot before
      reading it: the depth-2 node `4a + 4` is visited (fourth) before the depth-1
      node `2a + 2` (fifth), and its destination is exactly the slot `2a + 2`. */
  lemma UpRightPreorderClobbers(parent: nat)
    ensures var a := 2 * parent + 1;
      && Preorder(a, 3) == [a, 2 * a + 1, 4 * a + 3, 4 * a + 4, 2 * a + 2, 4 * a + 5, 4 * a + 6]
      && At(a, 2, 1) == 4 * a + 4
      && UpRightDest(4 * a + 4, 1) == 2 * a + 2
  {
    var a := 2 * parent + 1;
    AtDepthTwo(a, 1);
    PreorderTwo(2 * a + 1);
    PreorderTwo(2 * a + 2);
    var b, c := 2 * a + 1, 2 * a + 2;
    assert 2 * b + 1 == 4 * a + 3 && 2 * b + 2 == 4 * a + 4 && 2 * c + 1 == 4 * a + 5 && 2 * c + 2 == 4 * a + 6;
    assert Preorder(a, 3) == [a] + [b, 2 * b + 1, 2 * b + 2] + [c, 2 * c + 1, 2 * c + 2];
    assert (4 * a + 4 + (1 - 1)) / 2 == 2 * a + 2;
  }

  lemma PreorderTwo(b: nat)
    ensures Preorder(b, 2) == [b, 2 * b + 1, 2 * b + 2]
  {
    assert Preorder(2 * b + 1, 1) == [2 * b + 1] + [] + [];
    assert Preorder(2 * b + 2, 1) == [2 * b + 2] + [] + [];
  }
}
