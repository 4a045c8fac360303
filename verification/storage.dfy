/** The storage layer: the pair of parallel buffers, its abstraction to an
    inductive tree, the structural invariants, construction and doubling growth. */
module Storage {
  import opened Wrappers
  import opened Implicit
  import opened Bst

  datatype Error = InvalidStartSize(startSize: int)

  /** `elems[k]` is the value at slot `k` (`None` for an empty slot); `sizes[k]` is
      the recorded size of the subtree rooted at `k`. The capacity is `|elems|`. */
  datatype Store = Store(elems: seq<Option<int>>, sizes: seq<int>, weightFactor: int)

  predicate IsPow2(n: int)
    decreases if n > 0 then n else 0
  {
    n == 1 || (n > 1 && n % 2 == 0 && IsPow2(n / 2))
  }

  predicate Valid(s: Store)
  {
    |s.elems| == |s.sizes| && IsPow2(|s.elems|)
  }

  /** Slot read that treats every index past the capacity as an empty slot. */
  function ElemAt(s: Store, k: nat): Option<int>
  {
    if k < |s.elems| then s.elems[k] else None
  }

  /** Size read that treats every index past the capacity as an empty subtree. */
  function SizeAt(s: Store, k: nat): int
  {
    if k < |s.elems| && k < |s.sizes| then s.sizes[k] else 0
  }

  /** The tree encoded from slot `k` downward: an empty or out-of-bounds slot ends a branch. */
  function Abs(s: Store, k: nat): Tree
    decreases |s.elems| - k
  {
    if k >= |s.elems| then Leaf
    else match s.elems[k]
      case None => Leaf
      case Some(v) => Node(Abs(s, 2 * k + 1), v, Abs(s, 2 * k + 2))
  }

  /** Within the subtree rooted at `j`: every recorded size is the number of values
      below and at that slot, and no occupied slot hangs below an empty one. */
  ghost predicate GoodAt(s: Store, j: nat)
  {
    forall k: nat {:trigger Desc(j, k)} :: Desc(j, k) ==>
      && SizeAt(s, k) == TSize(Abs(s, k))
      && (k != j && ElemAt(s, k).Some? ==> ElemAt(s, (k - 1) / 2).Some?)
  }

  /** The structural invariant of the whole buffer pair. */
  ghost predicate Inv(s: Store)
  {
    Valid(s) && GoodAt(s, 0)
  }

  /** The order invariant: the encoded tree is a search tree. */
  predicate Ordered(s: Store)
  {
    IsBst(Abs(s, 0))
  }

  /** The size invariant as the source states it, slot by slot. */
  predicate SizeRecurrence(s: Store)
  {
    forall k :: 0 <= k < |s.elems| ==> SizeOkAt(s, k)
  }

  predicate SizeOkAt(s: Store, k: nat)
    requires k < |s.elems|
  {
    SizeAt(s, k) == (if s.elems[k].None? then 0 else 1 + SizeAt(s, 2 * k + 1) + SizeAt(s, 2 * k + 2))
  }

  /** An empty slot has no occupied slot below it. */
  predicate NoOrphans(s: Store)
  {
    forall k :: 0 < k < |s.elems| ==> ParentOccupied(s, k)
  }

  predicate ParentOccupied(s: Store, k: nat)
    requires 0 < k < |s.elems|
  {
    s.elems[k].Some? ==> s.elems[(k - 1) / 2].Some?
  }

  /** Every occupied slot has both children inside the buffer. */
  predicate Roomy(s: Store)
  {
    forall k :: 0 <= k < |s.elems| && s.elems[k].Some? ==> 2 * k + 2 < |s.elems|
  }

  function Log2(n: int): (e: nat)
    requires IsPow2(n)
    ensures Pow2(e) == n
    decreases if n > 0 then n else 0
  {
    if n == 1 then 0 else 1 + Log2(n / 2)
  }

  function HighestOneBit(n: int): (r: int)
    requires n >= 1
    ensures IsPow2(r) && r <= n < 2 * r
  {
    if n == 1 then 1 else 2 * HighestOneBit(n / 2)
  }

  /** Construction: rejects a start size below one, otherwise rounds it up to a power of two. */
  function New(startSize: int, weightFactor: int): (r: Result<Store, Error>)
    ensures r.Failure? <==> startSize < 1
    ensures r.Failure? ==> r.error == InvalidStartSize(startSize)
    ensures r.Success? ==>
      && Inv(r.value) && Roomy(r.value) && Abs(r.value, 0) == Leaf
      && startSize <= |r.value.elems| < 2 * startSize
      && r.value.weightFactor == weightFactor
      && (forall k :: 0 <= k < |r.value.elems| ==> r.value.elems[k] == None && r.value.sizes[k] == 0)
  {
    if startSize < 1 then Failure(InvalidStartSize(startSize))
    else
      var capacity := if IsPow2(startSize) then startSize else 2 * HighestOneBit(startSize);
      var s := Store(seq(capacity, _ => None), seq(capacity, _ => 0), weightFactor);
      assert IsPow2(capacity) by {
        if !IsPow2(startSize) {
          var h := HighestOneBit(startSize);
          assert (2 * h) / 2 == h;
        }
      }
      EmptyIsGood(s);
      Success(s)
  }

  /** Doubling growth: every slot keeps its value and size, the new half is empty. */
  function Grow(s: Store): (g: Store)
    requires Valid(s)
    ensures Valid(g) && |g.elems| == 2 * |s.elems|
    ensures g.weightFactor == s.weightFactor
    ensures forall k :: 0 <= k < |s.elems| ==> g.elems[k] == s.elems[k] && g.sizes[k] == s.sizes[k]
    ensures forall k :: |s.elems| <= k < |g.elems| ==> g.elems[k] == None && g.sizes[k] == 0
    ensures forall k: nat :: ElemAt(g, k) == ElemAt(s, k) && SizeAt(g, k) == SizeAt(s, k)
  {
    var n := |s.elems|;
    var g := Store(s.elems + seq(n, _ => None), s.sizes + seq(n, _ => 0), s.weightFactor);
    assert (2 * n) / 2 == n;
    g
  }

  /** Growth until every occupied slot has both children in the buffer (at most twice). */
  function EnsureRoom(s: Store): (g: Store)
    requires Valid(s)
    ensures Valid(g) && Roomy(g) && |g.elems| >= |s.elems|
    ensures g.weightFactor == s.weightFactor
    ensures forall k: nat :: ElemAt(g, k) == ElemAt(s, k) && SizeAt(g, k) == SizeAt(s, k)
  {
    if Roomy(s) then s
    else if Roomy(Grow(s)) then Grow(s)
    else Grow(Grow(s))
  }

  // ---------------------------------------------------------------------------
  // Lemmas about the abstraction

  lemma EmptyIsGood(s: Store)
    requires forall k :: 0 <= k < |s.elems| ==> s.elems[k] == None
    requires forall k :: 0 <= k < |s.sizes| ==> s.sizes[k] == 0
    ensures GoodAt(s, 0) && Roomy(s) && Abs(s, 0) == Leaf
  {
    forall k: nat
      ensures Abs(s, k) == Leaf
    {
    }
  }

  lemma {:induction false} DescRoot(k: nat)
    ensures Desc(0, k)
    decreases k
  {
    if k > 0 {
      DescRoot((k - 1) / 2);
    }
  }

  /** An occupied slot encodes a node over its children's subtrees. */
  lemma AbsNode(s: Store, k: nat)
    requires ElemAt(s, k).Some?
    ensures Abs(s, k) == Node(Abs(s, 2 * k + 1), ElemAt(s, k).value, Abs(s, 2 * k + 2))
  {
  }

  /** The abstraction of a subtree reads only the slots of that subtree. */
  lemma {:induction false} AbsFrame(s: Store, t: Store, j: nat)
    requires forall k: nat :: Desc(j, k) ==> ElemAt(s, k) == ElemAt(t, k)
    ensures Abs(s, j) == Abs(t, j)
    decreases (if |s.elems| > |t.elems| then |s.elems| else |t.elems|) - j
  {
    assert ElemAt(s, j) == ElemAt(t, j);
    if ElemAt(s, j).Some? {
      DescChildren(j, j);
      forall c: nat, k: nat | (c == 2 * j + 1 || c == 2 * j + 2) && Desc(c, k)
        ensures ElemAt(s, k) == ElemAt(t, k)
      {
        DescTrans(j, c, k);
      }
      AbsFrame(s, t, 2 * j + 1);
      AbsFrame(s, t, 2 * j + 2);
    }
  }

  /** Agreement on a subtree's slots and sizes carries the invariant across. */
  lemma GoodFrame(s: Store, t: Store, j: nat)
    requires forall k: nat :: Desc(j, k) ==> ElemAt(s, k) == ElemAt(t, k) && SizeAt(s, k) == SizeAt(t, k)
    requires GoodAt(s, j)
    ensures GoodAt(t, j) && Abs(s, j) == Abs(t, j)
  {
    AbsFrame(s, t, j);
    forall k: nat | Desc(j, k)
      ensures SizeAt(t, k) == TSize(Abs(t, k))
      ensures k != j && ElemAt(t, k).Some? ==> ElemAt(t, (k - 1) / 2).Some?
    {
      forall m: nat | Desc(k, m)
        ensures ElemAt(s, m) == ElemAt(t, m)
      {
        DescTrans(j, k, m);
      }
      AbsFrame(s, t, k);
      if k != j {
        DescBelow(j, k);
        assert Desc(j, (k - 1) / 2);
      }
    }
  }

  /** The invariant of a subtree holds in each of its subtrees. */
  lemma GoodSub(s: Store, j: nat, x: nat)
    requires GoodAt(s, j) && Desc(j, x)
    ensures GoodAt(s, x)
  {
    forall k: nat | Desc(x, k)
      ensures SizeAt(s, k) == TSize(Abs(s, k))
      ensures k != x && ElemAt(s, k).Some? ==> ElemAt(s, (k - 1) / 2).Some?
    {
      DescTrans(j, x, k);
      if k != x {
        DescBelow(x, k);
        NotDescOfSmaller(k, j);
        assert k != j;
      }
    }
  }

  /** The invariant of a subtree follows from that of both child subtrees, the size
      recurrence at its root, and an occupied root above any occupied child. */
  lemma GoodCompose(s: Store, k: nat)
    requires k < |s.elems| && GoodAt(s, 2 * k + 1) && GoodAt(s, 2 * k + 2) && SizeOkAt(s, k)
    requires ElemAt(s, 2 * k + 1).Some? || ElemAt(s, 2 * k + 2).Some? ==> ElemAt(s, k).Some?
    ensures GoodAt(s, k)
  {
    var l, r := 2 * k + 1, 2 * k + 2;
    assert Desc(l, l) && Desc(r, r);
    forall m: nat | Desc(k, m)
      ensures SizeAt(s, m) == TSize(Abs(s, m))
      ensures m != k && ElemAt(s, m).Some? ==> ElemAt(s, (m - 1) / 2).Some?
    {
      if m != k {
        DescStep(k, m);
        assert (l - 1) / 2 == k && (r - 1) / 2 == k;
      }
    }
  }

  /** The invariant and the source's slot-by-slot size recurrence say the same thing. */
  lemma InvIsLocal(s: Store)
    requires Valid(s)
    ensures GoodAt(s, 0) <==> SizeRecurrence(s) && NoOrphans(s)
  {
    if GoodAt(s, 0) {
      forall k | 0 <= k < |s.elems|
        ensures SizeOkAt(s, k)
      {
        DescRoot(k);
        DescRoot(2 * k + 1);
        DescRoot(2 * k + 2);
      }
      forall k | 0 < k < |s.elems|
        ensures ParentOccupied(s, k)
      {
        DescRoot(k);
      }
    }
    if SizeRecurrence(s) && NoOrphans(s) {
      forall k: nat | Desc(0, k)
        ensures SizeAt(s, k) == TSize(Abs(s, k))
        ensures k != 0 && ElemAt(s, k).Some? ==> ElemAt(s, (k - 1) / 2).Some?
      {
        LocalSizes(s, k);
        if k != 0 && k < |s.elems| {
          assert ParentOccupied(s, k);
        }
      }
    }
  }

  lemma {:induction false} LocalSizes(s: Store, k: nat)
    requires Valid(s) && SizeRecurrence(s)
    ensures SizeAt(s, k) == TSize(Abs(s, k))
    decreases |s.elems| - k
  {
    if k < |s.elems| {
      assert SizeOkAt(s, k);
    }
    if k < |s.elems| && s.elems[k].Some? {
      LocalSizes(s, 2 * k + 1);
      LocalSizes(s, 2 * k + 2);
    }
  }

  /** Every recorded size is non-negative under the invariant. */
  lemma SizesNonNegative(s: Store)
    requires Inv(s)
    ensures forall k: nat :: SizeAt(s, k) >= 0
  {
    forall k: nat
      ensures SizeAt(s, k) >= 0
    {
      DescRoot(k);
    }
  }
}
