/** Read-only navigation: locating a value's slot, membership, and rank access. */
module Navigation {
  import opened Wrappers
  import opened Implicit
  import opened Bst
  import opened Storage

  /** The descent of `findIndex` from slot `i`: stops at the first empty or
      out-of-bounds slot, or at a slot holding `v`. */
  function FindFrom(s: Store, v: int, i: nat): (r: nat)
    ensures Desc(i, r)
    ensures ElemAt(s, r) == None || ElemAt(s, r) == Some(v)
    ensures i < |s.elems| ==> r <= 2 * |s.elems|
    ensures r >= |s.elems| ==> r == i || (r - 1) / 2 < |s.elems|
    decreases |s.elems| - i
  {
    if i >= |s.elems| || s.elems[i].None? then i
    else if v == s.elems[i].value then i
    else
      var c := if v < s.elems[i].value then 2 * i + 1 else 2 * i + 2;
      var r := FindFrom(s, v, c);
      DescChildren(i, i);
      DescTrans(i, c, r);
      DescBelow(c, r);
      r
  }

  /** `findIndex`: the slot holding `v`, or the slot where `v` would be inserted. */
  function FindIndex(s: Store, v: int): (r: nat)
    ensures ElemAt(s, r) == None || ElemAt(s, r) == Some(v)
    ensures r <= 2 * |s.elems|
    ensures r >= |s.elems| ==> r == 0 || (r - 1) / 2 < |s.elems|
  {
    FindFrom(s, v, 0)
  }

  /** `contains`: the same descent, reporting whether it stopped on `v`. */
  method Contains(s: Store, v: int) returns (found: bool)
    ensures found == Bst.Contains(Abs(s, 0), v)
    ensures found <==> ElemAt(s, FindIndex(s, v)) == Some(v)
  {
    var i: nat := 0;
    while true
      invariant Bst.Contains(Abs(s, i), v) == Bst.Contains(Abs(s, 0), v)
      invariant FindFrom(s, v, i) == FindIndex(s, v)
      decreases |s.elems| - i
    {
      if i >= |s.elems| || s.elems[i].None? {
        return false;
      } else if v == s.elems[i].value {
        return true;
      } else if v < s.elems[i].value {
        i := 2 * i + 1;
      } else {
        i := 2 * i + 2;
      }
    }
  }

  /** The buffer descent stops on `v` exactly when the ordinary search tree descent finds it. */
  lemma {:induction false} FindFromRefines(s: Store, v: int, i: nat)
    ensures ElemAt(s, FindFrom(s, v, i)) == Some(v) <==> Bst.Contains(Abs(s, i), v)
    ensures !Bst.Contains(Abs(s, i), v) ==> Abs(s, FindFrom(s, v, i)) == Leaf
    decreases |s.elems| - i
  {
    if i < |s.elems| && s.elems[i].Some? && v != s.elems[i].value {
      if v < s.elems[i].value {
        FindFromRefines(s, v, 2 * i + 1);
      } else {
        FindFromRefines(s, v, 2 * i + 2);
      }
    }
  }

  /** Under the order invariant, `findIndex` stops on `v` exactly when `v` is stored. */
  lemma FindIndexCorrect(s: Store, v: int)
    requires Ordered(s)
    ensures ElemAt(s, FindIndex(s, v)) == Some(v) <==> v in Elems(Abs(s, 0))
    ensures v !in Elems(Abs(s, 0)) ==> ElemAt(s, FindIndex(s, v)) == None
  {
    FindFromRefines(s, v, 0);
    ContainsCorrect(Abs(s, 0), v);
  }

  /** `size`: the size recorded at the root. */
  function Size(s: Store): (n: int)
    requires Inv(s)
    ensures n == TSize(Abs(s, 0))
  {
    DescRoot(0);
    SizeAt(s, 0)
  }

  /** In a search tree no value is stored twice, so `size()` counts the distinct values. */
  lemma SizeCountsValues(s: Store)
    requires Inv(s) && Ordered(s)
    ensures Size(s) == |Elems(Abs(s, 0))|
  {
    var xs := InOrder(Abs(s, 0));
    InOrderSorted(Abs(s, 0));
    InOrderCounts(Abs(s, 0));
    DistinctCard(xs);
    var e := set x | x in xs;
    assert e == Elems(Abs(s, 0)) by {
      forall x
        ensures x in e <==> x in Elems(Abs(s, 0))
      {
        assert x in xs <==> x in Elems(Abs(s, 0));
      }
    }
  }

  lemma {:induction false} DistinctCard(xs: seq<int>)
    requires StrictlyIncreasing(xs)
    ensures |set x | x in xs| == |xs|
  {
    if xs != [] {
      var rest := xs[1..];
      assert StrictlyIncreasing(rest);
      DistinctCard(rest);
      assert (set x | x in xs) == {xs[0]} + (set x | x in rest);
      assert xs[0] !in (set x | x in rest);
    }
  }

  /** Rank descent of `get`, reading sizes past the capacity as zero. */
  function GetFrom(s: Store, target: nat, j: nat): Option<int>
    requires forall k: nat :: SizeAt(s, k) >= 0
    decreases target, |s.elems| - j
  {
    var ls := SizeAt(s, 2 * j + 1);
    if target == ls then ElemAt(s, j)
    else if target < ls then GetFrom(s, target, 2 * j + 1)
    else GetFrom(s, target - (ls + 1), 2 * j + 2)
  }

  /** `get`: the element of rank `k` in comparison order; `None` when out of range. */
  function Get(s: Store, k: int): (r: Option<int>)
    requires Inv(s)
    ensures 0 <= k < TSize(Abs(s, 0)) ==> r == Some(InOrder(Abs(s, 0))[k])
    ensures !(0 <= k < TSize(Abs(s, 0))) ==> r == None
  {
    SizesNonNegative(s);
    DescRoot(0);
    SizeBelowCapacity(s);
    if k >= |s.elems| || k < 0 then None
    else
      GetFromCorrect(s, k, 0);
      if k < TSize(Abs(s, 0)) then
        SelectInOrder(Abs(s, 0), k);
        GetFrom(s, k, 0)
      else GetFrom(s, k, 0)
  }

  lemma GetFromCorrect(s: Store, target: nat, j: nat)
    requires Inv(s)
    ensures forall k: nat :: SizeAt(s, k) >= 0
    ensures target < TSize(Abs(s, j)) ==> GetFrom(s, target, j) == Some(Select(Abs(s, j), target))
    ensures target >= TSize(Abs(s, j)) ==> GetFrom(s, target, j) == None
  {
    InvRankSound(s);
    GetFromSelect(s, target, j);
  }

  /** What the rank descent needs of the invariant: every recorded size is exact, and
      an empty slot has empty children. */
  ghost predicate RankSound(s: Store)
  {
    forall k: nat {:trigger SizeAt(s, k)} :: SizeAt(s, k) == TSize(Abs(s, k)) && (ElemAt(s, k).None? ==> ElemAt(s, 2 * k + 1).None? && ElemAt(s, 2 * k + 2).None?)
  }

  lemma InvRankSound(s: Store)
    requires Inv(s)
    ensures RankSound(s)
  {
    forall k: nat
      ensures SizeAt(s, k) == TSize(Abs(s, k))
    {
      DescRoot(k);
    }
    forall k: nat | ElemAt(s, k).None?
      ensures ElemAt(s, 2 * k + 1).None? && ElemAt(s, 2 * k + 2).None?
    {
      DescRoot(2 * k + 1);
      DescRoot(2 * k + 2);
      assert (2 * k + 1 - 1) / 2 == k && (2 * k + 2 - 1) / 2 == k;
    }
  }

  lemma {:induction false} GetFromSelect(s: Store, target: nat, j: nat)
    requires RankSound(s)
    ensures forall k: nat :: SizeAt(s, k) >= 0
    ensures target < TSize(Abs(s, j)) ==> GetFrom(s, target, j) == Some(Select(Abs(s, j), target))
    ensures target >= TSize(Abs(s, j)) ==> GetFrom(s, target, j) == None
    decreases target, |s.elems| - j
  {
    assert SizeAt(s, j) == TSize(Abs(s, j));
    if ElemAt(s, j).None? {
      GetFromEmpty(s, target, j);
    } else {
      AbsNode(s, j);
      var l, r := Abs(s, 2 * j + 1), Abs(s, 2 * j + 2);
      var ls := SizeAt(s, 2 * j + 1);
      assert ls == TSize(l);
      if target < ls {
        GetFromSelect(s, target, 2 * j + 1);
        assert Select(Abs(s, j), target) == Select(l, target);
      } else if target > ls {
        GetFromSelect(s, target - (ls + 1), 2 * j + 2);
        if target < TSize(Abs(s, j)) {
          assert Select(Abs(s, j), target) == Select(r, target - (ls + 1));
        }
      }
    }
  }

  /** Below an empty slot the descent finds nothing, whatever the rank. */
  lemma {:induction false} GetFromEmpty(s: Store, target: nat, j: nat)
    requires RankSound(s) && ElemAt(s, j).None?
    ensures forall k: nat :: SizeAt(s, k) >= 0
    ensures Abs(s, j) == Leaf && GetFrom(s, target, j) == None
    decreases target
  {
    assert SizeAt(s, j) == TSize(Abs(s, j));
    assert ElemAt(s, 2 * j + 1).None? && ElemAt(s, 2 * j + 2).None?;
    assert SizeAt(s, 2 * j + 1) == TSize(Abs(s, 2 * j + 1)) == 0;
    if target > 0 {
      GetFromEmpty(s, target - 1, 2 * j + 2);
    }
  }

  /** `get(k)` returns the k-th smallest stored value for every rank below `size()`,
      and nothing for any other rank. */
  lemma GetCorrect(s: Store, k: int)
    requires Inv(s) && Ordered(s)
    ensures SizeAt(s, 0) == TSize(Abs(s, 0))
    ensures 0 <= k < TSize(Abs(s, 0)) ==> Get(s, k) == Some(InOrder(Abs(s, 0))[k])
    ensures !(0 <= k < TSize(Abs(s, 0))) ==> Get(s, k) == None
    ensures StrictlyIncreasing(InOrder(Abs(s, 0)))
  {
    DescRoot(0);
    InOrderSorted(Abs(s, 0));
  }

  datatype GetError = SizeOutOfBounds(index: int)

  /** The rank descent of `get` as written: it reads the left child's size before
      looking at the slot itself, so reaching a slot whose left child lies past the
      end of the buffer fails. */
  function GetAsWrittenFrom(s: Store, target: int, j: nat): (r: Result<Option<int>, GetError>)
    requires Valid(s)
    ensures r.Failure? ==> r.error.index >= |s.elems|
    decreases |s.elems| - j
  {
    if 2 * j + 1 >= |s.elems| then Failure(SizeOutOfBounds(2 * j + 1))
    else
      var ls := s.sizes[2 * j + 1];
      if target - ls == 0 then Success(s.elems[j])
      else if target - ls < 0 then GetAsWrittenFrom(s, target, 2 * j + 1)
      else GetAsWrittenFrom(s, target - (ls + 1), 2 * j + 2)
  }

  /** `get` as written: ranks are checked against the capacity, not the size. */
  function GetAsWritten(s: Store, k: int): Result<Option<int>, GetError>
    requires Valid(s)
  {
    if k >= |s.elems| || k < 0 then Success(None) else GetAsWrittenFrom(s, k, 0)
  }

  /** Whenever the descent as written finishes, it returns what the corrected one does. */
  lemma {:induction false} GetAsWrittenAgrees(s: Store, target: nat, j: nat)
    requires Inv(s)
    ensures forall k: nat :: SizeAt(s, k) >= 0
    ensures GetAsWrittenFrom(s, target, j).Success? ==>
      GetAsWrittenFrom(s, target, j).value == GetFrom(s, target, j)
    decreases |s.elems| - j
  {
    SizesNonNegative(s);
    if 2 * j + 1 < |s.elems| {
      var ls := s.sizes[2 * j + 1];
      assert ls == SizeAt(s, 2 * j + 1);
      if target < ls {
        GetAsWrittenAgrees(s, target, 2 * j + 1);
      } else if target > ls {
        GetAsWrittenAgrees(s, target - (ls + 1), 2 * j + 2);
      }
    }
  }

  /** A one-slot buffer holding a single value: `get(0)` as written reads the size of
      slot 1, past the end, where the corrected descent returns the value. */
  lemma GetAsWrittenReadsPastEnd()
    ensures var s := Store([Some(5)], [1], 3);
      && Inv(s) && Ordered(s)
      && GetAsWritten(s, 0) == Failure(SizeOutOfBounds(1))
      && Get(s, 0) == Some(5)
  {
    var s := Store([Some(5)], [1], 3);
    assert IsPow2(|s.elems|);
    assert SizeOkAt(s, 0);
    InvIsLocal(s);
    assert Abs(s, 0) == Node(Leaf, 5, Leaf);
    GetCorrect(s, 0);
  }

  /** The tree never holds more values than the buffer has slots. */
  lemma SizeBelowCapacity(s: Store)
    requires Inv(s)
    ensures SizeAt(s, 0) <= |s.elems|
  {
    DescRoot(0);
    CountBound(s, 0);
    var all := Range(|s.elems|);
    assert SlotsBelow(s, 0) <= all;
    SubsetCard(SlotsBelow(s, 0), all);
    RangeCard(|s.elems|);
  }

  predicate Below(k: nat, n: nat)
  {
    k < n
  }

  ghost function Range(n: nat): set<nat>
  {
    set k: nat | k < n && Below(k, n)
  }

  lemma {:induction false} RangeCard(n: nat)
    ensures |Range(n)| == n
  {
    if n > 0 {
      RangeCard(n - 1);
      assert Range(n) == Range(n - 1) + {n - 1};
    }
  }

  /** The values below slot `j` fit in the slots of that subtree inside the buffer. */
  lemma {:induction false} CountBound(s: Store, j: nat)
    ensures TSize(Abs(s, j)) <= |SlotsBelow(s, j)|
    decreases |s.elems| - j
  {
    if j < |s.elems| && s.elems[j].Some? {
      CountBound(s, 2 * j + 1);
      CountBound(s, 2 * j + 2);
      var a, b := SlotsBelow(s, 2 * j + 1), SlotsBelow(s, 2 * j + 2);
      assert a !! b by {
        forall k | k in a && k in b
          ensures false
        {
          SiblingsDisjoint(j, k);
        }
      }
      DescChildren(j, j);
      forall k | k in a + b
        ensures k in SlotsBelow(s, j)
      {
        if k in a {
          DescTrans(j, 2 * j + 1, k);
        } else {
          DescTrans(j, 2 * j + 2, k);
        }
      }
      NotDescOfSmaller(2 * j + 1, j);
      NotDescOfSmaller(2 * j + 2, j);
      assert j !in a + b;
      assert a + b + {j} <= SlotsBelow(s, j);
      assert |a + b + {j}| == |a| + |b| + 1;
      SubsetCard(a + b + {j}, SlotsBelow(s, j));
    }
  }

  ghost function SlotsBelow(s: Store, j: nat): set<nat>
  {
    set k: nat | k < |s.elems| && Desc(j, k)
  }

  lemma SubsetCard(a: set<nat>, b: set<nat>)
    requires a <= b
    ensures |a| <= |b|
  {
    assert b == a + (b - a);
  }
}
