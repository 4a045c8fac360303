/** Implicit tree addressing: the node at slot `k` has children `2k+1` and `2k+2`
    and parent `Parent(k)`. Everything in this module is pure index arithmetic. */
module Implicit {

  /** The parent formula of the insert and delete walks (the root's "parent" is -1). */
  function Parent(k: nat): int
  {
    if k % 2 == 0 then (k - 2) / 2 else (k - 1) / 2
  }

  function Pow2(n: nat): nat
    ensures Pow2(n) >= 1
  {
    if n == 0 then 1 else 2 * Pow2(n - 1)
  }

  /** Depth of slot `k` in the implicit tree: floor(log2(k + 1)). */
  function Level(k: nat): nat
  {
    if k == 0 then 0 else 1 + Level((k - 1) / 2)
  }

  /** `k` lies in the subtree rooted at `a` (including `a` itself). */
  predicate Desc(a: nat, k: nat)
    decreases k
  {
    k == a || (k > a && Desc(a, (k - 1) / 2))
  }

  /** Slot of the node at relative depth `d` and position `p` (from the left) below `a`. */
  function At(a: nat, d: nat, p: nat): nat
  {
    (a + 1) * Pow2(d) - 1 + p
  }

  /** Relocation map: the slot of the subtree rooted at `a` that corresponds to slot `k`
      of the subtree rooted at `b` (same relative depth, same branching). */
  function Translate(b: nat, a: nat, k: nat): (t: nat)
    requires Desc(b, k)
    ensures Desc(a, t)
    decreases k
  {
    if k == b then a
    else
      var t := Translate(b, a, (k - 1) / 2);
      DescChildren(a, t);
      if k % 2 == 1 then 2 * t + 1 else 2 * t + 2
  }

  lemma ParentOfChildren(k: nat)
    ensures Parent(2 * k + 1) == k && Parent(2 * k + 2) == k
    ensures k > 0 ==> Parent(k) == (k - 1) / 2
  {
  }

  lemma DescChildren(a: nat, k: nat)
    requires Desc(a, k)
    ensures Desc(a, 2 * k + 1) && Desc(a, 2 * k + 2)
  {
    assert (2 * k + 1 - 1) / 2 == k;
    assert (2 * k + 2 - 1) / 2 == k;
  }

  lemma {:induction false} DescBelow(a: nat, k: nat)
    requires Desc(a, k)
    ensures a <= k && Level(a) <= Level(k)
    decreases k
  {
    if k != a {
      DescBelow(a, (k - 1) / 2);
    }
  }

  lemma {:induction false} DescTrans(a: nat, b: nat, k: nat)
    requires Desc(a, b) && Desc(b, k)
    ensures Desc(a, k)
    decreases k
  {
    if k != b {
      DescTrans(a, b, (k - 1) / 2);
      DescBelow(b, k);
    }
  }

  /** A proper descendant of `a` lies below exactly one of its children. */
  lemma {:induction false} DescStep(a: nat, k: nat)
    requires Desc(a, k) && k != a
    ensures Desc(2 * a + 1, k) || Desc(2 * a + 2, k)
    ensures !(Desc(2 * a + 1, k) && Desc(2 * a + 2, k))
    decreases k
  {
    var p := (k - 1) / 2;
    if p == a {
      assert k == 2 * a + 1 || k == 2 * a + 2;
      if k == 2 * a + 1 {
        NotDescOfSmaller(2 * a + 2, k);
      }
    } else {
      DescStep(a, p);
      if Desc(2 * a + 1, p) {
        NotDescOfSmaller(2 * a + 2, 2 * a + 1);
        SiblingsDisjoint(a, k);
      } else {
        SiblingsDisjoint(a, k);
      }
    }
  }

  lemma {:induction false} NotDescOfSmaller(a: nat, k: nat)
    requires k < a
    ensures !Desc(a, k)
  {
  }

  /** The subtrees of two siblings share no slot. */
  lemma {:induction false} SiblingsDisjoint(a: nat, k: nat)
    ensures !(Desc(2 * a + 1, k) && Desc(2 * a + 2, k))
    decreases k
  {
    if Desc(2 * a + 1, k) && Desc(2 * a + 2, k) {
      DescBelow(2 * a + 2, k);
      assert k != 2 * a + 1;
      if k == 2 * a + 2 {
        assert Desc(2 * a + 1, a);
        DescBelow(2 * a + 1, a);
      } else {
        SiblingsDisjoint(a, (k - 1) / 2);
      }
    }
  }

  /** The ancestors of a slot form a chain. */
  lemma {:induction false} DescChain(a: nat, b: nat, k: nat)
    requires Desc(a, k) && Desc(b, k)
    ensures Desc(a, b) || Desc(b, a)
    decreases k
  {
    if k != a && k != b {
      DescChain(a, b, (k - 1) / 2);
    }
  }

  lemma {:induction false} LevelBounds(k: nat)
    ensures Pow2(Level(k)) - 1 <= k < Pow2(Level(k) + 1) - 1
    decreases k
  {
    if k > 0 {
      LevelBounds((k - 1) / 2);
    }
  }

  /** The slots of depth below `n` are exactly those before `2^n - 1`. */
  lemma LevelBelow(k: nat, n: nat)
    ensures Level(k) < n <==> k < Pow2(n) - 1
  {
    LevelBounds(k);
    if Level(k) < n {
      Pow2Monotone(Level(k) + 1, n);
    } else {
      Pow2Monotone(n, Level(k));
    }
  }

  lemma {:induction false} Pow2Monotone(m: nat, n: nat)
    requires m <= n
    ensures Pow2(m) <= Pow2(n)
    decreases n
  {
    if m < n {
      Pow2Monotone(m, n - 1);
    }
  }

  lemma {:induction false} TranslateLevel(b: nat, a: nat, k: nat)
    requires Desc(b, k)
    ensures Level(Translate(b, a, k)) + Level(b) == Level(k) + Level(a)
    decreases k
  {
    if k != b {
      var p := (k - 1) / 2;
      TranslateLevel(b, a, p);
      var t := Translate(b, a, p);
      assert (2 * t + 1 - 1) / 2 == t && (2 * t + 2 - 1) / 2 == t;
    }
  }

  /** Relocation is a bijection: translating back recovers the slot. */
  lemma TranslateInverse(b: nat, a: nat, k: nat)
    requires Desc(b, k)
    ensures Translate(a, b, Translate(b, a, k)) == k
  {
    var d, p := DescAt(b, k);
    TranslateAt(b, a, d, p);
    TranslateAt(a, b, d, p);
  }

  /** Every slot of a subtree has a depth and a position below the subtree's root. */
  lemma {:induction false} DescAt(b: nat, k: nat) returns (d: nat, p: nat)
    requires Desc(b, k)
    ensures p < Pow2(d) && k == At(b, d, p)
    decreases k
  {
    if k == b {
      d, p := 0, 0;
    } else {
      var j, c := ChildOf(b, k);
      DescBelow(b, k);
      var d1, q := DescAt(b, j);
      AtChild(b, d1, q, c - 1);
      d, p := d1 + 1, 2 * q + c - 1;
    }
  }

  /** A slot strictly inside a subtree is a child of another slot of that subtree. */
  lemma ChildOf(b: nat, k: nat) returns (p: nat, c: nat)
    requires Desc(b, k) && k != b
    ensures Desc(b, p) && (c == 1 || c == 2) && k == 2 * p + c
  {
    p := (k - 1) / 2;
    c := k - 2 * p;
  }

  /** Relocation commutes with stepping to a child. */
  lemma TranslateChild(b: nat, a: nat, k: nat)
    requires Desc(b, k)
    ensures Desc(b, 2 * k + 1) && Desc(b, 2 * k + 2)
    ensures Translate(b, a, 2 * k + 1) == 2 * Translate(b, a, k) + 1
    ensures Translate(b, a, 2 * k + 2) == 2 * Translate(b, a, k) + 2
  {
    DescChildren(b, k);
    DescBelow(b, k);
    assert (2 * k + 1 - 1) / 2 == k;
    assert (2 * k + 2 - 1) / 2 == k;
  }

  /** The structural relocation map is the depth/position arithmetic of `At`. */
  lemma {:induction false} TranslateAt(b: nat, a: nat, d: nat, p: nat)
    requires p < Pow2(d)
    ensures Desc(b, At(b, d, p))
    ensures Translate(b, a, At(b, d, p)) == At(a, d, p)
    decreases d
  {
    if d > 0 {
      var q := p / 2;
      var r := p % 2;
      assert p == 2 * q + r;
      TranslateAt(b, a, d - 1, q);
      var kb := At(b, d - 1, q);
      AtChild(b, d - 1, q, r);
      AtChild(a, d - 1, q, r);
      TranslateChild(b, a, kb);
      if r == 0 {
        assert At(b, d, p) == 2 * kb + 1;
      } else {
        assert At(b, d, p) == 2 * kb + 2;
      }
    }
  }

  lemma AtChild(a: nat, d: nat, q: nat, r: nat)
    requires r < 2
    ensures At(a, d + 1, 2 * q + r) == 2 * At(a, d, q) + 1 + r
  {
    assert Pow2(d + 1) == 2 * Pow2(d);
    calc {
      At(a, d + 1, 2 * q + r);
      (a + 1) * (2 * Pow2(d)) - 1 + 2 * q + r;
      { assert (a + 1) * (2 * Pow2(d)) == 2 * ((a + 1) * Pow2(d)); }
      2 * ((a + 1) * Pow2(d)) - 1 + 2 * q + r;
    }
  }
}
