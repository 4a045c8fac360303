/** The ordinary binary search tree that a linkless tree stands for. Every buffer
    operation is proved to refine one of the operations below. */
module Bst {

  datatype Tree = Leaf | Node(left: Tree, value: int, right: Tree)

  function TSize(t: Tree): nat
  {
    match t
    case Leaf => 0
    case Node(l, _, r) => TSize(l) + 1 + TSize(r)
  }

  function Elems(t: Tree): set<int>
  {
    match t
    case Leaf => {}
    case Node(l, v, r) => Elems(l) + {v} + Elems(r)
  }

  function InOrder(t: Tree): (xs: seq<int>)
    ensures |xs| == TSize(t)
  {
    match t
    case Leaf => []
    case Node(l, v, r) => InOrder(l) + [v] + InOrder(r)
  }

  /** Order invariant: everything left of a node is smaller, everything right is larger. */
  predicate IsBst(t: Tree)
  {
    match t
    case Leaf => true
    case Node(l, v, r) =>
      && IsBst(l) && IsBst(r)
      && (forall x :: x in Elems(l) ==> x < v)
      && (forall x :: x in Elems(r) ==> v < x)
  }

  predicate StrictlyIncreasing(xs: seq<int>)
  {
    forall i, j :: 0 <= i < j < |xs| ==> xs[i] < xs[j]
  }

  /** Search by comparison, as a descent would do it. */
  function Contains(t: Tree, v: int): bool
  {
    match t
    case Leaf => false
    case Node(l, u, r) =>
      if v == u then true else if v < u then Contains(l, v) else Contains(r, v)
  }

  function Insert(t: Tree, v: int): Tree
  {
    match t
    case Leaf => Node(Leaf, v, Leaf)
    case Node(l, u, r) =>
      if v == u then t
      else if v < u then Node(Insert(l, v), u, r)
      else Node(l, u, Insert(r, v))
  }

  /** The k-th smallest value (0-based), found by subtree sizes. */
  function Select(t: Tree, k: nat): int
    requires k < TSize(t)
  {
    match t
    case Node(l, v, r) =>
      if k == TSize(l) then v
      else if k < TSize(l) then Select(l, k)
      else Select(r, k - TSize(l) - 1)
  }

  /** Promote the left child over the root. */
  function RotateRight(t: Tree): Tree
    requires t.Node? && t.left.Node?
  {
    Node(t.left.left, t.left.value, Node(t.left.right, t.value, t.right))
  }

  /** Promote the right child over the root. */
  function RotateLeft(t: Tree): Tree
    requires t.Node? && t.right.Node?
  {
    Node(Node(t.left, t.value, t.right.left), t.right.value, t.right.right)
  }

  function Max(t: Tree): int
    requires t.Node?
  {
    if t.right.Leaf? then t.value else Max(t.right)
  }

  function RemoveMax(t: Tree): Tree
    requires t.Node?
  {
    if t.right.Leaf? then t.left else Node(t.left, t.value, RemoveMax(t.right))
  }

  /** Remove the root: the predecessor takes its place when there is a left subtree. */
  function DeleteRoot(t: Tree): Tree
    requires t.Node?
  {
    if t.left.Leaf? then t.right else Node(RemoveMax(t.left), Max(t.left), t.right)
  }

  function Delete(t: Tree, v: int): Tree
  {
    match t
    case Leaf => Leaf
    case Node(l, u, r) =>
      if v == u then DeleteRoot(t)
      else if v < u then Node(Delete(l, v), u, r)
      else Node(l, u, Delete(r, v))
  }

  // ---------------------------------------------------------------------------
  // Properties

  lemma {:induction false} InOrderCounts(t: Tree)
    ensures |InOrder(t)| == TSize(t)
    ensures forall x :: x in InOrder(t) <==> x in Elems(t)
  {
    match t
    case Leaf =>
    case Node(l, v, r) =>
      InOrderCounts(l);
      InOrderCounts(r);
  }

  /** The in-order sequence of a search tree is strictly increasing. */
  lemma {:induction false} InOrderSorted(t: Tree)
    requires IsBst(t)
    ensures StrictlyIncreasing(InOrder(t))
  {
    match t
    case Leaf =>
    case Node(l, v, r) =>
      InOrderSorted(l);
      InOrderSorted(r);
      InOrderCounts(l);
      InOrderCounts(r);
      var s := InOrder(t);
      var a := InOrder(l);
      forall i, j | 0 <= i < j < |s|
        ensures s[i] < s[j]
      {
        if j < |a| {
        } else if i < |a| {
          assert s[i] in Elems(l);
          if j == |a| {
          } else {
            assert s[j] == InOrder(r)[j - |a| - 1];
            assert s[j] in Elems(r);
          }
        } else if i == |a| {
          assert s[j] == InOrder(r)[j - |a| - 1];
          assert s[j] in Elems(r);
        }
      }
  }

  /** Descending search finds exactly the stored values of a search tree. */
  lemma {:induction false} ContainsCorrect(t: Tree, v: int)
    requires IsBst(t)
    ensures Contains(t, v) <==> v in Elems(t)
  {
    match t
    case Leaf =>
    case Node(l, u, r) =>
      ContainsCorrect(l, v);
      ContainsCorrect(r, v);
  }

  lemma {:induction false} InsertCorrect(t: Tree, v: int)
    requires IsBst(t)
    ensures IsBst(Insert(t, v))
    ensures Elems(Insert(t, v)) == Elems(t) + {v}
    ensures v in Elems(t) ==> Insert(t, v) == t
    ensures v !in Elems(t) ==> TSize(Insert(t, v)) == TSize(t) + 1
  {
    match t
    case Leaf =>
    case Node(l, u, r) =>
      InsertCorrect(l, v);
      InsertCorrect(r, v);
  }

  /** Selection by sizes picks the k-th element of the in-order sequence. */
  lemma {:induction false} SelectInOrder(t: Tree, k: nat)
    requires k < TSize(t)
    ensures Select(t, k) == InOrder(t)[k]
  {
    match t
    case Node(l, v, r) =>
      InOrderCounts(l);
      InOrderCounts(r);
      if k < TSize(l) {
        SelectInOrder(l, k);
      } else if k > TSize(l) {
        SelectInOrder(r, k - TSize(l) - 1);
      }
  }

  /** Rotations keep the in-order sequence, hence the stored set, the size and the order. */
  lemma RotateRightPreserves(t: Tree)
    requires t.Node? && t.left.Node?
    ensures InOrder(RotateRight(t)) == InOrder(t)
    ensures Elems(RotateRight(t)) == Elems(t)
    ensures TSize(RotateRight(t)) == TSize(t)
    ensures IsBst(t) ==> IsBst(RotateRight(t))
  {
    var a, x, b, y, c := t.left.left, t.left.value, t.left.right, t.value, t.right;
    assert InOrder(RotateRight(t)) == InOrder(t) by {
      assert InOrder(t.left) == InOrder(a) + [x] + InOrder(b);
      assert InOrder(Node(b, y, c)) == InOrder(b) + [y] + InOrder(c);
      SeqAssoc(InOrder(a), [x], InOrder(b), [y], InOrder(c));
    }
    assert Elems(RotateRight(t)) == Elems(t) by {
      SetAssoc(Elems(a), {x}, Elems(b), {y}, Elems(c));
    }
    if IsBst(t) {
      RotateBst(a, x, b, y, c);
    }
  }

  lemma RotateLeftPreserves(t: Tree)
    requires t.Node? && t.right.Node?
    ensures InOrder(RotateLeft(t)) == InOrder(t)
    ensures Elems(RotateLeft(t)) == Elems(t)
    ensures TSize(RotateLeft(t)) == TSize(t)
    ensures IsBst(t) ==> IsBst(RotateLeft(t))
  {
    var a, x, b, y, c := t.left, t.value, t.right.left, t.right.value, t.right.right;
    assert InOrder(RotateLeft(t)) == InOrder(t) by {
      assert InOrder(t.right) == InOrder(b) + [y] + InOrder(c);
      assert InOrder(Node(a, x, b)) == InOrder(a) + [x] + InOrder(b);
      SeqAssoc(InOrder(a), [x], InOrder(b), [y], InOrder(c));
    }
    assert Elems(RotateLeft(t)) == Elems(t) by {
      SetAssoc(Elems(a), {x}, Elems(b), {y}, Elems(c));
    }
    if IsBst(t) {
      RotateBst(a, x, b, y, c);
    }
  }

  lemma SeqAssoc(p: seq<int>, q: seq<int>, r: seq<int>, s: seq<int>, u: seq<int>)
    ensures (p + q + r) + s + u == p + q + (r + s + u)
  {
  }

  lemma SetAssoc(p: set<int>, q: set<int>, r: set<int>, s: set<int>, u: set<int>)
    ensures (p + q + r) + s + u == p + q + (r + s + u)
  {
  }

  /** Both shapes of a three-subtree rotation are search trees under the same conditions. */
  lemma RotateBst(a: Tree, x: int, b: Tree, y: int, c: Tree)
    ensures IsBst(Node(Node(a, x, b), y, c)) <==> IsBst(Node(a, x, Node(b, y, c)))
  {
    var lhs := Node(Node(a, x, b), y, c);
    var rhs := Node(a, x, Node(b, y, c));
    if IsBst(lhs) {
      assert IsBst(Node(a, x, b));
      assert IsBst(b) && forall z :: z in Elems(b) ==> x < z;
      assert x in Elems(Node(a, x, b));
      assert forall z :: z in Elems(c) ==> x < z;
      assert IsBst(Node(b, y, c));
      assert forall z :: z in Elems(Node(b, y, c)) ==> x < z;
    }
    if IsBst(rhs) {
      assert IsBst(Node(b, y, c));
      assert IsBst(b) && forall z :: z in Elems(b) ==> z < y;
      assert y in Elems(Node(b, y, c));
      assert forall z :: z in Elems(a) ==> z < y;
      assert IsBst(Node(a, x, b));
      assert forall z :: z in Elems(Node(a, x, b)) ==> z < y;
    }
  }

  lemma {:induction false} RemoveMaxCorrect(t: Tree)
    requires t.Node? && IsBst(t)
    ensures IsBst(RemoveMax(t))
    ensures Max(t) in Elems(t)
    ensures Elems(RemoveMax(t)) == Elems(t) - {Max(t)}
    ensures forall x :: x in Elems(RemoveMax(t)) ==> x < Max(t)
    ensures TSize(RemoveMax(t)) == TSize(t) - 1
  {
    if t.right.Node? {
      RemoveMaxCorrect(t.right);
    }
  }

  lemma DeleteRootCorrect(t: Tree)
    requires t.Node? && IsBst(t)
    ensures IsBst(DeleteRoot(t))
    ensures Elems(DeleteRoot(t)) == Elems(t) - {t.value}
    ensures TSize(DeleteRoot(t)) == TSize(t) - 1
  {
    DeleteRootElems(t);
    if t.left.Node? {
      var l, m, r := RemoveMax(t.left), Max(t.left), t.right;
      RemoveMaxCorrect(t.left);
      assert DeleteRoot(t) == Node(l, m, r);
      assert forall x :: x in Elems(r) ==> m < x by {
        assert m < t.value;
      }
    }
  }

  lemma DeleteRootElems(t: Tree)
    requires t.Node? && IsBst(t)
    ensures Elems(DeleteRoot(t)) == Elems(t) - {t.value}
    ensures TSize(DeleteRoot(t)) == TSize(t) - 1
  {
    var v, r := t.value, t.right;
    if t.left.Node? {
      RemoveMaxCorrect(t.left);
      var l, m := RemoveMax(t.left), Max(t.left);
      assert Elems(t) == Elems(l) + {m} + {v} + Elems(r);
      assert v !in Elems(l) + {m} + Elems(r);
    } else {
      assert Elems(t) == {v} + Elems(r);
    }
  }

  lemma {:induction false} DeleteCorrect(t: Tree, v: int)
    requires IsBst(t)
    ensures IsBst(Delete(t, v))
    ensures Elems(Delete(t, v)) == Elems(t) - {v}
    ensures v !in Elems(t) ==> Delete(t, v) == t
  {
    match t
    case Leaf =>
    case Node(l, u, r) =>
      if v == u {
        DeleteRootCorrect(t);
      } else {
        DeleteCorrect(l, v);
        DeleteCorrect(r, v);
      }
  }

  /** Two strictly increasing sequences with the same values are equal. */
  lemma {:induction false} SortedUnique(xs: seq<int>, ys: seq<int>)
    requires StrictlyIncreasing(xs) && StrictlyIncreasing(ys)
    requires forall x :: x in xs <==> x in ys
    ensures xs == ys
    decreases |xs|
  {
    if |xs| == 0 {
      HeadIsMember(ys);
    } else {
      assert xs[0] in xs;
      assert ys[0] in ys;
      HeadIsLeast(ys, xs[0]);
      HeadIsLeast(xs, ys[0]);
      TailMembers(xs);
      TailMembers(ys);
      var xt, yt := xs[1..], ys[1..];
      assert StrictlyIncreasing(xt) && StrictlyIncreasing(yt);
      SortedUnique(xt, yt);
      assert xs == [xs[0]] + xt;
      assert ys == [ys[0]] + yt;
    }
  }

  lemma HeadIsMember(xs: seq<int>)
    ensures |xs| > 0 ==> xs[0] in xs
  {
  }

  lemma HeadIsLeast(xs: seq<int>, x: int)
    requires StrictlyIncreasing(xs) && x in xs
    ensures xs[0] <= x
  {
    var i :| 0 <= i < |xs| && xs[i] == x;
  }

  /** Dropping the head of a strictly increasing sequence removes exactly its first value. */
  lemma TailMembers(xs: seq<int>)
    requires StrictlyIncreasing(xs) && |xs| > 0
    ensures forall x :: x in xs[1..] <==> x in xs && x != xs[0]
  {
    forall x
      ensures x in xs[1..] <==> x in xs && x != xs[0]
    {
      if x in xs[1..] {
        var p :| 0 <= p < |xs| - 1 && xs[1..][p] == x;
        assert xs[p + 1] == x;
      }
      if x in xs && x != xs[0] {
        var q :| 0 <= q < |xs| && xs[q] == x;
        assert xs[1..][q - 1] == x;
      }
    }
  }

  /** A search tree's in-order sequence is determined by its set of values. */
  lemma InOrderDetermined(a: Tree, b: Tree)
    requires IsBst(a) && IsBst(b) && Elems(a) == Elems(b)
    ensures InOrder(a) == InOrder(b)
  {
    InOrderSorted(a);
    InOrderSorted(b);
    InOrderCounts(a);
    InOrderCounts(b);
    SortedUnique(InOrder(a), InOrder(b));
  }
}
