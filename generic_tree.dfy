/**
 * The earlier generic tree of yaxiwm (src/yaxiwm/tree/mod.rs): a full binary
 * tree over any comparable value, with no split data. Its `deepest` never
 * increases the depth it is handed, so every comparison is a tie and the
 * right child always wins: `insert` therefore always splits the rightmost
 * leaf, appending the new value to the leaf sequence.
 *
 * As in the yokai tree, the `&mut Node` that `deepest` returns is a path from
 * the root, and `*node = ...` is `ReplaceAt`.
 */
module GenericTree {

  import opened Seqs
  import opened Wrappers

  datatype Node<T> =
    | Leaf(value: T)
    | Internal(left: Node<T>, right: Node<T>)

  /** The values of the leaves, left subtree before right subtree (the reference every operation is specified against). */
  function Leaves<T>(t: Node<T>): (s: seq<T>)
    ensures |s| >= 1
  {
    match t
    case Leaf(v) => [v]
    case Internal(l, r) => Leaves(l) + Leaves(r)
  }

  /** `Node::root`. */
  function Root<T>(v: T): (t: Node<T>)
    ensures t.Leaf? && Leaves(t) == [v]
  {
    Leaf(v)
  }

  /** A way down from the root: `false` goes left, `true` goes right. */
  type Path = seq<bool>

  predicate IsPath<T>(t: Node<T>, p: Path)
    decreases p
  {
    p == [] || (t.Internal? && IsPath(if p[0] then t.right else t.left, p[1..]))
  }

  function Subtree<T>(t: Node<T>, p: Path): Node<T>
    requires IsPath(t, p)
    decreases p
  {
    if p == [] then t else Subtree(if p[0] then t.right else t.left, p[1..])
  }

  /** How many leaves lie to the left of the node at `p`. */
  function Offset<T>(t: Node<T>, p: Path): nat
    requires IsPath(t, p)
    decreases p
  {
    if p == [] then 0
    else if p[0] then |Leaves(t.left)| + Offset(t.right, p[1..])
    else Offset(t.left, p[1..])
  }

  /** The tree with the node at `p` overwritten by `n` (the source's `*node = n`): `p` then leads to `n`. */
  function ReplaceAt<T>(t: Node<T>, p: Path, n: Node<T>): (r: Node<T>)
    requires IsPath(t, p)
    ensures IsPath(r, p) && Subtree(r, p) == n
    decreases p
  {
    if p == [] then n
    else if p[0] then Internal(t.left, ReplaceAt(t.right, p[1..], n))
    else Internal(ReplaceAt(t.left, p[1..], n), t.right)
  }

  /**
   * `Node::deepest`: the depth it was called with, unchanged, and the path to
   * a leaf. Since both children report the same depth, `ld > rd` never holds
   * and the path turns right at every split: it leads to the rightmost leaf.
   */
  function Deepest<T>(t: Node<T>, depth: nat): (r: (nat, Path))
    ensures r.0 == depth
    ensures IsPath(t, r.1) && Subtree(t, r.1).Leaf?
    ensures forall i :: 0 <= i < |r.1| ==> r.1[i]
  {
    match t
    case Leaf(_) => (depth, [])
    case Internal(l, r) =>
      var (ld, lp) := Deepest(l, depth);
      var (rd, rp) := Deepest(r, depth);
      if ld > rd then
        (ld, [false] + lp)
      else
        assert ([true] + rp)[1..] == rp;
        (rd, [true] + rp)
  }

  /** The leaf `deepest` reaches holds the last value of the leaf sequence. */
  lemma {:induction false} DeepestIsRightmost<T>(t: Node<T>, depth: nat)
    ensures Subtree(t, Deepest(t, depth).1) == Leaf(Leaves(t)[|Leaves(t)| - 1])
  {
    if t.Internal? {
      DeepestIsRightmost(t.right, depth);
      var rp := Deepest(t.right, depth).1;
      assert Deepest(t, depth).1 == [true] + rp;
      assert ([true] + rp)[1..] == rp;
    }
  }

  /** Splitting the leaf at the end of an all-right path puts `v` after every other leaf. */
  lemma {:induction false} AppendAtRightmost<T>(t: Node<T>, p: Path, v: T)
    requires IsPath(t, p) && Subtree(t, p).Leaf?
    requires forall i :: 0 <= i < |p| ==> p[i]
    ensures Leaves(ReplaceAt(t, p, Internal(Subtree(t, p), Leaf(v)))) == Leaves(t) + [v]
    decreases p
  {
    if p != [] {
      assert p[0];
      AppendAtRightmost(t.right, p[1..], v);
    }
  }

  /**
   * `Node::insert`: the leaf `deepest` finds becomes a split with the old leaf
   * on the left and the new value on the right. That appends the value to the
   * leaf sequence, so the tree gains exactly one leaf.
   */
  function Insert<T>(t: Node<T>, v: T): (r: Node<T>)
    ensures Leaves(r) == Leaves(t) + [v]
    ensures |Leaves(r)| == |Leaves(t)| + 1
  {
    var p := Deepest(t, 0).1;
    AppendAtRightmost(t, p, v);
    ReplaceAt(t, p, Internal(Subtree(t, p), Leaf(v)))
  }

  /** One level of `insert`: the right child takes the new value and the left child is untouched. */
  lemma InsertInternal<T>(l: Node<T>, r: Node<T>, v: T)
    ensures Insert(Internal(l, r), v) == Internal(l, Insert(r, v))
  {
    var rp := Deepest(r, 0).1;
    assert Deepest(Internal(l, r), 0).1 == [true] + rp;
    assert ([true] + rp)[1..] == rp;
  }

  /**
   * `Node::remove`: a leaf reports whether it holds the needle; a split whose
   * child reports it is replaced by the other child. Only a tree that is that
   * single leaf returns true.
   */
  function Remove<T(==)>(t: Node<T>, needle: T): (res: (Node<T>, bool))
    ensures res.1 <==> t == Leaf(needle)
    ensures res.1 ==> res.0 == t
  {
    match t
    case Leaf(v) => (t, v == needle)
    case Internal(l, r) =>
      var (l', hitLeft) := Remove(l, needle);
      if hitLeft then (r, false)
      else
        var (r', hitRight) := Remove(r, needle);
        if hitRight then (l', false) else (Internal(l', r'), false)
  }

  /** Removing an absent value changes nothing. */
  lemma {:induction false} RemoveAbsent<T>(t: Node<T>, needle: T)
    requires needle !in Leaves(t)
    ensures Remove(t, needle) == (t, false)
  {
    if t.Internal? {
      RemoveAbsent(t.left, needle);
      RemoveAbsent(t.right, needle);
    }
  }

  /** Removing a value that occurs once drops exactly its position from the leaf sequence. */
  lemma {:induction false} RemoveUnique<T>(t: Node<T>, needle: T)
    requires multiset(Leaves(t))[needle] == 1 && t != Leaf(needle)
    ensures Leaves(Remove(t, needle).0) == RemoveAt(Leaves(t), IndexOf(Leaves(t), needle))
  {
    var Internal(l, r) := t;
    var sl, sr := Leaves(l), Leaves(r);
    assert multiset(Leaves(t)) == multiset(sl) + multiset(sr);
    if needle in sl {
      if l != Leaf(needle) {
        RemoveUnique(l, needle);
      }
      RemoveAbsent(r, needle);
      IndexOfAppendLeft(sl, sr, needle);
      RemoveAtAppendLeft(sl, sr, IndexOf(sl, needle));
      if l == Leaf(needle) {
        assert RemoveAt(sl, IndexOf(sl, needle)) == [];
      }
    } else {
      if r != Leaf(needle) {
        RemoveUnique(r, needle);
      }
      RemoveAbsent(l, needle);
      IndexOfAppendRight(sl, sr, needle);
      RemoveAtAppendRight(sl, sr, IndexOf(sr, needle));
      if r == Leaf(needle) {
        assert RemoveAt(sr, IndexOf(sr, needle)) == [];
      }
    }
  }

  /** The path to the leftmost leaf holding `needle`, if any leaf does. */
  function PathTo<T(==)>(t: Node<T>, needle: T): (r: Option<Path>)
    ensures r.Some? <==> needle in Leaves(t)
    ensures r.Some? ==> IsPath(t, r.value) && Subtree(t, r.value) == Leaf(needle)
    ensures r.Some? ==> Offset(t, r.value) == IndexOf(Leaves(t), needle)
  {
    match t
    case Leaf(v) => if v == needle then Some([]) else None
    case Internal(l, r) =>
      match PathTo(l, needle)
      case Some(p) =>
        assert ([false] + p)[1..] == p;
        IndexOfAppendLeft(Leaves(l), Leaves(r), needle);
        Some([false] + p)
      case None =>
        match PathTo(r, needle)
        case Some(p) =>
          assert ([true] + p)[1..] == p;
          IndexOfAppendRight(Leaves(l), Leaves(r), needle);
          Some([true] + p)
        case None => None
  }

  /**
   * What `remove` does to the split above the leaf holding `needle`: that
   * split is overwritten by the leaf's sibling subtree, unchanged.
   */
  ghost predicate PromotesSibling<T>(t: Node<T>, needle: T)
  {
    && PathTo(t, needle).Some? && |PathTo(t, needle).value| >= 1
    && var path := PathTo(t, needle).value;
       var parent := path[..|path| - 1];
       && IsPath(t, parent) && Subtree(t, parent).Internal?
       && Remove(t, needle).0
          == ReplaceAt(t, parent, if path[|path| - 1] then Subtree(t, parent).left else Subtree(t, parent).right)
  }

  /** Removing a value that occurs once collapses the split above its leaf into the leaf's sibling. */
  lemma {:induction false} RemovePromotesSibling<T>(t: Node<T>, needle: T)
    requires multiset(Leaves(t))[needle] == 1 && t != Leaf(needle)
    ensures PromotesSibling(t, needle)
  {
    var Internal(l, r) := t;
    assert multiset(Leaves(t)) == multiset(Leaves(l)) + multiset(Leaves(r));
    if needle in Leaves(l) {
      if l != Leaf(needle) {
        RemovePromotesSibling(l, needle);
      }
      PromotesLeft(l, r, needle);
    } else {
      if r != Leaf(needle) {
        RemovePromotesSibling(r, needle);
      }
      PromotesRight(l, r, needle);
    }
  }

  /** One level of `RemovePromotesSibling` when the value is in the left child. */
  lemma PromotesLeft<T>(l: Node<T>, r: Node<T>, needle: T)
    requires needle in Leaves(l) && needle !in Leaves(r)
    requires l != Leaf(needle) ==> PromotesSibling(l, needle)
    ensures PromotesSibling(Internal(l, r), needle)
  {
    RemoveAbsent(r, needle);
    var p := PathTo(l, needle).value;
    var path := [false] + p;
    if l != Leaf(needle) {
      var q := p[..|p| - 1];
      assert path[..|path| - 1] == [false] + q;
      assert ([false] + q)[1..] == q;
    }
  }

  /** One level of `RemovePromotesSibling` when the value is in the right child only. */
  lemma PromotesRight<T>(l: Node<T>, r: Node<T>, needle: T)
    requires needle !in Leaves(l) && needle in Leaves(r)
    requires r != Leaf(needle) ==> PromotesSibling(r, needle)
    ensures PromotesSibling(Internal(l, r), needle)
  {
    RemoveAbsent(l, needle);
    var p := PathTo(r, needle).value;
    var path := [true] + p;
    if r != Leaf(needle) {
      var q := p[..|p| - 1];
      assert path[..|path| - 1] == [true] + q;
      assert ([true] + q)[1..] == q;
    }
  }

  /** Inserting a fresh value and removing it again gives back the original tree. */
  lemma {:induction false} InsertThenRemove<T>(t: Node<T>, v: T)
    requires v !in Leaves(t)
    ensures Remove(Insert(t, v), v) == (t, false)
  {
    match t
    case Leaf(x) =>
    case Internal(l, r) =>
      InsertInternal(l, r, v);
      RemoveAbsent(l, v);
      InsertThenRemove(r, v);
  }
}
