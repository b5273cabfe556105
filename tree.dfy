/**
 * The tiling tree of yokai (src/yokai/tree/mod.rs). A tree is a full binary
 * tree: every leaf holds one window (reduced to its X id), every internal node
 * is a split carrying the `Insert` mode it was created with. Leaves are read
 * left subtree first, and that leaf sequence is the reference against which
 * every operation is specified.
 *
 * The source rewrites the tree in place through `&mut` references: `find`
 * hands back a mutable reference to a leaf and `insert` overwrites it. Here a
 * reference into the tree is a `Path` from the root, `Subtree` reads the node
 * it names and `ReplaceAt` writes a new node there; since every child is an
 * owned `Box`, no other reference can see the tree between the two steps.
 */
module Tree {

  import opened Config
  import opened Wrappers
  import opened Seqs

  /** An X window, reduced to its id (the source's u32; no arithmetic is done on it). */
  type WindowId = int

  /** Where to insert: next to a given window, or anywhere (the leftmost leaf). */
  datatype Point = Window(window: WindowId) | Any

  datatype Node =
    | Leaf(window: WindowId)
    | Internal(left: Node, right: Node, insert: Config.Insert)

  /** `Node::root`: the tree of a desktop that gets its first window. */
  function Root(w: WindowId): (t: Node)
    ensures Collect(t) == [w]
  {
    Leaf(w)
  }

  /** `Node::collect`: the windows of the leaves, left subtree before right subtree. */
  function Collect(t: Node): (s: seq<WindowId>)
    ensures |s| >= 1
  {
    match t
    case Leaf(w) => [w]
    case Internal(l, r, _) => Collect(l) + Collect(r)
  }

  /** `Node::contains`: some leaf holds `needle`. */
  function Contains(t: Node, needle: WindowId): (r: bool)
    ensures r <==> needle in Collect(t)
  {
    match t
    case Leaf(w) => needle == w
    case Internal(l, r, _) => Contains(l, needle) || Contains(r, needle)
  }

  /** What a traversal did: the windows the callback was applied to, in order, and the final result. */
  datatype Visit<E> = Visit(calls: seq<WindowId>, outcome: Outcome<E>)

  /**
   * `Node::traverse`: apply `f` to the leaves left to right, stopping at the
   * first failure. The callback is visited on a prefix of the leaf sequence
   * that ends at the first failing window, or on all of it when none fails.
   */
  function Traverse<E>(t: Node, f: WindowId -> Outcome<E>): (v: Visit<E>)
    ensures 1 <= |v.calls| <= |Collect(t)| && v.calls == Collect(t)[..|v.calls|]
    ensures forall i :: 0 <= i < |v.calls| - 1 ==> f(v.calls[i]).Pass?
    ensures v.outcome == f(v.calls[|v.calls| - 1])
    ensures v.outcome.Pass? ==> v.calls == Collect(t)
  {
    match t
    case Leaf(w) => Visit([w], f(w))
    case Internal(l, r, _) =>
      var lv := Traverse(l, f);
      if lv.outcome.Fail? then
        assert Collect(t)[..|lv.calls|] == Collect(l)[..|lv.calls|];
        lv
      else
        var rv := Traverse(r, f);
        VisitJoin(Collect(l), Collect(r), rv.calls, f);
        Visit(lv.calls + rv.calls, rv.outcome)
  }

  /** Joining a full pass over the left leaves with a visit of a prefix of the right ones. */
  lemma VisitJoin<E>(cl: seq<WindowId>, cr: seq<WindowId>, b: seq<WindowId>, f: WindowId -> Outcome<E>)
    requires 1 <= |b| <= |cr| && b == cr[..|b|]
    requires forall i :: 0 <= i < |cl| ==> f(cl[i]).Pass?
    requires forall i :: 0 <= i < |b| - 1 ==> f(b[i]).Pass?
    ensures (cl + cr)[..|cl| + |b|] == cl + b
    ensures forall i :: 0 <= i < |cl + b| - 1 ==> f((cl + b)[i]).Pass?
  {
    assert (cl + cr)[..|cl| + |b|] == cl + cr[..|b|];
  }

  // ---------------------------------------------------------------------
  // References into the tree

  /** A way down from the root: `false` goes left, `true` goes right. */
  type Path = seq<bool>

  predicate IsPath(t: Node, p: Path)
    decreases p
  {
    p == [] || (t.Internal? && IsPath(if p[0] then t.right else t.left, p[1..]))
  }

  /** The node a path leads to. */
  function Subtree(t: Node, p: Path): Node
    requires IsPath(t, p)
    decreases p
  {
    if p == [] then t else Subtree(if p[0] then t.right else t.left, p[1..])
  }

  /** The tree with the node at `p` overwritten by `n` (the source's `*node = n`): `p` then leads to `n`. */
  function ReplaceAt(t: Node, p: Path, n: Node): (r: Node)
    requires IsPath(t, p)
    ensures IsPath(r, p) && Subtree(r, p) == n
    decreases p
  {
    if p == [] then n
    else if p[0] then Internal(t.left, ReplaceAt(t.right, p[1..], n), t.insert)
    else Internal(ReplaceAt(t.left, p[1..], n), t.right, t.insert)
  }

  /** How many leaves lie to the left of the node at `p`. */
  function Offset(t: Node, p: Path): nat
    requires IsPath(t, p)
    decreases p
  {
    if p == [] then 0
    else if p[0] then |Collect(t.left)| + Offset(t.right, p[1..])
    else Offset(t.left, p[1..])
  }

  /** The leaves under a node are the slice of the leaf sequence that starts at its offset. */
  lemma {:induction false} SubtreeSlice(t: Node, p: Path)
    requires IsPath(t, p)
    decreases p
    ensures Offset(t, p) + |Collect(Subtree(t, p))| <= |Collect(t)|
    ensures Collect(t)[Offset(t, p)..Offset(t, p) + |Collect(Subtree(t, p))|] == Collect(Subtree(t, p))
  {
    if p != [] {
      var l, r, q := t.left, t.right, p[1..];
      var cl, cr := Collect(l), Collect(r);
      assert Collect(t) == cl + cr;
      if p[0] {
        SubtreeSlice(r, q);
        var k, m := Offset(r, q), |Collect(Subtree(r, q))|;
        assert Offset(t, p) == |cl| + k && Subtree(t, p) == Subtree(r, q);
        SliceRight(cl, cr, k, m);
      } else {
        SubtreeSlice(l, q);
        var k, m := Offset(l, q), |Collect(Subtree(l, q))|;
        assert Offset(t, p) == k && Subtree(t, p) == Subtree(l, q);
        SliceLeft(cl, cr, k, m);
      }
    }
  }

  /** A slice of the right part of a concatenation, shifted by the left part's length. */
  lemma SliceRight(cl: seq<WindowId>, cr: seq<WindowId>, k: nat, m: nat)
    requires k + m <= |cr|
    ensures (cl + cr)[|cl| + k..|cl| + k + m] == cr[k..k + m]
  {
  }

  /** A slice of the left part of a concatenation. */
  lemma SliceLeft(cl: seq<WindowId>, cr: seq<WindowId>, k: nat, m: nat)
    requires k + m <= |cl|
    ensures (cl + cr)[k..k + m] == cl[k..k + m]
  {
  }

  /** The splice `CollectReplaceAt` promises: `n`'s leaves in place of the slice of the node at `p`. */
  ghost predicate Spliced(t: Node, p: Path, n: Node)
    requires IsPath(t, p)
  {
    && Offset(t, p) + |Collect(Subtree(t, p))| <= |Collect(t)|
    && Collect(ReplaceAt(t, p, n))
       == Collect(t)[..Offset(t, p)] + Collect(n) + Collect(t)[Offset(t, p) + |Collect(Subtree(t, p))|..]
  }

  /** Overwriting the node at `p` replaces exactly its slice of the leaf sequence. */
  lemma {:induction false} CollectReplaceAt(t: Node, p: Path, n: Node)
    requires IsPath(t, p)
    decreases p
    ensures Spliced(t, p, n)
  {
    if p == [] {
      assert Collect(t)[..0] + Collect(n) + Collect(t)[|Collect(t)|..] == Collect(n);
    } else {
      if p[0] {
        CollectReplaceAt(t.right, p[1..], n);
        SplicedRight(t, p, n);
      } else {
        CollectReplaceAt(t.left, p[1..], n);
        SplicedLeft(t, p, n);
      }
    }
  }

  /** One level of `CollectReplaceAt` on the right: a splice in the right child is a splice in the parent. */
  lemma SplicedRight(t: Node, p: Path, n: Node)
    requires IsPath(t, p) && p != [] && p[0] && Spliced(t.right, p[1..], n)
    ensures Spliced(t, p, n)
  {
    var c, o, m := Collect(t), Offset(t, p), |Collect(Subtree(t, p))|;
    assert o + m <= |c| && Collect(ReplaceAt(t, p, n)) == c[..o] + Collect(n) + c[o + m..] by {
      var l, r, q := t.left, t.right, p[1..];
      assert Collect(ReplaceAt(t, p, n)) == Collect(l) + Collect(ReplaceAt(r, q, n));
      assert o == |Collect(l)| + Offset(r, q) && c == Collect(l) + Collect(r);
      SpliceRight(Collect(l), Collect(r), Collect(n), Offset(r, q), m, c, o);
    }
  }

  /** One level of `CollectReplaceAt` on the left: a splice in the left child is a splice in the parent. */
  lemma SplicedLeft(t: Node, p: Path, n: Node)
    requires IsPath(t, p) && p != [] && !p[0] && Spliced(t.left, p[1..], n)
    ensures Spliced(t, p, n)
  {
    var c, o, m := Collect(t), Offset(t, p), |Collect(Subtree(t, p))|;
    assert o + m <= |c| && Collect(ReplaceAt(t, p, n)) == c[..o] + Collect(n) + c[o + m..] by {
      var l, r, q := t.left, t.right, p[1..];
      assert Collect(ReplaceAt(t, p, n)) == Collect(ReplaceAt(l, q, n)) + Collect(r);
      assert o == Offset(l, q) && c == Collect(l) + Collect(r);
      SpliceLeft(Collect(l), Collect(r), Collect(n), Offset(l, q), m, c, o);
    }
  }

  /** Splicing `x` in place of a slice of `b` is splicing it into `c == a + b` at the shifted position `o`. */
  lemma SpliceRight(a: seq<WindowId>, b: seq<WindowId>, x: seq<WindowId>, k: nat, m: nat, c: seq<WindowId>, o: nat)
    requires k + m <= |b| && c == a + b && o == |a| + k
    ensures o + m <= |c| && a + (b[..k] + x + b[k + m..]) == c[..o] + x + c[o + m..]
  {
    assert c[..o] == a + b[..k];
    assert c[o + m..] == b[k + m..];
  }

  /** Splicing `x` in place of a slice of `a` is splicing it into `c == a + b` at the same position `k`. */
  lemma SpliceLeft(a: seq<WindowId>, b: seq<WindowId>, x: seq<WindowId>, k: nat, m: nat, c: seq<WindowId>, o: nat)
    requires k + m <= |a| && c == a + b && o == k
    ensures o + m <= |c| && (a[..k] + x + a[k + m..]) + b == c[..o] + x + c[o + m..]
  {
    assert c[..o] == a[..k];
    assert c[o + m..] == a[k + m..] + b;
  }

  /** After `ReplaceAt` the path still leads to the new node, and writing back what was there restores the tree. */
  lemma {:induction false} ReplaceAtFacts(t: Node, p: Path, n: Node)
    requires IsPath(t, p)
    decreases p
    ensures IsPath(ReplaceAt(t, p, n), p) && Subtree(ReplaceAt(t, p, n), p) == n
    ensures ReplaceAt(t, p, Subtree(t, p)) == t
    ensures forall n' :: ReplaceAt(ReplaceAt(t, p, n), p, n') == ReplaceAt(t, p, n')
  {
    if p != [] {
      ReplaceAtFacts(if p[0] then t.right else t.left, p[1..], n);
    }
  }

  // ---------------------------------------------------------------------
  // Finding the insertion point

  /** A leaf holding `w` is a valid insertion point for `pt`. */
  predicate Matches(w: WindowId, pt: Point)
  {
    pt.Any? || pt.window == w
  }

  /**
   * `Node::find`: a reference to the first leaf, left to right, that matches the
   * point; for `Point::Any` that is the leftmost leaf.
   */
  function Find(t: Node, pt: Point): (r: Option<Path>)
    ensures r.Some? ==> IsPath(t, r.value) && Subtree(t, r.value).Leaf? && Matches(Subtree(t, r.value).window, pt)
  {
    match t
    case Leaf(w) => if Matches(w, pt) then Some([]) else None
    case Internal(l, r, _) =>
      var lf, rf := Find(l, pt), Find(r, pt);
      if lf.Some? then
        assert ([false] + lf.value)[1..] == lf.value;
        Some([false] + lf.value)
      else if rf.Some? then
        assert ([true] + rf.value)[1..] == rf.value;
        Some([true] + rf.value)
      else None
  }

  /** No window of `s` matches the point. */
  predicate NoneMatch(s: seq<WindowId>, pt: Point)
  {
    forall i :: 0 <= i < |s| ==> !Matches(s[i], pt)
  }

  /** Position `k` of `s` is the first one that matches the point. */
  predicate FirstMatchAt(s: seq<WindowId>, pt: Point, k: nat)
  {
    k < |s| && Matches(s[k], pt) && NoneMatch(s[..k], pt)
  }

  lemma NoneMatchAppend(a: seq<WindowId>, b: seq<WindowId>, pt: Point)
    ensures NoneMatch(a + b, pt) <==> NoneMatch(a, pt) && NoneMatch(b, pt)
  {
    if NoneMatch(a + b, pt) {
      forall i | 0 <= i < |a| ensures !Matches(a[i], pt) {
        assert (a + b)[i] == a[i];
      }
      forall i | 0 <= i < |b| ensures !Matches(b[i], pt) {
        assert (a + b)[|a| + i] == b[i];
      }
    }
  }

  /**
   * `find` fails exactly when no leaf matches, and the leaf it returns is the
   * first matching one in the leaf sequence.
   */
  lemma {:induction false} FindFirst(t: Node, pt: Point)
    ensures Find(t, pt).None? <==> NoneMatch(Collect(t), pt)
    ensures Find(t, pt).Some? ==> FirstMatchAt(Collect(t), pt, Offset(t, Find(t, pt).value))
  {
    match t
    case Leaf(w) =>
      assert Collect(t)[0] == w;
    case Internal(l, r, _) =>
      FindFirst(l, pt);
      FindFirst(r, pt);
      var cl, cr := Collect(l), Collect(r);
      NoneMatchAppend(cl, cr, pt);
      if Find(l, pt).Some? {
        FindFirstLeft(l, r, t.insert, pt);
      } else if Find(r, pt).Some? {
        FindFirstRight(l, r, t.insert, pt);
      }
  }

  /** One level of `FindFirst` when the left child holds the match. */
  lemma FindFirstLeft(l: Node, r: Node, ins: Config.Insert, pt: Point)
    requires Find(l, pt).Some? && FirstMatchAt(Collect(l), pt, Offset(l, Find(l, pt).value))
    ensures var t := Internal(l, r, ins);
            Find(t, pt).Some? && FirstMatchAt(Collect(t), pt, Offset(t, Find(t, pt).value))
  {
    var t, p := Internal(l, r, ins), Find(l, pt).value;
    assert ([false] + p)[1..] == p;
    var k := Offset(l, p);
    assert Offset(t, Find(t, pt).value) == k;
    var cl, cr := Collect(l), Collect(r);
    assert (cl + cr)[..k] == cl[..k];
    assert (cl + cr)[k] == cl[k];
  }

  /** One level of `FindFirst` when only the right child holds a match. */
  lemma FindFirstRight(l: Node, r: Node, ins: Config.Insert, pt: Point)
    requires Find(l, pt).None? && NoneMatch(Collect(l), pt)
    requires Find(r, pt).Some? && FirstMatchAt(Collect(r), pt, Offset(r, Find(r, pt).value))
    ensures var t := Internal(l, r, ins);
            Find(t, pt).Some? && FirstMatchAt(Collect(t), pt, Offset(t, Find(t, pt).value))
  {
    var t, p := Internal(l, r, ins), Find(r, pt).value;
    assert ([true] + p)[1..] == p;
    var k := Offset(r, p);
    var cl, cr := Collect(l), Collect(r);
    assert Offset(t, Find(t, pt).value) == |cl| + k;
    assert (cl + cr)[..|cl| + k] == cl + cr[..k];
    NoneMatchAppend(cl, cr[..k], pt);
    assert (cl + cr)[|cl| + k] == cr[k];
  }

  /** Looking for a window finds the leaf at its first position in the leaf sequence. */
  lemma FindWindow(t: Node, p: WindowId)
    requires p in Collect(t)
    ensures Find(t, Window(p)).Some?
    ensures Offset(t, Find(t, Window(p)).value) == IndexOf(Collect(t), p)
    ensures Subtree(t, Find(t, Window(p)).value) == Leaf(p)
  {
    var c := Collect(t);
    FindFirst(t, Window(p));
    assert !NoneMatch(c, Window(p)) by {
      assert Matches(c[IndexOf(c, p)], Window(p));
    }
    var j := Offset(t, Find(t, Window(p)).value);
    assert p !in c[..j];
    IndexOfUnique(c, p, j);
  }

  /** `Point::Any` always finds the leftmost leaf. */
  lemma {:induction false} FindAny(t: Node)
    ensures Find(t, Any).Some?
    ensures Offset(t, Find(t, Any).value) == 0
    ensures Subtree(t, Find(t, Any).value) == Leaf(Collect(t)[0])
  {
    if t.Internal? {
      FindAny(t.left);
      var p := Find(t.left, Any).value;
      assert ([false] + p)[1..] == p;
    }
  }

  // ---------------------------------------------------------------------
  // Insertion

  /**
   * The split that replaces the found leaf: the new window goes right of it
   * for East and South, left of it for West and North.
   */
  function Split(node: Node, w: WindowId, ins: Config.Insert): (r: Node)
    ensures r.Internal? && r.insert == ins
    ensures Collect(r) == if After(ins.dir) then Collect(node) + [w] else [w] + Collect(node)
  {
    match ins.dir
    case East | South => Internal(node, Leaf(w), ins)
    case West | North => Internal(Leaf(w), node, ins)
  }

  /** True for the directions that put the new window after the old one. */
  predicate After(dir: Direction)
  {
    dir == East || dir == South
  }

  /** `Node::insert`: split the leaf `find` returns; change nothing when there is none. */
  function Insert(t: Node, w: WindowId, ins: Config.Insert, pt: Point): (r: Node)
    ensures Find(t, pt).None? ==> r == t
    ensures Find(t, pt).Some? ==> |Collect(r)| == |Collect(t)| + 1
  {
    match Find(t, pt)
    case None => t
    case Some(p) =>
      SplitGrows(t, p, w, ins);
      ReplaceAt(t, p, Split(Subtree(t, p), w, ins))
  }

  /** Splitting the leaf at `k` puts `w` directly after or directly before its window. */
  lemma InsertAtLeaf(t: Node, p: Path, w: WindowId, ins: Config.Insert)
    requires IsPath(t, p) && Subtree(t, p).Leaf?
    ensures Offset(t, p) < |Collect(t)|
    ensures Collect(ReplaceAt(t, p, Split(Subtree(t, p), w, ins)))
         == Collect(t)[..Offset(t, p)]
            + (if After(ins.dir) then [Collect(t)[Offset(t, p)], w] else [w, Collect(t)[Offset(t, p)]])
            + Collect(t)[Offset(t, p) + 1..]
  {
    var x := Subtree(t, p);
    var n := Split(x, w, ins);
    CollectReplaceAt(t, p, n);
    SubtreeSlice(t, p);
    var c, k := Collect(t), Offset(t, p);
    assert Collect(x) == [x.window];
    assert c[k] == c[k..k + 1][0] == x.window;
    assert Collect(n) == (if After(ins.dir) then [c[k], w] else [w, c[k]]);
  }

  /**
   * Inserting next to a window that is in the tree places the new window
   * directly after it (East, South) or directly before it (West, North), at
   * its first position, under a new split that stores the given mode.
   */
  lemma InsertAtWindow(t: Node, w: WindowId, ins: Config.Insert, p: WindowId)
    requires p in Collect(t)
    ensures (var k := IndexOf(Collect(t), p);
             Collect(Insert(t, w, ins, Window(p)))
             == Collect(t)[..k] + (if After(ins.dir) then [p, w] else [w, p]) + Collect(t)[k + 1..])
    ensures (var path := Find(t, Window(p)).value;
             IsPath(Insert(t, w, ins, Window(p)), path)
             && Subtree(Insert(t, w, ins, Window(p)), path) == Split(Leaf(p), w, ins)
             && Subtree(Insert(t, w, ins, Window(p)), path).insert == ins)
  {
    FindWindow(t, p);
    var path := Find(t, Window(p)).value;
    InsertAtLeaf(t, path, w, ins);
    ReplaceAtFacts(t, path, Split(Leaf(p), w, ins));
  }

  /** Inserting at `Point::Any` splits the leftmost leaf. */
  lemma InsertAtAny(t: Node, w: WindowId, ins: Config.Insert)
    ensures Collect(Insert(t, w, ins, Any))
         == (if After(ins.dir) then [Collect(t)[0], w] else [w, Collect(t)[0]]) + Collect(t)[1..]
  {
    FindAny(t);
    InsertAtFound(t, w, ins, Any);
    var c := Collect(t);
    assert c[..0] == [];
  }

  /** Inserting where `find` succeeds splits the leaf at the found offset. */
  lemma InsertAtFound(t: Node, w: WindowId, ins: Config.Insert, pt: Point)
    requires Find(t, pt).Some?
    ensures Offset(t, Find(t, pt).value) < |Collect(t)|
    ensures var c, k := Collect(t), Offset(t, Find(t, pt).value);
            Collect(Insert(t, w, ins, pt)) == c[..k] + (if After(ins.dir) then [c[k], w] else [w, c[k]]) + c[k + 1..]
  {
    InsertAtLeaf(t, Find(t, pt).value, w, ins);
  }

  /** Inserting next to a window that is not in the tree leaves the tree as it was. */
  lemma InsertAtAbsentWindow(t: Node, w: WindowId, ins: Config.Insert, p: WindowId)
    requires p !in Collect(t)
    ensures Insert(t, w, ins, Window(p)) == t
  {
    FindFirst(t, Window(p));
  }

  /** A successful insertion adds exactly one leaf, holding `w`, and keeps every other window. */
  lemma InsertGrows(t: Node, w: WindowId, ins: Config.Insert, pt: Point)
    requires pt.Any? || pt.window in Collect(t)
    ensures |Collect(Insert(t, w, ins, pt))| == |Collect(t)| + 1
    ensures multiset(Collect(Insert(t, w, ins, pt))) == multiset(Collect(t)) + multiset{w}
  {
    if pt.Any? {
      FindAny(t);
    } else {
      FindWindow(t, pt.window);
    }
    SplitGrows(t, Find(t, pt).value, w, ins);
  }

  /** Splitting a leaf adds exactly one leaf, holding `w`. */
  lemma SplitGrows(t: Node, p: Path, w: WindowId, ins: Config.Insert)
    requires IsPath(t, p) && Subtree(t, p).Leaf?
    ensures |Collect(ReplaceAt(t, p, Split(Subtree(t, p), w, ins)))| == |Collect(t)| + 1
    ensures multiset(Collect(ReplaceAt(t, p, Split(Subtree(t, p), w, ins)))) == multiset(Collect(t)) + multiset{w}
  {
    InsertAtLeaf(t, p, w, ins);
    InsertNextCounts(Collect(t), Offset(t, p), w, After(ins.dir));
  }

  // ---------------------------------------------------------------------
  // Removal

  /**
   * `Node::remove`: the rewritten tree and the returned flag. A leaf reports
   * whether it holds `needle` and is left alone; an internal node whose child is
   * that leaf is replaced by the other child. The flag is true only for a tree
   * that is that single leaf, which the caller then drops.
   */
  function Remove(t: Node, needle: WindowId): (res: (Node, bool))
    ensures res.1 <==> t == Leaf(needle)
    ensures res.1 ==> res.0 == t
  {
    match t
    case Leaf(w) => (t, w == needle)
    case Internal(l, r, ins) =>
      var (l', hitLeft) := Remove(l, needle);
      if hitLeft then (r, false)
      else
        var (r', hitRight) := Remove(r, needle);
        if hitRight then (l', false) else (Internal(l', r', ins), false)
  }

  /** Removing a window that is not in the tree changes nothing. */
  lemma {:induction false} RemoveAbsent(t: Node, needle: WindowId)
    requires needle !in Collect(t)
    ensures Remove(t, needle) == (t, false)
  {
    if t.Internal? {
      RemoveAbsent(t.left, needle);
      RemoveAbsent(t.right, needle);
    }
  }

  /** Removing a window that occurs once drops exactly its position from the leaf sequence. */
  lemma {:induction false} RemoveUnique(t: Node, needle: WindowId)
    requires multiset(Collect(t))[needle] == 1 && t != Leaf(needle)
    ensures Collect(Remove(t, needle).0) == RemoveAt(Collect(t), IndexOf(Collect(t), needle))
  {
    var Internal(l, r, ins) := t;
    var cl, cr := Collect(l), Collect(r);
    assert multiset(Collect(t)) == multiset(cl) + multiset(cr);
    if needle in cl {
      if l != Leaf(needle) {
        RemoveUnique(l, needle);
      }
      RemoveUniqueLeft(l, r, ins, needle);
    } else {
      if r != Leaf(needle) {
        RemoveUnique(r, needle);
      }
      RemoveUniqueRight(l, r, ins, needle);
    }
  }

  /** One level of `RemoveUnique` when the window is in the left child. */
  lemma RemoveUniqueLeft(l: Node, r: Node, ins: Config.Insert, needle: WindowId)
    requires needle in Collect(l) && needle !in Collect(r)
    requires l != Leaf(needle) ==> Collect(Remove(l, needle).0) == RemoveAt(Collect(l), IndexOf(Collect(l), needle))
    ensures var t := Internal(l, r, ins);
            Collect(Remove(t, needle).0) == RemoveAt(Collect(t), IndexOf(Collect(t), needle))
  {
    var cl, cr := Collect(l), Collect(r);
    RemoveAbsent(r, needle);
    IndexOfAppendLeft(cl, cr, needle);
    RemoveAtAppendLeft(cl, cr, IndexOf(cl, needle));
    if l == Leaf(needle) {
      assert RemoveAt(cl, IndexOf(cl, needle)) == [];
    }
  }

  /** One level of `RemoveUnique` when the window is in the right child only. */
  lemma RemoveUniqueRight(l: Node, r: Node, ins: Config.Insert, needle: WindowId)
    requires needle !in Collect(l) && needle in Collect(r)
    requires r != Leaf(needle) ==> Collect(Remove(r, needle).0) == RemoveAt(Collect(r), IndexOf(Collect(r), needle))
    ensures var t := Internal(l, r, ins);
            Collect(Remove(t, needle).0) == RemoveAt(Collect(t), IndexOf(Collect(t), needle))
  {
    var cl, cr := Collect(l), Collect(r);
    RemoveAbsent(l, needle);
    IndexOfAppendRight(cl, cr, needle);
    RemoveAtAppendRight(cl, cr, IndexOf(cr, needle));
    if r == Leaf(needle) {
      assert RemoveAt(cr, IndexOf(cr, needle)) == [];
    }
  }

  /**
   * What `remove` does to the split above the leaf holding `needle`, found by
   * `find`: that split is overwritten by the leaf's sibling subtree, unchanged.
   */
  ghost predicate PromotesSibling(t: Node, needle: WindowId)
  {
    && Find(t, Window(needle)).Some? && |Find(t, Window(needle)).value| >= 1
    && var path := Find(t, Window(needle)).value;
       var parent := path[..|path| - 1];
       && IsPath(t, parent) && Subtree(t, parent).Internal?
       && Remove(t, needle).0
          == ReplaceAt(t, parent, if path[|path| - 1] then Subtree(t, parent).left else Subtree(t, parent).right)
  }

  /** Removing a window that occurs once collapses the split above its leaf into the leaf's sibling. */
  lemma {:induction false} RemovePromotesSibling(t: Node, needle: WindowId)
    requires multiset(Collect(t))[needle] == 1 && t != Leaf(needle)
    ensures PromotesSibling(t, needle)
  {
    var Internal(l, r, ins) := t;
    var cl, cr := Collect(l), Collect(r);
    assert multiset(Collect(t)) == multiset(cl) + multiset(cr);
    if needle in cl {
      if l != Leaf(needle) {
        RemovePromotesSibling(l, needle);
      }
      PromotesLeft(l, r, ins, needle);
    } else {
      if r != Leaf(needle) {
        RemovePromotesSibling(r, needle);
      }
      PromotesRight(l, r, ins, needle);
    }
  }

  /** One level of `RemovePromotesSibling` when the window is in the left child. */
  lemma PromotesLeft(l: Node, r: Node, ins: Config.Insert, needle: WindowId)
    requires needle in Collect(l) && needle !in Collect(r)
    requires l != Leaf(needle) ==> PromotesSibling(l, needle)
    ensures PromotesSibling(Internal(l, r, ins), needle)
  {
    var t := Internal(l, r, ins);
    RemoveAbsent(r, needle);
    FindWindow(l, needle);
    var p := Find(l, Window(needle)).value;
    var path := [false] + p;
    assert Find(t, Window(needle)).value == path;
    if l == Leaf(needle) {
      assert path[..|path| - 1] == [];
    } else {
      var q := p[..|p| - 1];
      assert path[..|path| - 1] == [false] + q;
      assert ([false] + q)[1..] == q;
      assert path[|path| - 1] == p[|p| - 1];
    }
  }

  /** One level of `RemovePromotesSibling` when the window is in the right child only. */
  lemma PromotesRight(l: Node, r: Node, ins: Config.Insert, needle: WindowId)
    requires needle !in Collect(l) && needle in Collect(r)
    requires r != Leaf(needle) ==> PromotesSibling(r, needle)
    ensures PromotesSibling(Internal(l, r, ins), needle)
  {
    var t := Internal(l, r, ins);
    RemoveAbsent(l, needle);
    FindFirst(l, Window(needle));
    FindWindow(r, needle);
    var p := Find(r, Window(needle)).value;
    var path := [true] + p;
    assert Find(t, Window(needle)).value == path;
    if r == Leaf(needle) {
      assert path[..|path| - 1] == [];
    } else {
      var q := p[..|p| - 1];
      assert path[..|path| - 1] == [true] + q;
      assert ([true] + q)[1..] == q;
      assert path[|path| - 1] == p[|p| - 1];
    }
  }

  /** `insert` at the leaf `find` returns, one level down: the unchanged child stays as it was. */
  lemma InsertInternal(l: Node, r: Node, i: Config.Insert, w: WindowId, ins: Config.Insert, pt: Point)
    ensures Insert(Internal(l, r, i), w, ins, pt)
         == if Find(l, pt).Some? then Internal(Insert(l, w, ins, pt), r, i)
            else Internal(l, Insert(r, w, ins, pt), i)
  {
    var t := Internal(l, r, i);
    if Find(l, pt).Some? {
      assert ([false] + Find(l, pt).value)[1..] == Find(l, pt).value;
    } else if Find(r, pt).Some? {
      assert ([true] + Find(r, pt).value)[1..] == Find(r, pt).value;
    }
  }

  /** Inserting a window that is not in the tree and then removing it restores the tree exactly. */
  lemma {:induction false} InsertThenRemove(t: Node, w: WindowId, ins: Config.Insert, pt: Point)
    requires w !in Collect(t)
    ensures Remove(Insert(t, w, ins, pt), w) == (t, false)
  {
    match t
    case Leaf(x) =>
      if Find(t, pt).None? {
        RemoveAbsent(t, w);
      }
    case Internal(l, r, i) =>
      InsertInternal(l, r, i, w, ins, pt);
      if Find(l, pt).Some? {
        InsertThenRemove(l, w, ins, pt);
        RemoveAbsent(r, w);
      } else {
        RemoveAbsent(l, w);
        InsertThenRemove(r, w, ins, pt);
      }
  }
}
