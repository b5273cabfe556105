/**
 * Screen geometry (`wm::Area`, src/yokai/wm/mod.rs) and the integer skeleton
 * of `Node::partition` (src/yokai/tree/mod.rs): each split divides its
 * rectangle along one axis at a cut, the left subtree taking the part at the
 * origin, and every leaf's window gets its cell shrunk by the padding.
 *
 * The source computes coordinates in u16, where an overflow or underflow
 * panics; the members here require the inputs that keep every intermediate
 * value in range instead of modelling the wrap-around. The cut itself comes
 * from an f64 product; it is a parameter here, constrained only to stay
 * within the extent it divides.
 */
module Partition {

  import opened Config
  import opened Tree

  /** `wm::Area`. */
  datatype Area = Area(x: U16, y: U16, width: U16, height: U16)

  /** The far edges `x + width` and `y + height` are u16 values too. */
  predicate Fits(a: Area)
  {
    a.x + a.width < 0x1_0000 && a.y + a.height < 0x1_0000
  }

  /** The half-open point set of the rectangle. */
  predicate Covers(a: Area, px: int, py: int)
  {
    a.x <= px < a.x + a.width && a.y <= py < a.y + a.height
  }

  predicate Within(inner: Area, outer: Area)
  {
    && outer.x <= inner.x && inner.x + inner.width <= outer.x + outer.width
    && outer.y <= inner.y && inner.y + inner.height <= outer.y + outer.height
  }

  /** The two rectangles lie on either side of a vertical or a horizontal line. */
  predicate Separated(a: Area, b: Area)
  {
    a.x + a.width <= b.x || b.x + b.width <= a.x || a.y + a.height <= b.y || b.y + b.height <= a.y
  }

  /** Shrinking two separated rectangles keeps them separated. */
  lemma SeparatedWithin(a: Area, b: Area, a': Area, b': Area)
    requires Separated(a, b) && Within(a', a) && Within(b', b)
    ensures Separated(a', b')
  {
  }

  /**
   * `Area::contains`: the point lies strictly inside. Computing the far edges
   * is where u16 could overflow, hence `Fits`.
   */
  function Contains(a: Area, px: U16, py: U16): (r: bool)
    requires Fits(a)
    ensures r ==> Covers(a, px, py)
    ensures Covers(a, px, py) && px != a.x && py != a.y ==> r
  {
    (px > a.x && px < a.x + a.width) && (py > a.y && py < a.y + a.height)
  }

  /** No point on any of the four edges is contained, not even on the near ones. */
  lemma ContainsIsStrict(a: Area, px: U16, py: U16)
    requires Fits(a)
    ensures !Contains(a, a.x, py) && !Contains(a, a.x + a.width, py)
    ensures !Contains(a, px, a.y) && !Contains(a, px, a.y + a.height)
  {
  }

  // ---------------------------------------------------------------------
  // Splitting along a cut

  /** The length a split in direction `dir` divides: height for North and South, width for West and East. */
  function Extent(a: Area, dir: Direction): U16
  {
    if dir == North || dir == South then a.height else a.width
  }

  /**
   * The two child rectangles of a split in `partition`: the first keeps the
   * parent's origin and gets extent `c`, the second starts `c` further on and
   * gets the rest; the other dimension is copied.
   */
  function SplitArea(a: Area, dir: Direction, c: U16): (halves: (Area, Area))
    requires Fits(a) && c <= Extent(a, dir)
    ensures Fits(halves.0) && Fits(halves.1)
    ensures Within(halves.0, a) && Within(halves.1, a) && Separated(halves.0, halves.1)
  {
    if dir == North || dir == South then
      (Area(a.x, a.y, a.width, c), Area(a.x, a.y + c, a.width, a.height - c))
    else
      (Area(a.x, a.y, c, a.height), Area(a.x + c, a.y, a.width - c, a.height))
  }

  /** The two halves tile the parent: every point of it lies in exactly one of them. */
  lemma SplitTiles(a: Area, dir: Direction, c: U16, px: int, py: int)
    requires Fits(a) && c <= Extent(a, dir)
    ensures var (h0, h1) := SplitArea(a, dir, c);
            Covers(a, px, py) <==> Covers(h0, px, py) || Covers(h1, px, py)
    ensures var (h0, h1) := SplitArea(a, dir, c);
            !(Covers(h0, px, py) && Covers(h1, px, py))
  {
  }

  /**
   * A rounding of `extent * min(ratio, 100) / 100` to a u16 position, as the
   * source's `(extent as f64 * factor) as u16` is: it never leaves the extent.
   */
  ghost predicate CutWithin(cut: (U16, I8) -> U16)
  {
    forall e: U16, r: I8 :: cut(e, r) <= e
  }

  /** The exact integer version of the f64 cut; a negative ratio saturates to 0 like the cast. */
  function ExactCut(e: U16, r: I8): U16
  {
    if r <= 0 then 0 else e * (if r < 100 then r else 100) / 100
  }

  lemma ExactCutWithin()
    ensures CutWithin(ExactCut)
  {
    forall e: U16, r: I8
      ensures ExactCut(e, r) <= e
    {
      if r > 0 {
        var q := if r < 100 then r else 100;
        assert e * q <= e * 100 by {
          MulMonotone(e, q, 100);
        }
      }
    }
  }

  lemma MulMonotone(e: nat, a: nat, b: nat)
    requires a <= b
    ensures e * a <= e * b
  {
  }

  /** The exact cut of a 200-pixel extent at one half, above one hundred percent and below zero. */
  lemma ExactCutExamples()
    ensures ExactCut(200, 50) == 100 && ExactCut(200, 127) == 200 && ExactCut(200, -5) == 0
  {
  }

  // ---------------------------------------------------------------------
  // Leaf frames

  /** The padding leaves room: the subtractions `width - left - right` and `height - top - bottom` do not underflow. */
  predicate PadFits(a: Area, pad: Padding)
  {
    pad.left + pad.right <= a.width && pad.top + pad.bottom <= a.height
  }

  /**
   * A rectangle shrunk by the padding on each side, as `Desktop::tile` computes
   * its working area: the result lies inside and its margins are exactly the
   * four padding values.
   */
  function Inset(a: Area, pad: Padding): (r: Area)
    requires Fits(a) && PadFits(a, pad)
    ensures Fits(r) && Within(r, a)
    ensures r.x - a.x == pad.left && (a.x + a.width) - (r.x + r.width) == pad.right
    ensures r.y - a.y == pad.top && (a.y + a.height) - (r.y + r.height) == pad.bottom
  {
    Area(a.x + pad.left, a.y + pad.top, a.width - pad.left - pad.right, a.height - pad.top - pad.bottom)
  }

  /** The leaf frame as `partition` writes it: the top edge moves up by the top padding instead of down. */
  function LeafFrameAsWritten(a: Area, pad: Padding): (r: Area)
    requires Fits(a) && PadFits(a, pad) && pad.top <= a.y
    ensures r.x == Inset(a, pad).x && r.width == Inset(a, pad).width && r.height == Inset(a, pad).height
  {
    Area(a.x + pad.left, a.y - pad.top, a.width - pad.left - pad.right, a.height - pad.top - pad.bottom)
  }

  /**
   * With any top padding the frame as written pokes out of the top of its cell
   * (and with `top > y` the u16 subtraction underflows); it agrees with the
   * inset only when there is no top padding.
   */
  lemma LeafFrameAsWrittenEscapes(a: Area, pad: Padding)
    requires Fits(a) && PadFits(a, pad) && pad.top <= a.y
    ensures pad.top > 0 ==> !Within(LeafFrameAsWritten(a, pad), a)
    ensures LeafFrameAsWritten(a, pad) == Inset(a, pad) <==> pad.top == 0
  {
  }

  /** A concrete case: a 100x100 cell at y = 50 with top padding 10 gets a frame starting at y = 40. */
  lemma LeafFrameAsWrittenExample()
    ensures LeafFrameAsWritten(Area(0, 50, 100, 100), Padding(10, 0, 0, 0)).y == 40
    ensures Inset(Area(0, 50, 100, 100), Padding(10, 0, 0, 0)).y == 60
  {
  }

  // ---------------------------------------------------------------------
  // Partition

  /** What `partition` asks of a leaf window: `mov_resize` to this frame, then `map`. */
  datatype Placement = Placement(window: WindowId, frame: Area)

  /** The cells of the two children of a split node. */
  function Halves(a: Area, ins: Config.Insert, cut: (U16, I8) -> U16): (Area, Area)
    requires Fits(a) && CutWithin(cut)
  {
    SplitArea(a, ins.dir, cut(Extent(a, ins.dir), ins.ratio))
  }

  /** Every leaf cell admits the padding, so no leaf frame underflows. */
  ghost predicate CellsFit(t: Node, a: Area, pad: Padding, cut: (U16, I8) -> U16)
    requires Fits(a) && CutWithin(cut)
  {
    match t
    case Leaf(_) => PadFits(a, pad)
    case Internal(l, r, ins) =>
      var (h0, h1) := Halves(a, ins, cut);
      CellsFit(l, h0, pad, cut) && CellsFit(r, h1, pad, cut)
  }

  /** Without padding every cell fits. */
  lemma {:induction false} CellsFitZero(t: Node, a: Area, cut: (U16, I8) -> U16)
    requires Fits(a) && CutWithin(cut)
    ensures CellsFit(t, a, Padding(0, 0, 0, 0), cut)
  {
    if t.Internal? {
      var (h0, h1) := Halves(a, t.insert, cut);
      CellsFitZero(t.left, h0, cut);
      CellsFitZero(t.right, h1, cut);
    }
  }

  /**
   * `Node::partition` with the leaf frame corrected to the inset: the
   * placements come in leaf order, one per leaf, each inside the area.
   */
  function Partition(t: Node, a: Area, pad: Padding, cut: (U16, I8) -> U16): (ps: seq<Placement>)
    requires Fits(a) && CutWithin(cut) && CellsFit(t, a, pad, cut)
    ensures |ps| == |Collect(t)|
    ensures forall i :: 0 <= i < |ps| ==> ps[i].window == Collect(t)[i]
    ensures forall i :: 0 <= i < |ps| ==> Within(ps[i].frame, a) && Fits(ps[i].frame)
  {
    match t
    case Leaf(w) => [Placement(w, Inset(a, pad))]
    case Internal(l, r, ins) =>
      var (h0, h1) := Halves(a, ins, cut);
      var pl, pr := Partition(l, h0, pad, cut), Partition(r, h1, pad, cut);
      assert forall i :: |pl| <= i < |pl| + |pr| ==> (pl + pr)[i] == pr[i - |pl|];
      pl + pr
  }

  /** Frames of different placements do not overlap. */
  ghost predicate PairwiseSeparated(ps: seq<Placement>)
  {
    forall i, j :: 0 <= i < j < |ps| ==> Separated(ps[i].frame, ps[j].frame)
  }

  /** No two frames overlap: frames of different leaves are separated. */
  lemma {:induction false} PartitionDisjoint(t: Node, a: Area, pad: Padding, cut: (U16, I8) -> U16)
    requires Fits(a) && CutWithin(cut) && CellsFit(t, a, pad, cut)
    ensures PairwiseSeparated(Partition(t, a, pad, cut))
  {
    if t.Internal? {
      var (h0, h1) := Halves(a, t.insert, cut);
      PartitionDisjoint(t.left, h0, pad, cut);
      PartitionDisjoint(t.right, h1, pad, cut);
      var pl, pr := Partition(t.left, h0, pad, cut), Partition(t.right, h1, pad, cut);
      var ps := Partition(t, a, pad, cut);
      assert ps == pl + pr;
      forall i, j | 0 <= i < j < |ps|
        ensures Separated(ps[i].frame, ps[j].frame)
      {
        if j < |pl| {
          assert ps[i] == pl[i] && ps[j] == pl[j];
        } else if |pl| <= i {
          assert ps[i] == pr[i - |pl|] && ps[j] == pr[j - |pl|];
        } else {
          assert ps[i] == pl[i] && ps[j] == pr[j - |pl|];
          assert Within(pl[i].frame, h0) && Within(pr[j - |pl|].frame, h1);
          assert Separated(h0, h1);
          SeparatedWithin(h0, h1, ps[i].frame, ps[j].frame);
        }
      }
    }
  }

  /** Some frame holds the point. */
  ghost predicate CoveredBy(ps: seq<Placement>, px: int, py: int)
  {
    exists i :: 0 <= i < |ps| && Covers(ps[i].frame, px, py)
  }

  /** Without padding the frames cover the whole area: every point of it lies in some frame. */
  lemma {:induction false} PartitionCovers(t: Node, a: Area, cut: (U16, I8) -> U16, px: int, py: int)
    requires Fits(a) && CutWithin(cut) && Covers(a, px, py)
    ensures CellsFit(t, a, Padding(0, 0, 0, 0), cut)
    ensures CoveredBy(Partition(t, a, Padding(0, 0, 0, 0), cut), px, py)
  {
    var pad := Padding(0, 0, 0, 0);
    CellsFitZero(t, a, cut);
    match t
    case Leaf(_) =>
      assert Covers(Partition(t, a, pad, cut)[0].frame, px, py);
    case Internal(l, r, ins) =>
      var (h0, h1) := Halves(a, ins, cut);
      var pl, pr := Partition(l, h0, pad, cut), Partition(r, h1, pad, cut);
      var ps := Partition(t, a, pad, cut);
      assert ps == pl + pr;
      SplitTiles(a, ins.dir, cut(Extent(a, ins.dir), ins.ratio), px, py);
      if Covers(h0, px, py) {
        PartitionCovers(l, h0, cut, px, py);
      } else {
        PartitionCovers(r, h1, cut, px, py);
      }
      CoveredByAppend(pl, pr, px, py);
  }

  lemma CoveredByAppend(pl: seq<Placement>, pr: seq<Placement>, px: int, py: int)
    ensures CoveredBy(pl, px, py) || CoveredBy(pr, px, py) ==> CoveredBy(pl + pr, px, py)
  {
    if CoveredBy(pl, px, py) {
      var i :| 0 <= i < |pl| && Covers(pl[i].frame, px, py);
      assert (pl + pr)[i] == pl[i];
    } else if CoveredBy(pr, px, py) {
      var i :| 0 <= i < |pr| && Covers(pr[i].frame, px, py);
      assert (pl + pr)[|pl| + i] == pr[i];
    }
  }
}
