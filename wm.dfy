/**
 * The per-desktop and per-screen bookkeeping of yokai (src/yokai/wm/mod.rs).
 * A `Desktop` owns an optional tiling tree and a list of floating windows; a
 * `Screen` owns a list of desktops and the index of the current one. Both are
 * classes whose methods update their fields in place, as the source's
 * `&mut self` methods do. What a desktop holds is also read as a value, a
 * `DesktopView`, and every method is specified by a pure function on views;
 * the properties of the operations are lemmas about those functions.
 *
 * The X requests these structs trigger (mapping, unmapping, raising and
 * moving windows) are not modelled.
 */
module Wm {

  import opened Wrappers
  import opened Config
  import opened Seqs
  import opened Tree
  import opened Partition
  import opened Commands

  /** `ipc::State`: how a window is managed on its desktop. */
  datatype State = Float | Tiled | Dock

  /** What a desktop holds: `clients`, its tree if it has any tiled window, and `floating`. */
  datatype DesktopView = DesktopView(clients: Option<Node>, floating: seq<WindowId>)

  /** The tiled windows of a desktop, in tree order. */
  function TiledOf(v: DesktopView): seq<WindowId>
  {
    if v.clients.Some? then Collect(v.clients.value) else []
  }

  /** The desktop manages `w`, tiled or floating. */
  predicate Holds(v: DesktopView, w: WindowId)
  {
    w in TiledOf(v) || w in v.floating
  }

  /** Every window the desktop manages, tiled and floating together, with multiplicity. */
  function Contents(v: DesktopView): multiset<WindowId>
  {
    multiset(TiledOf(v)) + multiset(v.floating)
  }

  /** How many times `w` is managed by the desktop. */
  function Count(v: DesktopView, w: WindowId): nat
  {
    Contents(v)[w]
  }

  /** `Desktop::insert_tiled`: split the tree at the point, or start a tree holding just `w`. */
  function InsertTiledView(v: DesktopView, w: WindowId, ins: Config.Insert, pt: Point): (r: DesktopView)
    ensures r.floating == v.floating && r.clients.Some?
    ensures v.clients.None? ==> r.clients == Some(Leaf(w))
    ensures v.clients.Some? ==> r.clients == Some(Tree.Insert(v.clients.value, w, ins, pt))
  {
    match v.clients
    case Some(t) => DesktopView(Some(Tree.Insert(t, w, ins, pt)), v.floating)
    case None => DesktopView(Some(Root(w)), v.floating)
  }

  /** `Desktop::insert`: floating windows are appended, tiled ones go into the tree, docks are not kept. */
  function InsertView(v: DesktopView, w: WindowId, ins: Config.Insert, pt: Point, state: State): (r: DesktopView)
    ensures state == Float ==> r == DesktopView(v.clients, v.floating + [w])
    ensures state == Tiled ==> r == InsertTiledView(v, w, ins, pt)
    ensures state == Dock ==> r == v
  {
    match state
    case Float => DesktopView(v.clients, v.floating + [w])
    case Tiled => InsertTiledView(v, w, ins, pt)
    case Dock => v
  }

  /**
   * `Desktop::remove`: take `w` out of the tree, dropping the tree when it was
   * that single leaf, then take the first occurrence of `w` out of the
   * floating list; the result is `Float` exactly when there was one, otherwise
   * `Tiled`, whether or not the tree held `w`.
   */
  function RemoveView(v: DesktopView, w: WindowId): (r: (DesktopView, State))
    ensures r.1 == Float <==> w in v.floating
    ensures r.1 != Dock
    ensures r.0.floating == if w in v.floating then RemoveAt(v.floating, IndexOf(v.floating, w)) else v.floating
    ensures r.0.clients.None? <==> v.clients.None? || v.clients == Some(Leaf(w))
    ensures v.clients.Some? && v.clients.value != Leaf(w) ==> r.0.clients == Some(Tree.Remove(v.clients.value, w).0)
  {
    var clients :=
      match v.clients
      case None => None
      case Some(t) =>
        var (t', hit) := Tree.Remove(t, w);
        if hit then None else Some(t');
    if w in v.floating then
      (DesktopView(clients, RemoveAt(v.floating, IndexOf(v.floating, w))), Float)
    else
      (DesktopView(clients, v.floating), Tiled)
  }

  /** Removing a window the tree does not hold leaves the tree as it was. */
  lemma RemoveViewAbsent(v: DesktopView, w: WindowId)
    requires w !in TiledOf(v)
    ensures RemoveView(v, w).0.clients == v.clients
  {
    if v.clients.Some? {
      RemoveAbsent(v.clients.value, w);
    }
  }

  /** Removing a window the tree holds once drops exactly its position from the tiled windows; the others keep their order. */
  lemma RemoveViewTiled(v: DesktopView, w: WindowId)
    requires multiset(TiledOf(v))[w] == 1
    ensures TiledOf(RemoveView(v, w).0) == RemoveAt(TiledOf(v), IndexOf(TiledOf(v), w))
  {
    assert w in TiledOf(v);
    var t := v.clients.value;
    if t == Leaf(w) {
      assert RemoveAt(TiledOf(v), IndexOf(TiledOf(v), w)) == [];
    } else {
      RemoveUnique(t, w);
    }
  }

  /** Removing a window the desktop holds exactly once takes that window away and nothing else. */
  lemma RemoveViewKeeps(v: DesktopView, w: WindowId)
    requires Count(v, w) == 1
    ensures Contents(RemoveView(v, w).0) + multiset{w} == Contents(v)
  {
    if w in v.floating {
      assert w !in TiledOf(v);
      RemoveViewAbsent(v, w);
      RemoveAtCounts(v.floating, IndexOf(v.floating, w));
    } else {
      RemoveViewTiled(v, w);
      RemoveAtCounts(TiledOf(v), IndexOf(TiledOf(v), w));
    }
  }

  /**
   * A window inserted as floating or tiled is then held by the desktop: it
   * joins the floating list or the tree exactly once and nothing else changes.
   */
  lemma InsertViewHolds(v: DesktopView, w: WindowId, ins: Config.Insert, pt: Point, state: State)
    requires state != Dock
    requires state == Tiled && v.clients.Some? && pt.Window? ==> pt.window in TiledOf(v)
    ensures Holds(InsertView(v, w, ins, pt, state), w)
    ensures state == Tiled ==> multiset(TiledOf(InsertView(v, w, ins, pt, state))) == multiset(TiledOf(v)) + multiset{w}
    ensures Contents(InsertView(v, w, ins, pt, state)) == Contents(v) + multiset{w}
  {
    if state == Tiled && v.clients.Some? {
      InsertGrows(v.clients.value, w, ins, pt);
      assert w in multiset(TiledOf(InsertView(v, w, ins, pt, state)));
    }
  }

  /** Inserting next to a window the tree does not hold changes nothing. */
  lemma InsertViewAbsentPoint(v: DesktopView, w: WindowId, ins: Config.Insert, p: WindowId)
    requires v.clients.Some? && p !in TiledOf(v)
    ensures InsertView(v, w, ins, Window(p), Tiled) == v
  {
    InsertAtAbsentWindow(v.clients.value, w, ins, p);
  }

  /**
   * Inserting a window the desktop does not hold and removing it again gives
   * back the desktop, with `Float` for a floating window and `Tiled` otherwise.
   */
  lemma InsertThenRemoveView(v: DesktopView, w: WindowId, ins: Config.Insert, pt: Point, state: State)
    requires !Holds(v, w)
    ensures RemoveView(InsertView(v, w, ins, pt, state), w) == (v, if state == Float then Float else Tiled)
  {
    var v' := InsertView(v, w, ins, pt, state);
    match state
    case Float =>
      RemoveViewAbsent(v', w);
      IndexOfUnique(v.floating + [w], w, |v.floating|);
      assert RemoveAt(v.floating + [w], |v.floating|) == v.floating;
    case Tiled =>
      if v.clients.Some? {
        InsertThenRemove(v.clients.value, w, ins, pt);
      }
    case Dock =>
      RemoveViewAbsent(v, w);
  }

  /** Removing a window the desktop holds at most once leaves the desktop without it. */
  lemma RemoveViewClears(v: DesktopView, w: WindowId)
    requires Count(v, w) <= 1
    ensures !Holds(RemoveView(v, w).0, w)
  {
    var r := RemoveView(v, w).0;
    if w in v.floating {
      assert w !in TiledOf(v);
      RemoveViewAbsent(v, w);
      var k := IndexOf(v.floating, w);
      RemoveAtCounts(v.floating, k);
      assert multiset(r.floating)[w] == 0;
    } else if w in TiledOf(v) {
      var t := v.clients.value;
      assert r.floating == v.floating;
      if t != Leaf(w) {
        assert r.clients == Some(Tree.Remove(t, w).0);
        RemoveUnique(t, w);
        RemoveAtCounts(Collect(t), IndexOf(Collect(t), w));
        assert multiset(TiledOf(r))[w] == 0;
        assert w !in TiledOf(r);
      } else {
        assert r.clients.None?;
      }
      assert w !in r.floating;
    } else {
      RemoveViewAbsent(v, w);
    }
  }

  // ---------------------------------------------------------------------
  // Desktop

  class Desktop {
    var clients: Option<Node>
    var floating: seq<WindowId>
    const area: Area

    function View(): DesktopView
      reads this
    {
      DesktopView(clients, floating)
    }

    /** `Desktop::new`: no windows. */
    constructor (area: Area)
      ensures View() == DesktopView(None, []) && this.area == area
    {
      clients := None;
      floating := [];
      this.area := area;
    }

    /** `Desktop::contains`: the tree or the floating list holds the window. */
    function Contains(w: WindowId): (r: bool)
      reads this
      ensures r <==> Holds(View(), w)
    {
      match clients
      case Some(t) => Tree.Contains(t, w) || w in floating
      case None => w in floating
    }

    /** `Desktop::insert_tiled`. */
    method InsertTiled(w: WindowId, ins: Config.Insert, pt: Point)
      modifies this
      ensures View() == InsertTiledView(old(View()), w, ins, pt)
    {
      match clients
      case Some(t) =>
        clients := Some(Tree.Insert(t, w, ins, pt));
      case None =>
        clients := Some(Root(w));
    }

    /** `Desktop::insert`. */
    method Insert(w: WindowId, ins: Config.Insert, pt: Point, state: State)
      modifies this
      ensures View() == InsertView(old(View()), w, ins, pt, state)
    {
      match state
      case Float =>
        floating := floating + [w];
      case Tiled =>
        InsertTiled(w, ins, pt);
      case Dock =>
    }

    /** `Desktop::remove`. */
    method Remove(w: WindowId) returns (s: State)
      modifies this
      ensures (View(), s) == RemoveView(old(View()), w)
    {
      if clients.Some? {
        var (t', hit) := Tree.Remove(clients.value, w);
        if hit {
          clients := None;
        } else {
          clients := Some(t');
        }
      }
      if w in floating {
        var index := IndexOf(floating, w);
        floating := RemoveAt(floating, index);
        s := Float;
      } else {
        s := Tiled;
      }
    }

    /** The loop of `Screen::resize` on the last desktop kept: insert the windows one by one, tiled, at `Point::Any`. */
    method InsertAll(ws: seq<WindowId>)
      modifies this
      ensures View() == InsertAllTiled(old(View()), ws)
    {
      var i := 0;
      while i < |ws|
        invariant 0 <= i <= |ws|
        invariant View() == InsertAllTiled(old(View()), ws[..i])
      {
        Insert(ws[i], DefaultInsert(), Any, Tiled);
        assert ws[..i + 1][..i] == ws[..i];
        i := i + 1;
      }
      assert ws[..i] == ws;
    }

    /**
     * The geometry half of `Desktop::tile`: the tree is laid out in the
     * desktop's area shrunk by the padding, each leaf framed with `leafPad`
     * (the source passes its `gaps` there).
     */
    function Tile(padding: Padding, leafPad: Padding, cut: (U16, I8) -> U16): (ps: seq<Placement>)
      reads this
      requires CutWithin(cut)
      requires clients.Some? ==> Fits(area) && PadFits(area, padding) && CellsFit(clients.value, Inset(area, padding), leafPad, cut)
      ensures |ps| == |TiledOf(View())|
      ensures forall i :: 0 <= i < |ps| ==> ps[i].window == TiledOf(View())[i]
      ensures clients.None? ==> ps == []
      ensures clients.Some? ==> forall i :: 0 <= i < |ps| ==> Within(ps[i].frame, Inset(area, padding))
    {
      match clients
      case None => []
      case Some(t) => Partition.Partition(t, Inset(area, padding), leafPad, cut)
    }
  }

  /** The views of a list of desktops, in order. */
  function ViewsOf(ds: seq<Desktop>): (vs: seq<DesktopView>)
    reads ds
    ensures |vs| == |ds| && forall i :: 0 <= i < |ds| ==> vs[i] == ds[i].View()
  {
    if ds == [] then [] else [ds[0].View()] + ViewsOf(ds[1..])
  }

  /** Some desktop of the list holds `w` (the `any` of `Screen::contains`). */
  function AnyContains(ds: seq<Desktop>, w: WindowId): (r: bool)
    reads ds
    ensures r <==> exists i :: 0 <= i < |ds| && Holds(ds[i].View(), w)
  {
    if ds == [] then false
    else
      assert forall i :: 1 <= i < |ds| ==> ds[i] == ds[1..][i - 1];
      ds[0].Contains(w) || AnyContains(ds[1..], w)
  }

  /** The tiled windows of the desktops that `resize` drops, desktop by desktop, in tree order. */
  function Excess(vs: seq<DesktopView>): (ws: seq<WindowId>)
    ensures forall w :: w in ws <==> exists i :: 0 <= i < |vs| && w in TiledOf(vs[i])
  {
    if vs == [] then []
    else
      assert forall i :: 1 <= i < |vs| ==> vs[i] == vs[1..][i - 1];
      TiledOf(vs[0]) + Excess(vs[1..])
  }

  /**
   * Each window of `ws` inserted in turn, tiled, with the default mode at
   * `Point::Any`: every one of them joins the tree once, and the floating list
   * stays as it was.
   */
  function InsertAllTiled(v: DesktopView, ws: seq<WindowId>): (r: DesktopView)
    ensures multiset(TiledOf(r)) == multiset(TiledOf(v)) + multiset(ws)
    ensures r.floating == v.floating
  {
    if ws == [] then v
    else
      var init, w := ws[..|ws| - 1], ws[|ws| - 1];
      assert ws == init + [w];
      InsertViewHolds(InsertAllTiled(v, init), w, DefaultInsert(), Any, Tiled);
      InsertView(InsertAllTiled(v, init), w, DefaultInsert(), Any, Tiled)
  }

  /** `handle_config`'s `NodeCommand::Desktop` on views: remove `w` from desktop `cur`, insert it at `Point::Any` into `dst` in the state the removal reported. */
  function MoveViews(vs: seq<DesktopView>, cur: nat, dst: nat, w: WindowId, ins: Config.Insert): (r: seq<DesktopView>)
    requires cur < |vs| && dst < |vs| && cur != dst
    ensures |r| == |vs| && forall k :: 0 <= k < |vs| && k != cur && k != dst ==> r[k] == vs[k]
  {
    var (v', s) := RemoveView(vs[cur], w);
    vs[cur := v'][dst := InsertView(vs[dst], w, ins, Any, s)]
  }

  /**
   * Moving a window adds it, and nothing else, to the target desktop. It
   * leaves the current desktop without it when that held it at most once, and
   * with every other window when it held it exactly once.
   */
  lemma MoveViewsMoves(vs: seq<DesktopView>, cur: nat, dst: nat, w: WindowId, ins: Config.Insert)
    requires cur < |vs| && dst < |vs| && cur != dst
    ensures Holds(MoveViews(vs, cur, dst, w, ins)[dst], w)
    ensures Contents(MoveViews(vs, cur, dst, w, ins)[dst]) == Contents(vs[dst]) + multiset{w}
    ensures Count(vs[cur], w) <= 1 ==> !Holds(MoveViews(vs, cur, dst, w, ins)[cur], w)
    ensures Count(vs[cur], w) == 1 ==> Contents(MoveViews(vs, cur, dst, w, ins)[cur]) + multiset{w} == Contents(vs[cur])
  {
    var (v', s) := RemoveView(vs[cur], w);
    InsertViewHolds(vs[dst], w, ins, Any, s);
    if Count(vs[cur], w) <= 1 {
      RemoveViewClears(vs[cur], w);
    }
    if Count(vs[cur], w) == 1 {
      RemoveViewKeeps(vs[cur], w);
    }
  }

  // ---------------------------------------------------------------------
  // Screen

  class Screen {
    var desktops: seq<Desktop>
    var current: nat
    const area: Area

    /** Every desktop is a separate object, so changing one leaves the others as they were. */
    ghost predicate Valid()
      reads this
    {
      forall i, j :: 0 <= i < j < |desktops| ==> desktops[i] != desktops[j]
    }

    function Views(): seq<DesktopView>
      reads this, desktops
    {
      ViewsOf(desktops)
    }

    /** `Screen::new`: no desktops, the first one current. */
    constructor (area: Area)
      ensures Valid() && desktops == [] && current == 0 && this.area == area
    {
      desktops := [];
      current := 0;
      this.area := area;
    }

    /** `Screen::contains`: some desktop holds the window. */
    function Contains(w: WindowId): (r: bool)
      reads this, desktops
      ensures r <==> exists i :: 0 <= i < |desktops| && Holds(Views()[i], w)
    {
      assert forall i :: 0 <= i < |desktops| ==> Views()[i] == desktops[i].View();
      AnyContains(desktops, w)
    }

    /**
     * `Screen::resize`. Growing appends fresh empty desktops over the screen
     * area. Shrinking drops the tail and re-inserts each tiled window of the
     * dropped desktops, in order, into the last desktop kept; their floating
     * windows are not carried over. Shrinking to no desktop at all only works
     * when the dropped desktops have no tree (`size - 1` underflows otherwise).
     */
    method Resize(size: nat)
      requires Valid()
      requires size == 0 ==> forall i :: 0 <= i < |desktops| ==> desktops[i].clients.None?
      modifies this, desktops
      ensures Valid() && |desktops| == size && current == old(current)
      ensures size >= old(|desktops|) ==>
                && desktops[..old(|desktops|)] == old(desktops)
                && (forall k :: 0 <= k < old(|desktops|) ==> desktops[k].View() == old(desktops[k].View()))
                && (forall k :: old(|desktops|) <= k < size ==>
                      fresh(desktops[k]) && desktops[k].View() == DesktopView(None, []) && desktops[k].area == area)
      ensures size < old(|desktops|) ==>
                && desktops == old(desktops[..size])
                && (forall k :: 0 <= k < size - 1 ==> desktops[k].View() == old(desktops[k].View()))
                && (size > 0 ==> desktops[size - 1].View()
                                 == InsertAllTiled(old(desktops[size - 1].View()), old(Excess(ViewsOf(desktops[size..])))))
    {
      if size >= |desktops| {
        while |desktops| < size
          modifies this
          invariant old(|desktops|) <= |desktops| <= size
          invariant desktops[..old(|desktops|)] == old(desktops)
          invariant forall k :: old(|desktops|) <= k < |desktops| ==>
                      fresh(desktops[k]) && desktops[k].View() == DesktopView(None, []) && desktops[k].area == area
          invariant Valid() && current == old(current)
          decreases size - |desktops|
        {
          var d := new Desktop(area);
          desktops := desktops + [d];
        }
      } else {
        var excess := Excess(ViewsOf(desktops[size..]));
        if size == 0 {
          NoTreesNoExcess(desktops[size..]);
        }
        desktops := desktops[..size];
        if |excess| > 0 {
          desktops[size - 1].InsertAll(excess);
        }
      }
    }

    /** `Screen::insert`: insert into the current desktop; nothing happens when `current` is out of range. */
    method Insert(w: WindowId, ins: Config.Insert, pt: Point, state: State)
      requires Valid()
      modifies desktops
      ensures Valid() && desktops == old(desktops) && current == old(current)
      ensures current < |desktops| ==> Views() == old(Views())[current := InsertView(old(Views()[current]), w, ins, pt, state)]
      ensures current >= |desktops| ==> Views() == old(Views())
    {
      if current < |desktops| {
        desktops[current].Insert(w, ins, pt, state);
      }
    }

    /** `Screen::remove`: remove from the current desktop, which must exist (the source indexes it directly). */
    method Remove(w: WindowId) returns (s: State)
      requires Valid() && current < |desktops|
      modifies desktops
      ensures Valid() && desktops == old(desktops) && current == old(current)
      ensures (Views()[current], s) == RemoveView(old(Views()[current]), w)
      ensures forall k :: 0 <= k < |desktops| && k != current ==> Views()[k] == old(Views()[k])
    {
      s := desktops[current].Remove(w);
    }

    /** `DesktopCommand::Focus` with pinned desktops: `current = desktop.min(len)`. */
    method FocusPinned(desktop: nat)
      modifies this
      ensures desktops == old(desktops) && current == PinnedCurrent(desktop, |desktops|)
    {
      current := PinnedCurrent(desktop, |desktops|);
    }

    /**
     * `DesktopCommand::Focus` with desktops numbered across screens, for the
     * screen at position `index`: it takes the desktop only when the number
     * falls in its range.
     */
    method FocusUnpinned(desktop: nat, index: nat) returns (changed: bool)
      modifies this
      ensures desktops == old(desktops)
      ensures changed <==> UnpinnedCurrent(desktop, |desktops|, index).Some?
      ensures current == if changed then UnpinnedCurrent(desktop, |desktops|, index).value else old(current)
    {
      var c := UnpinnedCurrent(desktop, |desktops|, index);
      changed := c.Some?;
      if c.Some? {
        current := c.value;
      }
    }

    /**
     * `NodeCommand::Desktop` on the focused screen: when `desktop` is another
     * existing desktop, remove `w` from the current one and insert it into
     * `desktop` at `Point::Any`, in the state the removal reported. The
     * removal indexes the current desktop directly, so it must exist.
     */
    method MoveWindow(w: WindowId, desktop: nat, ins: Config.Insert) returns (moved: bool)
      requires Valid()
      requires desktop < |desktops| && current != desktop ==> current < |desktops|
      modifies desktops
      ensures Valid() && desktops == old(desktops) && current == old(current)
      ensures moved <==> desktop < |desktops| && current != desktop
      ensures moved ==> Views() == MoveViews(old(Views()), current, desktop, w, ins)
      ensures !moved ==> Views() == old(Views())
    {
      moved := desktop < |desktops| && current != desktop;
      if moved {
        var s := Remove(w);
        desktops[desktop].Insert(w, ins, Any, s);
      }
    }
  }

  /** Desktops without trees contribute no excess windows. */
  lemma {:induction false} NoTreesNoExcess(ds: seq<Desktop>)
    requires forall i :: 0 <= i < |ds| ==> ds[i].clients.None?
    ensures Excess(ViewsOf(ds)) == []
  {
    if ds != [] {
      NoTreesNoExcess(ds[1..]);
      var vs := ViewsOf(ds);
      assert vs[1..] == ViewsOf(ds[1..]);
      assert TiledOf(vs[0]) == [];
    }
  }
}
