/**
 * The pure arithmetic inside `WindowManager::handle_config`
 * (src/yokai/wm/mod.rs): the new insertion mode of `NodeCommand::Insert`, the
 * clamped ratio of `NodeCommand::Ratio`, and the desktop index that
 * `DesktopCommand::Focus` selects on a screen.
 */
module Commands {

  import opened Config
  import opened Wrappers

  // ---------------------------------------------------------------------
  // NodeCommand::Insert

  /** The mode the command asks for: its direction, with its ratio or else the current one. */
  function Requested(current: Config.Insert, dir: Direction, ratio: Option<I8>): Config.Insert
  {
    NewInsert(dir, if ratio.Some? then ratio.value else current.ratio)
  }

  /**
   * The new `config.insert`: the requested mode, except that asking again for
   * the mode already in force with `toggle` set falls back to the default.
   */
  function InsertCommand(current: Config.Insert, dir: Direction, ratio: Option<I8>, toggle: bool): (r: Config.Insert)
    ensures r == DefaultInsert() || r == Requested(current, dir, ratio)
    ensures Requested(current, dir, ratio) != current || !toggle ==> r == Requested(current, dir, ratio)
    ensures toggle && Requested(current, dir, ratio) == current ==> r == DefaultInsert()
  {
    var ins := Requested(current, dir, ratio);
    if ins == current && toggle then DefaultInsert() else ins
  }

  /** Without `toggle` the command is idempotent: issuing it twice is issuing it once. */
  lemma InsertCommandIdempotent(current: Config.Insert, dir: Direction, ratio: Option<I8>)
    ensures InsertCommand(InsertCommand(current, dir, ratio, false), dir, ratio, false)
         == InsertCommand(current, dir, ratio, false)
  {
  }

  /**
   * Toggling the mode in force twice comes back to it: the first command resets
   * to the default, the second asks for the old mode again, which is no longer
   * in force.
   */
  lemma InsertCommandToggleTwice(current: Config.Insert)
    requires current != DefaultInsert()
    ensures var once := InsertCommand(current, current.dir, Some(current.ratio), true);
            once == DefaultInsert()
            && InsertCommand(once, current.dir, Some(current.ratio), true) == current
  {
  }

  // ---------------------------------------------------------------------
  // NodeCommand::Ratio

  /** `ipc::Change`: how a ratio command changes the split ratio. */
  datatype Change = Add(value: I8) | Sub(value: I8) | Set(value: I8)

  function Min(a: int, b: int): int
  {
    if a <= b then a else b
  }

  /**
   * The new ratio before clamping, as the i8 expression of the source computes
   * it: `Sub` takes away at most the ratio there is, so it is a subtraction
   * that stops at 0.
   */
  function RawRatio(ratio: I8, change: Change): (r: int)
    ensures change.Add? ==> r == ratio + change.value
    ensures change.Sub? ==> r == if ratio - change.value > 0 then ratio - change.value else 0
    ensures change.Set? ==> r == change.value
  {
    match change
    case Add(v) => ratio + v
    case Sub(v) => ratio - Min(v, ratio)
    case Set(v) => v
  }

  /** The i8 arithmetic does not overflow (the source panics when it does). */
  predicate RatioInRange(ratio: I8, change: Change)
  {
    -0x80 <= RawRatio(ratio, change) < 0x80
  }

  /** The ratio a split gets: the raw value clamped to [10, 90] by `.min(90).max(10)`. */
  function RatioChange(ratio: I8, change: Change): (r: I8)
    requires RatioInRange(ratio, change)
    ensures 10 <= r <= 90
    ensures 10 <= RawRatio(ratio, change) <= 90 ==> r == RawRatio(ratio, change)
    ensures RawRatio(ratio, change) < 10 ==> r == 10
    ensures RawRatio(ratio, change) > 90 ==> r == 90
  {
    var raw: I8 := RawRatio(ratio, change);
    var capped := if raw < 90 then raw else 90;
    if capped > 10 then capped else 10
  }

  /**
   * `Sub` never takes away more than the ratio there is: the raw result is
   * never negative, and for non-negative operands it does not exceed the old
   * ratio.
   */
  lemma SubAtMostRatio(ratio: I8, v: I8)
    ensures RawRatio(ratio, Sub(v)) >= 0
    ensures ratio >= 0 && v >= 0 ==> RawRatio(ratio, Sub(v)) <= ratio
    ensures RatioInRange(ratio, Sub(v)) && ratio >= 10 && v >= 0 ==> RatioChange(ratio, Sub(v)) <= ratio
  {
  }

  /** Setting a ratio that is already inside the bounds sets exactly that ratio. */
  lemma RatioSetExact(ratio: I8, v: I8)
    requires 10 <= v <= 90
    ensures RatioChange(ratio, Set(v)) == v
  {
  }

  // ---------------------------------------------------------------------
  // DesktopCommand::Focus

  /** With pinned desktops: `desktop.min(len)`. */
  function PinnedCurrent(desktop: nat, len: nat): (c: nat)
    ensures c <= len
    ensures c < len <==> desktop < len
    ensures desktop <= len ==> c == desktop
  {
    if desktop <= len then desktop else len
  }

  /**
   * With desktops numbered across screens: screen `index` changes its desktop
   * only when `desktop > len * index`, to `(desktop - len * index).min(len)`.
   */
  function UnpinnedCurrentAsWritten(desktop: nat, len: nat, index: nat): (c: Option<nat>)
    ensures c.Some? <==> desktop > len * index
    ensures c.Some? ==> c.value <= len && (len > 0 ==> c.value >= 1)
    ensures c.Some? ==> c.value == if desktop - len * index < len then desktop - len * index else len
  {
    if desktop > len * index then
      var d := desktop - len * index;
      Some(if d <= len then d else len)
    else None
  }

  /**
   * As written, the first desktop of the first screen can never be focused,
   * and asking for the first desktop of the second screen leaves the second
   * screen alone and moves the first one to the index one past its last
   * desktop.
   */
  lemma UnpinnedAsWrittenMissesFirst(len: nat)
    requires len > 0
    ensures forall index: nat :: UnpinnedCurrentAsWritten(0, len, index).None?
    ensures UnpinnedCurrentAsWritten(len, len, 0) == Some(len) && UnpinnedCurrentAsWritten(len, len, 1).None?
  {
  }

  /**
   * Desktop `desktop` counted across screens is local desktop
   * `desktop - len * index` of the screen `index` whose range holds it, the
   * inverse of the `current + len * index` the source reports to EWMH.
   */
  function UnpinnedCurrent(desktop: nat, len: nat, index: nat): (c: Option<nat>)
    ensures c.Some? ==> c.value < len && c.value + len * index == desktop
  {
    if len * index <= desktop < len * index + len then Some(desktop - len * index) else None
  }

  /** Every global desktop selects a local one on exactly the screen that owns it. */
  lemma UnpinnedCurrentOwner(desktop: nat, len: nat, index: nat)
    requires len > 0
    ensures UnpinnedCurrent(desktop, len, index).Some? <==> desktop / len == index
    ensures UnpinnedCurrent(desktop, len, index).Some? ==> UnpinnedCurrent(desktop, len, index).value == desktop % len
  {
    var q, m := desktop / len, desktop % len;
    assert desktop == len * q + m;
    if q < index {
      MulLe(len, q + 1, index);
    } else if index < q {
      MulLe(len, index + 1, q);
    }
  }

  /**
   * The selection as written agrees with the intended one exactly when the
   * desktop lies below the screen's range or strictly inside it: it goes wrong
   * on the first desktop of the range and on every desktop past it (desktop 5
   * with three desktops per screen moves screen 0 to the out-of-range index
   * 3). A screen without desktops only agrees at desktop 0.
   */
  lemma UnpinnedAsWrittenAgrees(desktop: nat, len: nat, index: nat)
    ensures UnpinnedCurrentAsWritten(desktop, len, index) == UnpinnedCurrent(desktop, len, index)
        <==> desktop < len * index || len * index < desktop < len * index + len || (len == 0 && desktop == 0)
  {
  }

  lemma MulLe(len: nat, a: nat, b: nat)
    requires a <= b
    ensures len * a <= len * b
  {
  }
}
