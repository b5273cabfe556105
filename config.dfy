/**
 * The configuration values of yokai (src/yokai/config/mod.rs): the insertion
 * mode `Insert` with its default, and the whole `Configuration` record as
 * `Configuration::new` builds it. The fixed-width integer types of the source
 * are subset types of `int`, so every arithmetic result stored in one of them
 * is checked to stay in range.
 */
module Config {

  type U8 = x: int | 0 <= x < 0x100
  type U16 = x: int | 0 <= x < 0x1_0000
  type U32 = x: int | 0 <= x < 0x1_0000_0000
  type I8 = x: int | -0x80 <= x < 0x80

  /** `ipc::Direction`: the side of the split the new window takes. */
  datatype Direction = North | South | East | West

  /** How the next window is inserted: split direction and the first child's share in percent. */
  datatype Insert = Insert(dir: Direction, ratio: I8)

  /** `Insert::default()`. */
  function DefaultInsert(): Insert
  {
    Insert(East, 50)
  }

  /** `Insert::new(dir, ratio)`. */
  function NewInsert(dir: Direction, ratio: I8): Insert
  {
    Insert(dir, ratio)
  }

  datatype PointerFocus = PointerFocus(focusFollows: bool, pointerFollows: bool)
  datatype Desktops = Desktops(names: seq<string>, pinned: bool)
  datatype WindowSettings = WindowSettings(gaps: U8)
  datatype Border = Border(normal: U32, focused: U32, width: U16)
  datatype Padding = Padding(top: U16, bottom: U16, left: U16, right: U16)

  datatype Configuration = Configuration(
    insert: Insert,
    pf: PointerFocus,
    desktops: Desktops,
    window: WindowSettings,
    border: Border,
    padding: Padding)

  /** `Configuration::new()`. */
  function NewConfiguration(): Configuration
  {
    Configuration(
      DefaultInsert(),
      PointerFocus(false, false),
      Desktops([], false),
      WindowSettings(0),
      Border(0x0000_00ff, 0xffff_ffff, 1),
      Padding(0, 0, 0, 0))
  }

  /** The default insertion mode splits east at one half, and `Insert::new` builds it from those two values. */
  lemma DefaultInsertValue()
    ensures DefaultInsert().dir == East && DefaultInsert().ratio == 50
    ensures NewInsert(East, 50) == DefaultInsert()
  {
  }

  /**
   * `Insert::new` keeps both arguments, and two insertion modes are equal exactly
   * when their fields are (the derived `PartialEq` the toggle command compares with).
   */
  lemma NewInsertFieldwise(d1: Direction, r1: I8, d2: Direction, r2: I8)
    ensures NewInsert(d1, r1).dir == d1 && NewInsert(d1, r1).ratio == r1
    ensures NewInsert(d1, r1) == NewInsert(d2, r2) <==> d1 == d2 && r1 == r2
  {
  }

  /** A fresh configuration: default insertion, no pointer/focus following, no gaps, no padding, a one-pixel border. */
  lemma NewConfigurationDefaults()
    ensures NewConfiguration().insert == DefaultInsert()
    ensures !NewConfiguration().pf.focusFollows && !NewConfiguration().pf.pointerFollows
    ensures NewConfiguration().desktops.names == [] && !NewConfiguration().desktops.pinned
    ensures NewConfiguration().window.gaps == 0
    ensures NewConfiguration().padding == Padding(0, 0, 0, 0)
    ensures NewConfiguration().border.width == 1
    ensures NewConfiguration().border.normal == 0xff && NewConfiguration().border.focused == 0xffff_ffff
  {
  }
}
