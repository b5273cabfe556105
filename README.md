# yokai window-tree and desktop model

This project models the core of the yokai tiling window manager, a Rust program for X11. It also models the small generic tree of its predecessor, yaxiwm. Windows are reduced to their integer X ids.

- **Configuration** (`config.dfy`, module `Config`). The insertion mode `Insert`, meaning a split direction plus an i8 ratio. It comes with `Insert::default()` and `Insert::new`. The module also holds the `Configuration` record as `Configuration::new` builds it. Rust's fixed-width integers are subset types of `int`, so every stored value is checked to stay in range.
- **The tiling tree** (`tree.dfy`, module `Tree`). A full binary tree with one window per leaf and an `Insert` mode on each split. The leaf sequence `Collect` is the reference that every operation is specified against. The Rust code rewrites the tree in place through `&mut` references:
  - `find` returns a mutable reference to a leaf. Here that reference is a `Path` from the root.
  - `*node = …` is `ReplaceAt`, and `insert` and `remove` are functions on the tree value.
  - Every child is an owned `Box`, so nothing else can observe the tree between the two steps.
- **Geometry** (`partition.dfy`, module `Partition`).
  - `Area`, and its strict point test `Area::contains`.
  - The integer skeleton of `Node::partition`: each split divides its rectangle at a cut, and each leaf gets its cell shrunk by a padding.
  - The rectangle `Desktop::tile` lays out.
- **The generic tree** (`generic_tree.dfy`, module `GenericTree`). yaxiwm's `Node<T>` with `root`, `deepest`, `insert` and `remove`.
- **Commands** (`commands.dfy`, module `Commands`). The pure arithmetic inside `WindowManager::handle_config`:
  - the insertion-mode toggle;
  - the clamped ratio update;
  - the desktop index chosen by `DesktopCommand::Focus`.
- **Desktops and screens** (`wm.dfy`, module `Wm`).
  - `Desktop` is a class holding an optional tree and a floating list.
  - `Screen` is a class holding a sequence of desktops and the index of the current one.
  - Their methods update these fields in place. Each method is specified by a pure function on `DesktopView`, the value of a desktop's contents, or on the sequence of those views.
  - The properties of the operations are lemmas about those functions.
  - `Screen.Valid()` says that no two desktops are the same object.
  - Moving the focused window to another desktop (`NodeCommand::Desktop`) is the method `Screen.MoveWindow`, specified by `MoveViews`.
- `seqs.dfy` (module `Seqs`, with `IndexOf`, `RemoveAt` and their lemmas) and `wrappers.dfy` (`Option`, `Outcome`) are shared helpers. `Vec::position` and `Vec::remove` are modelled there.

Overflow in the source's u16 and i8 arithmetic panics in a debug build and wraps in a release build. Neither behaviour is modelled. Instead the model requires the inputs that keep every intermediate value in range:
- `Fits`: the right and bottom edges fit in u16;
- `PadFits`: the padding fits in the area;
- `RatioInRange`: the i8 ratio arithmetic does not overflow.

## Model

| member | source | states |
|---|---|---|
| Config.DefaultInsertValue | src/yokai/config/mod.rs:10-17 | The default insertion mode splits East with ratio 50; `Insert::new(East, 50)` builds the same value |
| Config.NewInsertFieldwise | src/yokai/config/mod.rs:4-26 | `Insert::new` stores both arguments unchanged; two modes are equal exactly when their direction and ratio are, which is what the toggle comparison relies on |
| Config.NewConfigurationDefaults | src/yokai/config/mod.rs:70-97 | A fresh configuration has: <br>• the default insertion mode <br>• both pointer-focus flags off <br>• no desktop names, unpinned <br>• gaps 0 <br>• all four paddings 0 <br>• a 1-pixel border with colours 0xff and 0xffffffff |
| Tree.Root | src/yokai/tree/mod.rs:27-29 | The root tree of a window has exactly that window as its leaf sequence |
| Tree.Collect | src/yokai/tree/mod.rs:31-38 | Every tree has at least one leaf; the sequence lists the left subtree before the right one |
| Tree.Contains | src/yokai/tree/mod.rs:40-45 | `contains(w)` holds exactly when `w` occurs in the leaf sequence |
| Tree.Traverse | src/yokai/tree/mod.rs:47-59 | The callback is applied to a prefix of the leaf sequence, left to right. Every call but the last passed. The result is the last call's result, and a passing traversal visited every leaf |
| Tree.SubtreeSlice | src/yokai/tree/mod.rs:109-119 | The leaves under the node a reference points to form the contiguous slice of the leaf sequence at that node's offset |
| Tree.CollectReplaceAt | src/yokai/tree/mod.rs:123-134 | Overwriting the node at a reference splices the new node's leaves in place of that node's leaves, and nothing else in the sequence changes |
| Tree.ReplaceAtFacts | src/yokai/tree/mod.rs:123-134 | After `*node = n` the reference points to `n`; writing back what was there is the identity; a second write overrides the first |
| Tree.ReplaceAt | src/yokai/tree/mod.rs:123 | The in-place write `*node = n`: afterwards the reference leads to `n` |
| Tree.Find | src/yokai/tree/mod.rs:109-119 | A found reference points to a leaf that matches the point: the given window, or any leaf for `Point::Any` |
| Tree.FindFirst | src/yokai/tree/mod.rs:109-119 | `find` fails exactly when no leaf matches; otherwise it finds the first matching leaf of the left-to-right sequence |
| Tree.FindWindow | src/yokai/tree/mod.rs:109-119 | For a window in the tree, `find` reaches the leaf holding it at the position of its first occurrence |
| Tree.FindAny | src/yokai/tree/mod.rs:109-119 | `Point::Any` always finds the leftmost leaf |
| Tree.Split | src/yokai/tree/mod.rs:123-134 | The new split stores the given `Insert`. Its leaves are the old leaf's followed by the new window for East/South, and the new window followed by the old leaf's for West/North |
| Tree.Insert | src/yokai/tree/mod.rs:121-136 | When `find` finds no leaf the tree is unchanged; otherwise the tree gains exactly one leaf |
| Tree.InsertAtLeaf | src/yokai/tree/mod.rs:121-136 | Splitting a leaf puts the new window directly after its window for East/South and directly before it for West/North |
| Tree.InsertAtWindow | src/yokai/tree/mod.rs:121-136 | Inserting next to a window of the tree places the new window directly after (East/South) or before (West/North) its first occurrence. The new split sits where that leaf was and stores the given `Insert` |
| Tree.InsertAtAny | src/yokai/tree/mod.rs:121-136 | Inserting at `Point::Any` splits the leftmost leaf |
| Tree.InsertAtAbsentWindow | src/yokai/tree/mod.rs:121-122 | Inserting next to a window that is not in the tree leaves the tree unchanged |
| Tree.InsertGrows | src/yokai/tree/mod.rs:121-136 | A successful insert adds exactly one leaf and keeps every old window: the new multiset is the old one plus the new window |
| Tree.SplitGrows | src/yokai/tree/mod.rs:123-134 | Replacing a leaf by its split adds one leaf and exactly the new window |
| Tree.InsertInternal | src/yokai/tree/mod.rs:115-136 | Inserting into a split changes the left child when it holds a match, otherwise the right child; the split's own mode is kept |
| Tree.Remove | src/yokai/tree/mod.rs:94-107 | `remove` reports true exactly when the tree is the single leaf holding the needle, and then leaves it as it was |
| Tree.RemoveAbsent | src/yokai/tree/mod.rs:94-107 | Removing an absent window returns false and leaves the tree unchanged |
| Tree.RemoveUnique | src/yokai/tree/mod.rs:94-107 | For a window that occurs once (in a tree that is not that leaf), the leaf sequence loses exactly that window at its position |
| Tree.RemovePromotesSibling | src/yokai/tree/mod.rs:97-102 | For a window that occurs once, the split above its leaf is overwritten by the leaf's sibling subtree |
| Tree.InsertThenRemove | src/yokai/tree/mod.rs:94-136 | Inserting a window not in the tree, at any point and in any mode, then removing it gives back the original tree exactly |
| GenericTree.Root | src/yaxiwm/tree/mod.rs:23-25 | `root(v)` is a single leaf holding `v` |
| GenericTree.Deepest | src/yaxiwm/tree/mod.rs:27-37 | `deepest(d)` returns depth `d` unchanged and a reference to a leaf; every turn on the way goes right, because ties resolve to the right |
| GenericTree.DeepestIsRightmost | src/yaxiwm/tree/mod.rs:27-37 | The leaf `deepest` reaches holds the last value of the leaf sequence |
| GenericTree.ReplaceAt | src/yaxiwm/tree/mod.rs:57 | The in-place write `*node = …`: afterwards the reference leads to the new node |
| GenericTree.AppendAtRightmost | src/yaxiwm/tree/mod.rs:57-60 | Splitting the leaf at the end of an all-right path puts the new value after every other leaf |
| GenericTree.InsertInternal | src/yaxiwm/tree/mod.rs:54-61 | Inserting into a split inserts into its right child and keeps the left |
| GenericTree.Insert | src/yaxiwm/tree/mod.rs:54-61 | `insert(v)` appends `v` to the leaf sequence, so the leaf count grows by one |
| GenericTree.Remove | src/yaxiwm/tree/mod.rs:39-52 | `remove` reports true exactly when the tree is the single leaf equal to the needle, and then leaves it unchanged |
| GenericTree.RemoveAbsent | src/yaxiwm/tree/mod.rs:39-52 | An absent needle leaves the tree unchanged |
| GenericTree.RemoveUnique | src/yaxiwm/tree/mod.rs:39-52 | A value occurring once disappears from its position of the leaf sequence, and the rest keeps its order |
| GenericTree.PathTo | src/yaxiwm/tree/mod.rs:39-47 | A path exists exactly when some leaf holds the needle. It leads to a leaf holding the needle, and its offset is the needle's first index in the leaf sequence, so it reaches the first occurrence in leaf order |
| GenericTree.RemovePromotesSibling | src/yaxiwm/tree/mod.rs:42-47 | For a value that occurs once, the split above its leaf is overwritten by the leaf's sibling subtree |
| GenericTree.InsertThenRemove | src/yaxiwm/tree/mod.rs:39-61 | Inserting a fresh value and then removing it restores the original tree |
| Partition.Contains | src/yokai/wm/mod.rs:36-38 | The point test holds exactly for the points of the rectangle that lie off its left and top edges: it is the strict interior |
| Partition.ContainsIsStrict | src/yokai/wm/mod.rs:36-38 | Points on any of the four edges `x`, `x + width`, `y`, `y + height` are not contained |
| Partition.SplitArea | src/yokai/tree/mod.rs:74-86 | The two children of a split fit in u16, lie inside the parent and do not overlap |
| Partition.SplitTiles | src/yokai/tree/mod.rs:74-86 | Each point of the parent lies in exactly one child and the children cover nothing else: together they tile the parent along the split axis |
| Partition.ExactCutWithin | src/yokai/tree/mod.rs:74-85 | The exact integer cut `extent * min(ratio, 100) / 100` (0 for a negative ratio) never exceeds the extent, so it is an admissible cut |
| Partition.ExactCutExamples | src/yokai/tree/mod.rs:74-85 | A ratio of 50 halves the extent; a ratio above 100 is capped at the whole extent; a negative one gives 0 |
| Partition.Inset | src/yokai/wm/mod.rs:119-124 | The working area of `tile` lies inside the desktop area, and its four margins are exactly the four padding values |
| Partition.LeafFrameAsWritten | src/yokai/tree/mod.rs:64-69 | The leaf frame as written has the inset's x, width and height (its y is the subject of the first finding) |
| Partition.LeafFrameAsWrittenEscapes | src/yokai/tree/mod.rs:64-69 | With any top padding the leaf frame as written leaves its cell; it equals the inset exactly when the top padding is 0 |
| Partition.LeafFrameAsWrittenExample | src/yokai/tree/mod.rs:66 | A 100-high cell at y = 50 with top padding 10 gets its frame at y = 40 as written, against 60 for the inset |
| Partition.CellsFitZero | src/yokai/tree/mod.rs:61-92 | Without padding, every leaf cell of every tree admits its frame |
| Partition.Partition | src/yokai/tree/mod.rs:61-92 | `partition` places every leaf once, in leaf order, each frame inside the area and within u16 |
| Partition.PartitionDisjoint | src/yokai/tree/mod.rs:61-92 | The frames of different leaves never overlap |
| Partition.PartitionCovers | src/yokai/tree/mod.rs:61-92 | Without padding every point of the area lies in some leaf's frame |
| Commands.InsertCommand | src/yokai/wm/mod.rs:472-477 | The new mode is the default when the requested mode equals the current one and toggle is set, and otherwise the requested mode (the given direction, with the given ratio or else the current one) |
| Commands.InsertCommandIdempotent | src/yokai/wm/mod.rs:472-477 | Without toggle, issuing the command twice is the same as once |
| Commands.InsertCommandToggleTwice | src/yokai/wm/mod.rs:472-477 | Toggling a non-default mode falls back to the default, and toggling it again restores the mode |
| Commands.RawRatio | src/yokai/wm/mod.rs:538-541 | `Add` and `Set` give the sum and the value; `Sub` takes away at most the current ratio, so it is a subtraction that stops at 0 |
| Commands.RatioChange | src/yokai/wm/mod.rs:538-542 | The new ratio is always in [10, 90]: the raw value when it is inside, 10 below and 90 above |
| Commands.SubAtMostRatio | src/yokai/wm/mod.rs:540 | `Sub` never takes away more than the current ratio: the raw result is never negative and, for non-negative values, at most the old ratio |
| Commands.RatioSetExact | src/yokai/wm/mod.rs:541-542 | Setting a ratio inside [10, 90] yields exactly that ratio |
| Commands.PinnedCurrent | src/yokai/wm/mod.rs:606-613 | With pinned desktops the new index is at most the desktop count; it is in range exactly when the request is; and a request up to the count is taken as is |
| Commands.UnpinnedCurrentAsWritten | src/yokai/wm/mod.rs:615-625 | As written, a screen changes its desktop exactly when the number exceeds `len * index`, to `min(desktop - len * index, len)`, an index in [1, len] |
| Commands.UnpinnedAsWrittenMissesFirst | src/yokai/wm/mod.rs:615-625 | As written, global desktop 0 is never selected. Asking for the first desktop of the second screen moves the first screen out of range to index `len` and leaves the second screen alone |
| Commands.UnpinnedAsWrittenAgrees | src/yokai/wm/mod.rs:615-625 | For every input, the selection as written agrees with the intended one exactly when the desktop lies below the screen's range or strictly inside it (or, on a screen without desktops, is 0) |
| Commands.UnpinnedCurrent | src/yokai/wm/mod.rs:615-625 | A selected local index is in range and maps back to the requested global number, inverting `current + len * index` reported at line 619 |
| Commands.UnpinnedCurrentOwner | src/yokai/wm/mod.rs:615-625 | Every global desktop number is taken by exactly the screen `desktop / len`, as its local desktop `desktop % len` |
| Wm.InsertTiledView | src/yokai/wm/mod.rs:63-68 | A tiled insert keeps the floating list. An empty desktop then holds the root tree of the window; otherwise the tree is the tree insert of the window |
| Wm.InsertView | src/yokai/wm/mod.rs:70-76 | `Float` appends to the floating list, `Tiled` goes to the tree, and `Dock` changes nothing |
| Wm.RemoveView | src/yokai/wm/mod.rs:78-92 | The result is `Float` exactly when the window was floating, and only its first floating occurrence is removed; otherwise `Tiled`, never `Dock`. The tree becomes empty exactly when it was that single leaf, and is otherwise the tree's own `remove` |
| Wm.RemoveViewTiled | src/yokai/wm/mod.rs:81-83 | Removing a window the tree holds once drops exactly its position from the tiled windows; the others keep their order |
| Wm.RemoveViewKeeps | src/yokai/wm/mod.rs:78-92 | Removing a window the desktop holds exactly once takes that window away and keeps every other window |
| Wm.RemoveViewAbsent | src/yokai/wm/mod.rs:78-83 | Removing a window the tree does not hold leaves the tree unchanged |
| Wm.RemoveViewClears | src/yokai/wm/mod.rs:78-92 | Removing a window the desktop holds at most once leaves the desktop without it |
| Wm.InsertViewHolds | src/yokai/wm/mod.rs:63-76 | A floating or tiled insert (next to a window of the tree) makes the desktop hold the window. It adds exactly that window to the desktop's windows, and a tiled one adds it to the tree exactly once |
| Wm.InsertViewAbsentPoint | src/yokai/wm/mod.rs:63-76 | A tiled insert next to a window the tree does not hold changes nothing |
| Wm.InsertThenRemoveView | src/yokai/wm/mod.rs:63-92 | Inserting a window the desktop does not hold and removing it restores the desktop. The removal reports `Float` for a floating window and `Tiled` otherwise |
| Wm.Desktop.constructor | src/yokai/wm/mod.rs:48-54 | A new desktop holds no tree and no floating window, over the given area |
| Wm.Desktop.Contains | src/yokai/wm/mod.rs:56-61 | The desktop contains a window exactly when its tree or its floating list does |
| Wm.Desktop.InsertTiled | src/yokai/wm/mod.rs:63-68 | The new contents are `InsertTiledView` of the old |
| Wm.Desktop.Insert | src/yokai/wm/mod.rs:70-76 | The new contents are `InsertView` of the old |
| Wm.Desktop.Remove | src/yokai/wm/mod.rs:78-92 | The new contents and the reported state are `RemoveView` of the old contents |
| Wm.Desktop.Tile | src/yokai/wm/mod.rs:117-127 | The tree's windows are placed once each, in leaf order, all inside the desktop area shrunk by the padding. A desktop without a tree places nothing, and its padding need not fit its area, since the padded area is computed only when a tree exists |
| Wm.ViewsOf | src/yokai/wm/mod.rs:140 | The contents of a desktop list, one view per desktop in order |
| Wm.AnyContains | src/yokai/wm/mod.rs:155 | The `any` holds exactly when some desktop of the list holds the window |
| Wm.Excess | src/yokai/wm/mod.rs:164-167 | A window is among the drained windows exactly when some drained desktop's tree holds it |
| Wm.InsertAllTiled | src/yokai/wm/mod.rs:169-171 | Re-inserting drained windows tiled adds each of them to the tree once and leaves the floating list alone |
| Wm.Desktop.InsertAll | src/yokai/wm/mod.rs:169-171 | The loop leaves the last kept desktop as `InsertAllTiled` of its old contents |
| Wm.NoTreesNoExcess | src/yokai/wm/mod.rs:164-167 | Desktops without trees contribute no drained window |
| Wm.MoveViews | src/yokai/wm/mod.rs:512-518 | Moving a window between two desktops of a list leaves every other desktop unchanged |
| Wm.MoveViewsMoves | src/yokai/wm/mod.rs:512-518 | After the move the target desktop holds the window and has gained exactly it. The source desktop no longer holds it when it held it at most once, and keeps every other window when it held it exactly once |
| Wm.Screen.constructor | src/yokai/wm/mod.rs:146-152 | A new screen has no desktops and the first index current |
| Wm.Screen.Contains | src/yokai/wm/mod.rs:154-156 | The screen contains a window exactly when one of its desktops does |
| Wm.Screen.Resize | src/yokai/wm/mod.rs:158-173 | Afterwards there are exactly `size` desktops. Growing keeps the old desktops and their contents and appends fresh empty desktops over the screen area. Shrinking keeps the first `size` desktops; desktop `size - 1` gets every tiled window of the dropped desktops re-inserted in order, and their floating windows are lost |
| Wm.Screen.Insert | src/yokai/wm/mod.rs:175-179 | Only the current desktop changes, by `InsertView`; nothing changes when `current` is out of range |
| Wm.Screen.Remove | src/yokai/wm/mod.rs:181-183 | Only the current desktop changes, by `RemoveView`, and its state is returned |
| Wm.Screen.FocusPinned | src/yokai/wm/mod.rs:606-613 | `current` becomes `min(desktop, len)` and the desktops stay |
| Wm.Screen.FocusUnpinned | src/yokai/wm/mod.rs:615-625 | With the selection corrected as in the second finding: the screen takes the requested global desktop exactly when that desktop lies in its range, as the corresponding local index; otherwise `current` is unchanged |
| Wm.Screen.MoveWindow | src/yokai/wm/mod.rs:504-518 | The window moves exactly when the target is another existing desktop, and the desktops then change as `MoveViews` says; otherwise nothing changes |
| Seqs.IndexOf | src/yokai/wm/mod.rs:85-86 | `Vec::position` of a window that is in the list: a position that holds it, with no earlier occurrence |
| Seqs.RemoveAt | src/yokai/wm/mod.rs:89 | `Vec::remove(index)`: one element fewer, the elements before the index unchanged and those after it shifted down by one |

## Left out

- X11 and EWMH requests are foreign library calls, so they are not modelled. This covers `mov_resize` and `map` in `partition`, `hide`, the mapping and raising half of `Desktop::tile`, `Screen::tile`, and `set_current_desktop`. The event queue, the socket server, startup and the `WindowManager` driver are also out.
- Partition.Partition: the cut comes from an f64 product in the source. Here it is a parameter `cut` that is only required to stay within the extent. `ExactCut` is the exact integer version.
- Partition.Partition: it uses the inset as the leaf frame, not the frame as written; see the first finding.
- Partition.Contains, Partition.Inset, Partition.LeafFrameAsWritten, Partition.SplitArea: these require that the u16 additions and subtractions do not overflow. On overflow the source panics in a debug build and wraps in a release build; neither is modelled.
- Commands.RatioChange: it requires that the i8 arithmetic does not overflow. The source does not ensure this for `Add` (ratio 50 plus 100), nor for `Sub` with a negative value (ratio 50 minus -100 gives 150). On overflow it panics in a debug build and wraps in a release build; neither is modelled.
- `map_internal` and `reverse` are called by the `Ratio` and `Reverse` commands but are not defined in the tree module. Only the ratio arithmetic of `Ratio` is modelled, as `RatioChange`. Which split the new ratio reaches is not modelled, and neither is `Reverse`.
- Wm.Desktop.Tile: the source passes the u8 `gaps` where `partition` takes a `Padding`, and it reads `config.gaps` where the configuration keeps `window.gaps`. The model instead takes the leaf padding as its own parameter, `leafPad`.
- These `handle_config` arms are not modelled: `NodeCommand::State` (needs `State::toggle`, which is not defined in the source), `Move`, `Kill`, `Close`, and the configuration commands. The model also leaves out the `focused`/`all` closures that pick screens and the clearing of `focus` after a move.
- Wm.Screen.FocusUnpinned: it uses the corrected selection `Commands.UnpinnedCurrent`, not the test and value as written at src/yokai/wm/mod.rs:616-617. The code as written is `Commands.UnpinnedCurrentAsWritten`; see the second finding.
- Wm.Screen.MoveWindow: it models the arm on one focused screen. It requires the current desktop to exist when a move happens, because `Screen::remove` indexes it directly and would panic otherwise.
- Wm.Screen.Remove: it requires `current` to be in range, because the source indexes it directly and would panic otherwise.
- Wm.Screen.Resize: shrinking to zero desktops requires that none of the dropped desktops has a tree. Otherwise `size - 1` underflows, and the source panics: on the subtraction in a debug build, on the out-of-range index in a release build.
- The tree operations are functions on tree values rather than in-place rewrites. Since every child is an owned `Box`, no aliasing is lost.
- src/yaxiwm/wm/mod.rs, src/yaxiwm/config/mod.rs and src/ipc/lib.rs are not part of this model. The first is a prototype that does not build against the generic tree. The other two only duplicate or declare types.

## Findings

| source | as written | input that shows it | evidently intended | confidence | as-written member | corrected member |
|---|---|---|---|---|---|---|
| src/yokai/tree/mod.rs:66 | A leaf's frame starts at `area.y - padding.top` | A cell `Area(0, 50, 100, 100)` with top padding 10: the frame starts at y = 40, above its cell (and `top > y` underflows u16) | `area.y + padding.top`, as `Desktop::tile` computes it at src/yokai/wm/mod.rs:121, so the frame stays inside its cell | not executed | Partition.LeafFrameAsWritten, Partition.LeafFrameAsWrittenEscapes, Partition.LeafFrameAsWrittenExample | Partition.Inset, Partition.Partition, Partition.PartitionDisjoint |
| src/yokai/wm/mod.rs:616-617 | An unpinned screen takes global desktop `desktop` only when `desktop > len * index`, as local `(desktop - len * index).min(len)` | With `len` desktops per screen: desktop 0 is never selected; desktop `len` sets screen 0 to the out-of-range index `len` and leaves screen 1 alone; desktop 5 with three desktops per screen sets screen 0 to index 3 | `len * index <= desktop < len * index + len`, selecting local `desktop - len * index`, the inverse of the number reported at line 619 | not executed | Commands.UnpinnedCurrentAsWritten, Commands.UnpinnedAsWrittenMissesFirst, Commands.UnpinnedAsWrittenAgrees | Commands.UnpinnedCurrent, Commands.UnpinnedCurrentOwner, Wm.Screen.FocusUnpinned |
