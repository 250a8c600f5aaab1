# A11yNav: a verified model of the tree navigation engine

`A11yNav` (`src/a11y-nav.ts`) adds keyboard and mouse navigation to a
single-selection, collapsible tree list. The list is a `ul.root` whose items are
`li` elements, and a `parent-item` holds a nested `ul` group. The class keeps two
fields: `_focused` is the item holding the roving tab stop, and `_selected` is the
`data-id` of the chosen item. Events on the root change these fields and the
attributes the class writes on the tree: `tabindex`, `aria-selected`,
`aria-expanded`, and `hidden` and `aria-hidden` on child lists.

The project has six modules:

- `TreeModel` (`tree_model.dfy`) describes the static tree. Items are numbered
  consistently with document order: an item's owner has a lower number than the
  item, and every list holds its items in increasing number. So the first `li` of
  the root list is item 0. Each item has a parent, a child list, its `parent-item`
  and `aria-disabled` markers, and its `data-id`. `WellFormed` states these facts,
  that the ids are unique, and that the structure is a forest. A lookup by
  `data-id` takes the lowest-numbered match, which under unique ids is the only
  match. `IsValidListItem` is the source's `_isValidListItem`.
- `Traversal` (`traversal.dfy`) holds the read-only lookups, each with a contract
  saying what it finds:
  - the closest valid item on a composed path;
  - the first valid child;
  - the last descendant, reached through last valid children;
  - the nearest valid ancestor;
  - the sibling steps;
  - where the Down and Up actions land.
- `Engine` (`engine.dfy`) gives each method of the class as a pure transition over
  a `Widget`. A `Widget` holds the attributes the engine writes and its two fields.
- `Nav` (`nav.dfy`) is the class itself. The attributes are node-indexed arrays and
  the fields are `var`s. Each method, loops included, is proved to perform its
  `Engine` transition:
  - `ItemRightAction` performs `RightAction`, and likewise for the other `Item…`
    actions;
  - `ClickHandler` performs `Click`, `DblClickHandler` performs `DblClick`, and
    `KeydownHandler` performs `Keydown`;
  - the setters and group methods perform the transition of the same name.

  The read-only methods `FindClosestListItem` and `FindParentListItem` are proved
  equal to their `Traversal` functions.
- `Properties` (`properties.dfy`) proves what the engine promises:
  - the roving tab stop and the other invariants (`Consistent`) are kept by every
    event;
  - no key press and no click moves focus onto an invalid item. The root-focus
    handler is the exception: it focuses the first item whatever its state;
  - `toggleGroup` applied twice restores a group whose `aria-expanded` is "true"
    or "false" and whose list attributes agree with it;
  - Down tries its candidates in the code's order and stops at the first.
    Up lands on the last descendant of the previous sibling, or on the nearest
    valid ancestor. Each stays put exactly when it has nowhere to go;
  - Home and End behave as the code has them.
- `ExampleTree` (`examples_tree.dfy`) is the worked example `A(B, C(D)), E`. It has
  the traversals and a keyboard walk on that tree.

The source's quirks are modelled as the code has them:

- **The sibling loops look only at the immediate sibling.** `focusNextSibling` and
  `focusPreviousSibling` re-read `node.nextElementSibling` (and
  `previousElementSibling`) inside their loops. They never move on to the
  sibling after it, so when the immediate sibling is invalid the loop never ends.
  `Traversal.Move` names this outcome `Loops`. The methods that reach these loops
  require that it does not happen.
- **Home ends on the last valid top-level item, and End on the first.** The loops
  keep assigning `focused` without stopping.
- **`aria-expanded` has three values.** `toggleGroup` opens a group only when it is
  exactly "false". `_itemRightAction` opens whenever it is not "true". An item with
  no `aria-expanded` is therefore closed by one and opened by the other.
- **The two child-list lookups test different attributes.** `_focusFirstDescendant`
  tests the list's `aria-hidden`, while `_findLastDescendant` tests `hidden`. The
  invariant `ListsAgree` (both flags equal on every list) holds when the tree
  starts with them equal, and every event keeps it.
- **`_toggleSelected` tests the ids for truthiness.** An empty `data-id` is never
  marked or unmarked.
- **Validity ignores visibility.** `_isValidListItem` checks only that the element
  is an `li`, that its `aria-disabled` is not "true" and that it has a `data-id`.
  An item inside a collapsed group is still valid, so focus can stay on it.
- **`toggleGroup` does not check for a group.** It toggles any item whose
  `data-id` matches, `parent-item` or not.
- **The nearest ancestor is the nearest valid item.** `_findParentListItem` climbs
  `parentElement` to the first item that passes `_isValidListItem`, whether or not
  it is a `parent-item`.
- **Root focus skips the validity check.** `_focusHandler` focuses the first `li`
  whatever its state, so the focused item need not be valid.

## Model

| member | source | states |
|---|---|---|
| TreeModel.AncestorIsEarlier | src/a11y-nav.ts:409-419 | every item above `n` on the `parentElement` chain comes before `n` in document order, so the climb ends |
| TreeModel.AncestorsOrdered | src/a11y-nav.ts:409-419 | any two items above `n` are ordered: one lies above the other |
| TreeModel.IsValidListItem | src/a11y-nav.ts:94-96 | an item may take focus exactly when it is not `aria-disabled="true"` and carries a `data-id`; visibility plays no part |
| TreeModel.FirstRootIsLeast | src/a11y-nav.ts:63-65 | in a non-empty tree the first `li` of the root list is item 0, the lowest-numbered item |
| Traversal.ClosestListItem | src/a11y-nav.ts:70-86 | the result is a valid item and the first path entry the scan accepts before any empty slot; None means no entry reached by the scan is a valid item |
| Traversal.FirstListItem | src/a11y-nav.ts:63-65 | present exactly when the tree has an item, and then it is item 0, the first `li` in document order: a top-level item, taken with no check of its validity |
| Traversal.Lookup | src/a11y-nav.ts:210-214 | the found item carries `data-id` equal to the key; None exactly when no item does; with unique ids it is the only such item |
| Traversal.FirstValid | src/a11y-nav.ts:341-349 | the result is the first valid item of the list; None exactly when no item of the list is valid |
| Traversal.LastValid | src/a11y-nav.ts:450 | the result is the last valid item of the list; None exactly when no item of the list is valid |
| Traversal.FirstValidChild | src/a11y-nav.ts:336-349 | the result is a child of `n` and the FIRST valid item of its list, every child before it being invalid; None exactly when `n` has no list without `aria-hidden` holding a valid item |
| Traversal.LastDescendant | src/a11y-nav.ts:445-460 | the result is valid and is reached from `n` by stepping, each time, into the LAST valid child of a list without `hidden`, and it has no such list with a valid item of its own; None exactly when `n` itself has none |
| Traversal.LastChildChainExtend | src/a11y-nav.ts:454-458 | a chain of last valid children from `c` down to `d`, below one from `n` down to `c`, is a chain from `n` down to `d` |
| Traversal.ParentListItem | src/a11y-nav.ts:409-419 | the result is a valid item above `n` and every item between them is invalid; None means no item above `n` is valid |
| Traversal.NextSiblingStep | src/a11y-nav.ts:358-372 | a move goes to the immediate next sibling, which is valid; the step fails exactly when there is no next sibling, and otherwise an invalid sibling is the never-ending loop |
| Traversal.PreviousSiblingStep | src/a11y-nav.ts:380-401 | a move goes to a valid item; the step fails exactly when there is no previous sibling, and loops exactly when that sibling is invalid (where it lands: `Properties.UpMoveTarget`) |
| Traversal.ClimbNext | src/a11y-nav.ts:288-294 | a move from the ancestor loop of the Down action goes to a valid item (which one: `Properties.ClimbNextTarget`) |
| Traversal.DownMove | src/a11y-nav.ts:278-295 | a move of the Down action goes to a valid item (in which order: `Properties.DownMoveTarget`) |
| Traversal.UpMove | src/a11y-nav.ts:300-305 | a move of the Up action goes to a valid item (where: `Properties.UpMoveTarget`, `Properties.UpMoveFails`) |
| Engine.SetFocused | src/a11y-nav.ts:16-31 | the new value is stored and nothing but focus and tab stops changes; the same value changes nothing; otherwise the old item always loses its tab stop, the new item gains it, the root holds it exactly when nothing is focused, no other item changes, and the single tab stop is kept |
| Engine.FocusHandler | src/a11y-nav.ts:103-110 | with an empty tree nothing changes; otherwise the first top-level item is focused and the root loses its tab stop; only focus changes |
| Engine.Mark | src/a11y-nav.ts:123-130 | exactly the items carrying the looked-up `data-id` get the new mark and no other item changes |
| Engine.ToggleSelected | src/a11y-nav.ts:121-132 | an item whose id is the truthy `current` is marked, else one whose id is the truthy `old` is unmarked, and every other item and attribute keeps its state |
| Engine.SetSelected | src/a11y-nav.ts:42-49 | the value is stored; the same value changes nothing; otherwise the marks move from the old id to the new one, and "exactly the selected item is marked" is kept |
| Engine.OpenGroup | src/a11y-nav.ts:222-228 | only `n`'s group attributes change; `aria-expanded` becomes "true" and its list is shown by both attributes |
| Engine.CloseGroup | src/a11y-nav.ts:230-236 | only `n`'s group attributes change; `aria-expanded` becomes "false" and its list is hidden by both attributes |
| Engine.ToggleGroup | src/a11y-nav.ts:210-220 | an unknown key changes nothing; the found group opens exactly when `aria-expanded` is "false" and closes otherwise; agreement of the list flags is kept |
| Engine.FocusFirstDescendant | src/a11y-nav.ts:332-350 | with a valid child in a list without `aria-hidden`, the result is the `focused` setter applied to the first one, tab stops included; otherwise nothing changes |
| Engine.FocusNextSibling | src/a11y-nav.ts:358-372 | when the immediate next sibling is valid the result is the `focused` setter applied to it, tab stops included; with no next sibling nothing changes |
| Engine.FocusPreviousSibling | src/a11y-nav.ts:380-401 | with no previous sibling nothing changes; otherwise the result is the `focused` setter applied to the sibling's last visible descendant or to the sibling, tab stops included |
| Engine.FocusFirstParent | src/a11y-nav.ts:468-478 | with a valid ancestor the result is the `focused` setter applied to the nearest one, tab stops included; otherwise nothing changes |
| Engine.RightAction | src/a11y-nav.ts:243-254 | a leaf is untouched; a parent not "true" opens with focus kept; an open parent focuses its first valid child if any |
| Engine.LeftAction | src/a11y-nav.ts:261-273 | an open parent closes with focus kept; anything else focuses its nearest valid ancestor if any |
| Engine.DownAction | src/a11y-nav.ts:278-295 | the result is the `focused` setter applied to the Down target, tab stops included, or no change when there is none |
| Engine.UpAction | src/a11y-nav.ts:300-305 | the result is the `focused` setter applied to the Up target, tab stops included, or no change when there is none |
| Engine.FocusEach | src/a11y-nav.ts:309-313 | assigning `focused` to each valid item in turn changes only focus and tab stops |
| Engine.HomeAction | src/a11y-nav.ts:307-314 | only focus changes (where it lands: `Properties.HomeLandsOnLastTopLevelItem`) |
| Engine.EndAction | src/a11y-nav.ts:316-323 | only focus changes (where it lands: `Properties.EndLandsOnFirstTopLevelItem`) |
| Engine.EnterAction | src/a11y-nav.ts:197-204 | a `parent-item` is toggled first; then the item's `data-id` becomes the selection and the `aria-selected` marks move from the old selection to it (none move when it was already selected); nothing else changes, so focus, tab stops and every other list keep their state |
| Engine.Click | src/a11y-nav.ts:152-169 | a prevented click or one on no item changes nothing; otherwise a hit on the toggle icon of a `parent-item` toggles its group and any other hit focuses the clicked item; a click never selects, and focus moves only to the clicked item |
| Engine.DblClick | src/a11y-nav.ts:138-147 | a prevented double click or one on no item changes nothing; otherwise it performs the Enter action on the hit item: a `parent-item` is toggled, the item's id becomes the selection, and focus never moves |
| Engine.Keydown | src/a11y-nav.ts:174-189 | a key on no item, or an unmapped key, changes nothing; each of the seven mapped keys performs its action (Right, Left, Down, Up, Home, End, Enter) on the closest valid item |
| Nav.A11yNav.constructor | src/a11y-nav.ts:1-4 | the engine starts over the given tree with the given attributes |
| Nav.A11yNav.SetFocused | src/a11y-nav.ts:16-31 | performs `Engine.SetFocused` on the arrays and fields |
| Nav.A11yNav.SetSelected | src/a11y-nav.ts:42-49 | performs `Engine.SetSelected` |
| Nav.A11yNav.ToggleSelected | src/a11y-nav.ts:121-132 | performs `Engine.ToggleSelected`, changing only `aria-selected` |
| Nav.A11yNav.FindClosestListItem | src/a11y-nav.ts:70-86 | the loop returns `Traversal.ClosestListItem` of the path |
| Nav.A11yNav.FocusHandler | src/a11y-nav.ts:103-110 | performs `Engine.FocusHandler` |
| Nav.A11yNav.OpenGroup | src/a11y-nav.ts:222-228 | performs `Engine.OpenGroup` |
| Nav.A11yNav.CloseGroup | src/a11y-nav.ts:230-236 | performs `Engine.CloseGroup` |
| Nav.A11yNav.ToggleGroup | src/a11y-nav.ts:210-220 | performs `Engine.ToggleGroup` |
| Nav.A11yNav.FocusFirstDescendant | src/a11y-nav.ts:332-350 | the loop performs `Engine.FocusFirstDescendant` and returns whether a valid child of a list without `aria-hidden` exists |
| Nav.A11yNav.FocusNextSibling | src/a11y-nav.ts:358-372 | performs `Engine.FocusNextSibling` and returns whether focus moved |
| Nav.A11yNav.FocusPreviousSibling | src/a11y-nav.ts:380-401 | performs `Engine.FocusPreviousSibling` and returns whether focus moved |
| Nav.A11yNav.FindParentListItem | src/a11y-nav.ts:409-419 | the loop returns `Traversal.ParentListItem` |
| Nav.A11yNav.FocusFirstParent | src/a11y-nav.ts:468-478 | performs `Engine.FocusFirstParent` and returns whether a valid ancestor exists |
| Nav.A11yNav.ItemRightAction | src/a11y-nav.ts:243-254 | performs `Engine.RightAction` |
| Nav.A11yNav.ItemLeftAction | src/a11y-nav.ts:261-273 | performs `Engine.LeftAction` |
| Nav.A11yNav.ItemDownAction | src/a11y-nav.ts:278-295 | the ancestor loop performs `Engine.DownAction` |
| Nav.A11yNav.ItemUpAction | src/a11y-nav.ts:300-305 | performs `Engine.UpAction` |
| Nav.A11yNav.HomeAction | src/a11y-nav.ts:307-314 | the loop performs `Engine.HomeAction` |
| Nav.A11yNav.EndAction | src/a11y-nav.ts:316-323 | the loop performs `Engine.EndAction` |
| Nav.A11yNav.ItemEnterAction | src/a11y-nav.ts:197-204 | performs `Engine.EnterAction` |
| Nav.A11yNav.ClickHandler | src/a11y-nav.ts:152-169 | performs `Engine.Click` |
| Nav.A11yNav.DblClickHandler | src/a11y-nav.ts:138-147 | performs `Engine.DblClick` |
| Nav.A11yNav.KeydownHandler | src/a11y-nav.ts:174-189 | performs `Engine.Keydown` |
| Properties.SetFocusedTwice | src/a11y-nav.ts:16-31 | under the single tab stop, focusing `a` and then `b` leaves exactly the state of focusing `b` |
| Properties.FocusEachLandsOnLast | src/a11y-nav.ts:309-313 | the assignment loop ends as one move to the last valid item of the list, or changes nothing when none is valid |
| Properties.LastValidOfReversed | src/a11y-nav.ts:317 | the last valid item of the reversed list is the first valid item of the list |
| Properties.HomeLandsOnLastTopLevelItem | src/a11y-nav.ts:307-314 | Home focuses the LAST valid top-level item, and changes nothing when none is valid |
| Properties.EndLandsOnFirstTopLevelItem | src/a11y-nav.ts:316-323 | End focuses the FIRST valid top-level item, and changes nothing when none is valid |
| Properties.FocusHandlerIgnoresValidity | src/a11y-nav.ts:103-110 | root focus lands on the first top-level item whatever its validity, and the single tab stop is kept |
| Properties.ToggleGroupTwice | src/a11y-nav.ts:210-236 | toggling a group twice restores every attribute when its `aria-expanded` is "true" or "false" and its list attributes agree with it |
| Properties.AbsentExpandedAsymmetry | src/a11y-nav.ts:215-219 | with no `aria-expanded`, `toggleGroup` closes the group (a second toggle opens it), while the Right action opens it without moving focus |
| Properties.ClimbNextTarget | src/a11y-nav.ts:288-294 | the ancestor loop focuses the immediate next sibling of the NEAREST valid ancestor that has one: every valid item passed on the way has no next element sibling |
| Properties.ClimbNextFails | src/a11y-nav.ts:288-294 | the ancestor loop fails only when no valid ancestor from the start upwards has a next sibling |
| Properties.DownMoveTarget | src/a11y-nav.ts:278-295 | Down tries in order and stops at the first success: the first valid child of a shown list for a `parent-item`; else, when there is a next element sibling, the next-sibling step; else the next sibling of the nearest valid ancestor that has one |
| Properties.DownMoveFails | src/a11y-nav.ts:278-295 | Down stays only when there is no shown valid child, no next sibling, and no valid ancestor with a next sibling |
| Properties.UpMoveTarget | src/a11y-nav.ts:300-305 | Up goes to the valid previous sibling or to the item reached from it through last valid children of lists without `hidden`, as deep as that goes; without a previous sibling, to the nearest valid ancestor |
| Properties.UpMoveFails | src/a11y-nav.ts:300-305 | Up stays exactly when there is no previous sibling and no valid ancestor |
| Properties.FocusEachFocusesValid | src/a11y-nav.ts:309-313 | the assignment loop moves focus only to a valid item |
| Properties.ActionsFocusOnlyValidItems | src/a11y-nav.ts:197-323 | no arrow, Home, End or Enter action moves focus onto an invalid item |
| Properties.KeydownFocusesOnlyValidItems | src/a11y-nav.ts:174-189 | no key press moves focus onto an invalid item |
| Properties.MouseEventsFocusOnlyValidItems | src/a11y-nav.ts:138-169 | a click moves focus only to a valid item; a double click never moves it |
| Properties.SetFocusedKeepsConsistent | src/a11y-nav.ts:16-31 | the setter keeps the single tab stop and the other invariants |
| Properties.GroupChangeKeepsConsistent | src/a11y-nav.ts:222-236 | opening or closing one group keeps the invariants |
| Properties.ToggleGroupKeepsConsistent | src/a11y-nav.ts:210-220 | `toggleGroup` keeps the invariants |
| Properties.ArrowActionsKeepConsistent | src/a11y-nav.ts:243-305 | the four arrow actions keep the invariants |
| Properties.HomeEndKeepConsistent | src/a11y-nav.ts:307-323 | Home and End keep the invariants |
| Properties.EnterKeepsConsistent | src/a11y-nav.ts:197-204 | Enter keeps the invariants, including "exactly the selected item is marked" |
| Properties.KeydownKeepsConsistent | src/a11y-nav.ts:174-189 | every key press keeps the invariants |
| Properties.MouseEventsKeepConsistent | src/a11y-nav.ts:103-169 | click, double click and root focus keep the invariants |
| ExampleTree.ExampleTraversals | src/a11y-nav.ts:332-401 | on `A(B, C(D)), E`: the first child of A is B; C has no shown child; Up from E resolves to C, not D; the next sibling of A is E |
| ExampleTree.ExampleDownFromLeaf | src/a11y-nav.ts:278-295 | Down from the leaf B focuses its sibling C |
| ExampleTree.ExampleRightOpens | src/a11y-nav.ts:243-254 | Right on the closed C opens it and keeps focus |
| ExampleTree.ExampleRightEnters | src/a11y-nav.ts:243-254 | a second Right on C focuses D |
| ExampleTree.ExampleLeftReturns | src/a11y-nav.ts:261-273 | Left from D focuses C, which stays open |
| ExampleTree.ExampleEnterClosesAndSelects | src/a11y-nav.ts:197-204 | Enter on the open C closes it, selects "c" and keeps focus |

## Left out

- `initialize` and the bootstrap (`src/a11y-nav.ts:51-58`, `481-482`): they only find `.root` in the document and register the four listeners, which are the `Nav.A11yNav` handler methods.
- A missing root: every method reads `this.root!`, and the model always has one.
- DOM mechanics are abstracted:
  - an event's composed path is a sequence of `Traversal.Target`s;
  - `nodeType` and `localName` become the `Target` cases;
  - `.focus()` is the assignment to `focused`;
  - the browser moving focus physically is not modelled.
- The `selected` and `opened` CSS classes: they always change together with `aria-selected` and `aria-expanded`, which are modelled.
- Ids as selectors: `data-id` values are compared as strings. Quoting or characters that would break the `[data-id="…"]` selector are not modelled.
- Items with more than one `ul`, and lists holding elements other than `li`: each item has at most one child list of items.
- `_toggleSelected` searches the whole document, and `toggleGroup` searches the root. Elements outside the tree with the same `data-id` are not modelled, so both find the same item.
- A root that is itself nested in a valid `li`: the climb of `_findParentListItem` stops at the top-level items.
- The default parameters `node = this.focused` of `_focusFirstDescendant`, `focusNextSibling` and `focusPreviousSibling`: every caller in the class passes a node, so the model always takes one.
- Nav.A11yNav.FocusNextSibling: requires that the immediate next sibling is not an invalid item, because the source's loop never ends then.
- Nav.A11yNav.FocusPreviousSibling: requires the same of the immediate previous sibling.
- Nav.A11yNav.ItemDownAction: requires that no sibling loop it reaches runs forever; `Traversal.DownMove` names that case `Loops`.
- Nav.A11yNav.ItemUpAction: requires the same of `Traversal.UpMove`.
- Nav.A11yNav.KeydownHandler: requires the same for ArrowDown and ArrowUp (`Engine.KeydownHalts`).
- The `focused` and `selected` getters return the fields, which are the `focused` and `selected` fields of `Nav.A11yNav`.
- Concurrency: the engine runs one event at a time, to completion.
