/**
 * The navigation engine as transitions over a value: the attributes the
 * engine writes on the tree's elements together with its own `_focused`
 * and `_selected` fields. Each transition specifies one `A11yNav` method:
 * the setters and group methods are named as the method is, `RightAction`
 * specifies `_itemRightAction` (and likewise for the other actions), and
 * `Click`, `DblClick` and `Keydown` specify the event handlers. `Mark`,
 * `Truthy`, `FocusEach` and `Reversed` are helpers of these transitions.
 */
module Engine {
  import opened Wrappers
  import opened TreeModel
  import opened Traversal

  /** `aria-expanded`: "true", "false", or absent (any other value reads the same). */
  datatype AriaExpanded = ExpandedTrue | ExpandedFalse | ExpandedAbsent

  datatype Widget = Widget(
    expanded: seq<AriaExpanded>,  // `aria-expanded` of each item
    listHidden: seq<bool>,        // the item's child list has `hidden`
    listAriaHidden: seq<bool>,    // the item's child list has `aria-hidden` other than "false"
    tabStop: seq<bool>,           // the item has `tabindex="0"`
    ariaSelected: seq<bool>,      // the item has `aria-selected="true"`
    rootTabStop: bool,            // the root list has `tabindex="0"`
    focused: Option<nat>,         // `_focused`
    selected: Option<string>)     // `_selected`, a `data-id` value

  /** An input event: its composed path, its target's class and its key. */
  datatype Event = Event(
    path: seq<Target>,
    targetIsToggleIcon: bool,     // `e.target` has the class `group-toggle-icon`
    defaultPrevented: bool,
    key: string)

  ghost predicate Fits(f: Forest, w: Widget) {
    && WellFormed(f)
    && |w.expanded| == f.Size() && |w.listHidden| == f.Size() && |w.listAriaHidden| == f.Size()
    && |w.tabStop| == f.Size() && |w.ariaSelected| == f.Size()
    && (w.focused.Some? ==> w.focused.value < f.Size())
  }

  /** Roving tab stop: the focused item, or the root when nothing is focused, and nothing else. */
  ghost predicate OneTabStop(f: Forest, w: Widget)
    requires Fits(f, w)
  {
    match w.focused
    case None => w.rootTabStop && forall n :: 0 <= n < f.Size() ==> !w.tabStop[n]
    case Some(v) => !w.rootTabStop && forall n :: 0 <= n < f.Size() ==> (w.tabStop[n] <==> n == v)
  }

  /** `hidden` and `aria-hidden` agree on every child list. */
  ghost predicate ListsAgree(f: Forest, w: Widget)
    requires Fits(f, w)
  {
    forall n :: 0 <= n < f.Size() && f.hasList[n] ==> w.listHidden[n] == w.listAriaHidden[n]
  }

  /** A JavaScript truthiness test on an optional `data-id`. */
  predicate Truthy(s: Option<string>) {
    s.Some? && s.value != ""
  }

  /** Exactly the item whose `data-id` is the (truthy) selected id carries `aria-selected`. */
  ghost predicate SelectionMarked(f: Forest, w: Widget)
    requires Fits(f, w)
  {
    forall n :: 0 <= n < f.Size() ==>
      (w.ariaSelected[n] <==> Truthy(w.selected) && f.hasDataId[n] && f.id[n] == w.selected.value)
  }

  ghost predicate Consistent(f: Forest, w: Widget) {
    Fits(f, w) && OneTabStop(f, w) && ListsAgree(f, w) && SelectionMarked(f, w)
  }

  /** The child list of `n` is absent or shown by both attributes. */
  ghost predicate ListShown(f: Forest, w: Widget, n: nat)
    requires Fits(f, w) && n < f.Size()
  {
    f.hasList[n] ==> !w.listHidden[n] && !w.listAriaHidden[n]
  }

  /** The child list of `n` is absent or hidden by both attributes. */
  ghost predicate ListCollapsed(f: Forest, w: Widget, n: nat)
    requires Fits(f, w) && n < f.Size()
  {
    f.hasList[n] ==> w.listHidden[n] && w.listAriaHidden[n]
  }

  /** `r` differs from `w` in the group attributes of item `n` at most. */
  ghost predicate OnlyGroupChanged(f: Forest, w: Widget, r: Widget, n: nat)
    requires Fits(f, w) && Fits(f, r) && n < f.Size()
  {
    r == w.(expanded := w.expanded[n := r.expanded[n]],
            listHidden := w.listHidden[n := r.listHidden[n]],
            listAriaHidden := w.listAriaHidden[n := r.listAriaHidden[n]])
  }

  /** `r` differs from `w` in focus and tab stops at most. */
  ghost predicate OnlyFocusChanged(w: Widget, r: Widget) {
    r == w.(focused := r.focused, tabStop := r.tabStop, rootTabStop := r.rootTabStop)
  }

  // ---------------------------------------------------------------- focus

  /** The `focused` setter. */
  function SetFocused(f: Forest, w: Widget, v: Option<nat>): (r: Widget)
    requires Fits(f, w) && (v.Some? ==> v.value < f.Size())
    ensures Fits(f, r) && r.focused == v && OnlyFocusChanged(w, r)
    ensures v == w.focused ==> r == w
    ensures v != w.focused ==>
      && (v.Some? ==> r.tabStop[v.value] && !r.rootTabStop)
      && (v.None? ==> r.rootTabStop)
      && (w.focused.Some? ==> !r.tabStop[w.focused.value])
      && (forall n :: 0 <= n < f.Size() && Some(n) != v && Some(n) != w.focused ==>
            r.tabStop[n] == w.tabStop[n])
    ensures OneTabStop(f, w) ==> OneTabStop(f, r)
  {
    if w.focused == v then w
    else
      var cleared := if w.focused.Some? then w.tabStop[w.focused.value := false] else w.tabStop;
      match v
      case Some(n) => w.(focused := v, rootTabStop := false, tabStop := cleared[n := true])
      case None => w.(focused := v, rootTabStop := true, tabStop := cleared)
  }

  /** `_focusHandler`: the root took focus; hand it to the first item, valid or not. */
  function FocusHandler(f: Forest, w: Widget): (r: Widget)
    requires Fits(f, w)
    ensures Fits(f, r) && OnlyFocusChanged(w, r)
    ensures |f.roots| == 0 ==> r == w
    ensures |f.roots| > 0 ==> r.focused == Some(f.roots[0]) && !r.rootTabStop
  {
    match FirstListItem(f)
    case None => w
    case Some(li) => SetFocused(f, w.(rootTabStop := false), Some(li))
  }

  // ------------------------------------------------------------ selection

  /** Set or clear `aria-selected` on the item found by `key`, if any. */
  function Mark(f: Forest, marks: seq<bool>, key: string, on: bool): (r: seq<bool>)
    requires WellFormed(f) && |marks| == f.Size()
    ensures |r| == f.Size()
    ensures forall n :: 0 <= n < f.Size() ==>
      r[n] == if f.hasDataId[n] && f.id[n] == key then on else marks[n]
  {
    match Lookup(f, key)
    case None => marks
    case Some(n) => marks[n := on]
  }

  /** `_toggleSelected(current, old)`: unmark the previous item, then mark the new one. */
  function ToggleSelected(f: Forest, w: Widget, current: Option<string>, previous: Option<string>): (r: Widget)
    requires Fits(f, w)
    ensures Fits(f, r) && r == w.(ariaSelected := r.ariaSelected)
    ensures forall n :: 0 <= n < f.Size() ==>
      r.ariaSelected[n] ==
        if Truthy(current) && f.hasDataId[n] && f.id[n] == current.value then true
        else if Truthy(previous) && f.hasDataId[n] && f.id[n] == previous.value then false
        else w.ariaSelected[n]
  {
    var cleared := if Truthy(previous) then Mark(f, w.ariaSelected, previous.value, false) else w.ariaSelected;
    var marked := if Truthy(current) then Mark(f, cleared, current.value, true) else cleared;
    w.(ariaSelected := marked)
  }

  /** The `selected` setter. */
  function SetSelected(f: Forest, w: Widget, v: Option<string>): (r: Widget)
    requires Fits(f, w)
    ensures Fits(f, r) && r.selected == v
    ensures r == w.(selected := v, ariaSelected := r.ariaSelected)
    ensures v == w.selected ==> r == w
    ensures v != w.selected ==>
      forall n :: 0 <= n < f.Size() ==>
        r.ariaSelected[n] ==
          if Truthy(v) && f.hasDataId[n] && f.id[n] == v.value then true
          else if Truthy(w.selected) && f.hasDataId[n] && f.id[n] == w.selected.value then false
          else w.ariaSelected[n]
    ensures SelectionMarked(f, w) ==> SelectionMarked(f, r)
  {
    if w.selected == v then w
    else ToggleSelected(f, w.(selected := v), v, w.selected)
  }

  // --------------------------------------------------------------- groups

  /** `_openGroup`. */
  function OpenGroup(f: Forest, w: Widget, n: nat): (r: Widget)
    requires Fits(f, w) && n < f.Size()
    ensures Fits(f, r) && OnlyGroupChanged(f, w, r, n)
    ensures r.expanded[n] == ExpandedTrue && ListShown(f, r, n)
    ensures !f.hasList[n] ==> r.listHidden == w.listHidden && r.listAriaHidden == w.listAriaHidden
  {
    var expandedNow := w.(expanded := w.expanded[n := ExpandedTrue]);
    if f.hasList[n] then
      expandedNow.(listHidden := w.listHidden[n := false], listAriaHidden := w.listAriaHidden[n := false])
    else expandedNow
  }

  /** `_closeGroup`. */
  function CloseGroup(f: Forest, w: Widget, n: nat): (r: Widget)
    requires Fits(f, w) && n < f.Size()
    ensures Fits(f, r) && OnlyGroupChanged(f, w, r, n)
    ensures r.expanded[n] == ExpandedFalse && ListCollapsed(f, r, n)
    ensures !f.hasList[n] ==> r.listHidden == w.listHidden && r.listAriaHidden == w.listAriaHidden
  {
    var closed := w.(expanded := w.expanded[n := ExpandedFalse]);
    if f.hasList[n] then
      closed.(listHidden := w.listHidden[n := true], listAriaHidden := w.listAriaHidden[n := true])
    else closed
  }

  /**
   * `toggleGroup(key)`: opens the item found by `key` when its
   * `aria-expanded` is exactly "false" and closes it otherwise.
   */
  function ToggleGroup(f: Forest, w: Widget, key: string): (r: Widget)
    requires Fits(f, w)
    ensures Fits(f, r)
    ensures Lookup(f, key).None? ==> r == w
    ensures Lookup(f, key).Some? ==>
      var n := Lookup(f, key).value;
      && OnlyGroupChanged(f, w, r, n)
      && (w.expanded[n] == ExpandedFalse ==> r.expanded[n] == ExpandedTrue && ListShown(f, r, n))
      && (w.expanded[n] != ExpandedFalse ==> r.expanded[n] == ExpandedFalse && ListCollapsed(f, r, n))
    ensures ListsAgree(f, w) ==> ListsAgree(f, r)
  {
    match Lookup(f, key)
    case None => w
    case Some(n) => if w.expanded[n] == ExpandedFalse then OpenGroup(f, w, n) else CloseGroup(f, w, n)
  }

  // ------------------------------------------------------- focus helpers

  /** `_focusFirstDescendant(n)`. */
  function FocusFirstDescendant(f: Forest, w: Widget, n: nat): (r: Widget)
    requires Fits(f, w) && n < f.Size()
    ensures Fits(f, r) && OnlyFocusChanged(w, r)
    ensures r.focused ==
      if FirstValidChild(f, w.listAriaHidden, n).Some? then FirstValidChild(f, w.listAriaHidden, n)
      else w.focused
    ensures FirstValidChild(f, w.listAriaHidden, n).None? ==> r == w
    ensures FirstValidChild(f, w.listAriaHidden, n).Some? ==>
      r == SetFocused(f, w, FirstValidChild(f, w.listAriaHidden, n))
  {
    match FirstValidChild(f, w.listAriaHidden, n)
    case Some(c) => SetFocused(f, w, Some(c))
    case None => w
  }

  /** `focusNextSibling(n)`, where the sibling loop ends. */
  function FocusNextSibling(f: Forest, w: Widget, n: nat): (r: Widget)
    requires Fits(f, w) && n < f.Size() && !NextSiblingStep(f, n).Loops?
    ensures Fits(f, r) && OnlyFocusChanged(w, r)
    ensures r.focused == if NextSiblingStep(f, n).To? then NextElementSibling(f, n) else w.focused
    ensures NextSiblingStep(f, n).Nowhere? ==> r == w
    ensures NextSiblingStep(f, n).To? ==> r == SetFocused(f, w, NextElementSibling(f, n))
  {
    match NextSiblingStep(f, n)
    case To(s) => SetFocused(f, w, Some(s))
    case _ => w
  }

  /** `focusPreviousSibling(n)`, where the sibling loop ends. */
  function FocusPreviousSibling(f: Forest, w: Widget, n: nat): (r: Widget)
    requires Fits(f, w) && n < f.Size() && !PreviousSiblingStep(f, w.listHidden, n).Loops?
    ensures Fits(f, r) && OnlyFocusChanged(w, r)
    ensures PreviousElementSibling(f, n).None? ==> r == w
    ensures PreviousElementSibling(f, n).Some? ==>
      var s := PreviousElementSibling(f, n).value;
      r.focused == if LastDescendant(f, w.listHidden, s).Some? then LastDescendant(f, w.listHidden, s) else Some(s)
    ensures PreviousSiblingStep(f, w.listHidden, n).To? ==>
      r == SetFocused(f, w, Some(PreviousSiblingStep(f, w.listHidden, n).node))
  {
    match PreviousSiblingStep(f, w.listHidden, n)
    case To(s) => SetFocused(f, w, Some(s))
    case _ => w
  }

  /** `_focusFirstParent(n)`. */
  function FocusFirstParent(f: Forest, w: Widget, n: nat): (r: Widget)
    requires Fits(f, w) && n < f.Size()
    ensures Fits(f, r) && OnlyFocusChanged(w, r)
    ensures r.focused == if ParentListItem(f, n).Some? then ParentListItem(f, n) else w.focused
    ensures ParentListItem(f, n).None? ==> r == w
    ensures ParentListItem(f, n).Some? ==> r == SetFocused(f, w, ParentListItem(f, n))
  {
    match ParentListItem(f, n)
    case Some(p) => SetFocused(f, w, Some(p))
    case None => w
  }

  // -------------------------------------------------------------- actions

  /** `_itemRightAction(n)`. */
  function RightAction(f: Forest, w: Widget, n: nat): (r: Widget)
    requires Fits(f, w) && n < f.Size()
    ensures Fits(f, r)
    ensures !f.isParent[n] ==> r == w
    ensures f.isParent[n] && w.expanded[n] != ExpandedTrue ==>
      r.focused == w.focused && OnlyGroupChanged(f, w, r, n)
      && r.expanded[n] == ExpandedTrue && ListShown(f, r, n)
    ensures f.isParent[n] && w.expanded[n] == ExpandedTrue ==>
      match FirstValidChild(f, w.listAriaHidden, n)
      case Some(c) => r == SetFocused(f, w, Some(c))
      case None => r == w
  {
    if !f.isParent[n] then w
    else if w.expanded[n] != ExpandedTrue then OpenGroup(f, w, n)
    else FocusFirstDescendant(f, w, n)
  }

  /** `_itemLeftAction(n)`. */
  function LeftAction(f: Forest, w: Widget, n: nat): (r: Widget)
    requires Fits(f, w) && n < f.Size()
    ensures Fits(f, r)
    ensures f.isParent[n] && w.expanded[n] == ExpandedTrue ==>
      r.focused == w.focused && OnlyGroupChanged(f, w, r, n)
      && r.expanded[n] == ExpandedFalse && ListCollapsed(f, r, n)
    ensures !(f.isParent[n] && w.expanded[n] == ExpandedTrue) ==>
      match ParentListItem(f, n)
      case Some(p) => r == SetFocused(f, w, Some(p))
      case None => r == w
  {
    if f.isParent[n] && w.expanded[n] == ExpandedTrue then CloseGroup(f, w, n)
    else FocusFirstParent(f, w, n)
  }

  /** `_itemDownAction(n)`, where it ends. */
  function DownAction(f: Forest, w: Widget, n: nat): (r: Widget)
    requires Fits(f, w) && n < f.Size() && !DownMove(f, w.listAriaHidden, n).Loops?
    ensures Fits(f, r) && OnlyFocusChanged(w, r)
    ensures DownMove(f, w.listAriaHidden, n).Nowhere? ==> r == w
    ensures DownMove(f, w.listAriaHidden, n).To? ==> r.focused == Some(DownMove(f, w.listAriaHidden, n).node)
    ensures DownMove(f, w.listAriaHidden, n).To? ==>
      r == SetFocused(f, w, Some(DownMove(f, w.listAriaHidden, n).node))
  {
    match DownMove(f, w.listAriaHidden, n)
    case To(m) => SetFocused(f, w, Some(m))
    case _ => w
  }

  /** `_itemUpAction(n)`, where it ends. */
  function UpAction(f: Forest, w: Widget, n: nat): (r: Widget)
    requires Fits(f, w) && n < f.Size() && !UpMove(f, w.listHidden, n).Loops?
    ensures Fits(f, r) && OnlyFocusChanged(w, r)
    ensures UpMove(f, w.listHidden, n).Nowhere? ==> r == w
    ensures UpMove(f, w.listHidden, n).To? ==> r.focused == Some(UpMove(f, w.listHidden, n).node)
    ensures UpMove(f, w.listHidden, n).To? ==>
      r == SetFocused(f, w, Some(UpMove(f, w.listHidden, n).node))
  {
    match UpMove(f, w.listHidden, n)
    case To(m) => SetFocused(f, w, Some(m))
    case _ => w
  }

  /** Assign `focused` to every valid item of `items` in turn, as the Home and End loops do. */
  function FocusEach(f: Forest, w: Widget, items: seq<nat>): (r: Widget)
    requires Fits(f, w) && AllItems(f, items)
    ensures Fits(f, r) && OnlyFocusChanged(w, r)
  {
    if items == [] then w
    else
      var before := FocusEach(f, w, items[..|items| - 1]);
      var last := items[|items| - 1];
      if IsValidListItem(f, last) then SetFocused(f, before, Some(last)) else before
  }

  function Reversed(s: seq<nat>): (r: seq<nat>)
    ensures |r| == |s| && forall i :: 0 <= i < |s| ==> r[i] == s[|s| - 1 - i]
  {
    if s == [] then [] else Reversed(s[1..]) + [s[0]]
  }

  /** `_homeAction`. */
  function HomeAction(f: Forest, w: Widget): (r: Widget)
    requires Fits(f, w)
    ensures Fits(f, r) && OnlyFocusChanged(w, r)
  {
    FocusEach(f, w, f.roots)
  }

  /** `_endAction`. */
  function EndAction(f: Forest, w: Widget): (r: Widget)
    requires Fits(f, w)
    ensures Fits(f, r) && OnlyFocusChanged(w, r)
  {
    FocusEach(f, w, Reversed(f.roots))
  }

  /** `_itemEnterAction(n)`: toggle a `parent-item` first, then select `n`'s `data-id`. */
  function EnterAction(f: Forest, w: Widget, n: nat): (r: Widget)
    requires Fits(f, w) && n < f.Size() && f.hasDataId[n]
    ensures Fits(f, r) && r.selected == Some(f.id[n]) && r.focused == w.focused
    ensures r.expanded == (if f.isParent[n] then ToggleGroup(f, w, f.id[n]) else w).expanded
    ensures var toggled := if f.isParent[n] then ToggleGroup(f, w, f.id[n]) else w;
      r == toggled.(selected := Some(f.id[n]), ariaSelected := r.ariaSelected)
    ensures w.selected == Some(f.id[n]) ==> r.ariaSelected == w.ariaSelected
    ensures w.selected != Some(f.id[n]) ==>
      forall m :: 0 <= m < f.Size() ==>
        r.ariaSelected[m] ==
          if Truthy(Some(f.id[n])) && f.hasDataId[m] && f.id[m] == f.id[n] then true
          else if Truthy(w.selected) && f.hasDataId[m] && f.id[m] == w.selected.value then false
          else w.ariaSelected[m]
  {
    var toggled := if f.isParent[n] then ToggleGroup(f, w, f.id[n]) else w;
    SetSelected(f, toggled, Some(f.id[n]))
  }

  // ------------------------------------------------------------- dispatch

  /** `_clickHandler(e)`. */
  function Click(f: Forest, w: Widget, e: Event): (r: Widget)
    requires Fits(f, w) && PathInForest(f, e.path)
    ensures Fits(f, r) && r.selected == w.selected && r.ariaSelected == w.ariaSelected
    ensures e.defaultPrevented || ClosestListItem(f, e.path).None? ==> r == w
    ensures r.focused != w.focused ==> r.focused == ClosestListItem(f, e.path)
    ensures r.expanded != w.expanded ==>
      var n := ClosestListItem(f, e.path).value;
      f.isParent[n] && e.targetIsToggleIcon && r.focused == w.focused
    ensures !e.defaultPrevented && ClosestListItem(f, e.path).Some? ==>
      var n := ClosestListItem(f, e.path).value;
      r == if f.isParent[n] && e.targetIsToggleIcon then ToggleGroup(f, w, f.id[n]) else SetFocused(f, w, Some(n))
  {
    if e.defaultPrevented then w
    else match ClosestListItem(f, e.path)
      case None => w
      case Some(n) =>
        if f.isParent[n] && e.targetIsToggleIcon then ToggleGroup(f, w, f.id[n])
        else SetFocused(f, w, Some(n))
  }

  /** `_dblClickHandler(e)`. */
  function DblClick(f: Forest, w: Widget, e: Event): (r: Widget)
    requires Fits(f, w) && PathInForest(f, e.path)
    ensures Fits(f, r) && r.focused == w.focused
    ensures e.defaultPrevented || ClosestListItem(f, e.path).None? ==> r == w
    ensures !e.defaultPrevented && ClosestListItem(f, e.path).Some? ==>
      r.selected == Some(f.id[ClosestListItem(f, e.path).value])
    ensures !e.defaultPrevented && ClosestListItem(f, e.path).Some? ==>
      r == EnterAction(f, w, ClosestListItem(f, e.path).value)
  {
    if e.defaultPrevented then w
    else match ClosestListItem(f, e.path)
      case None => w
      case Some(n) => EnterAction(f, w, n)
  }

  /** The key press reaches an action whose sibling loop ends. */
  predicate KeydownHalts(f: Forest, w: Widget, e: Event)
    requires Fits(f, w) && PathInForest(f, e.path)
  {
    match ClosestListItem(f, e.path)
    case None => true
    case Some(n) =>
      && (e.key == "ArrowDown" ==> !DownMove(f, w.listAriaHidden, n).Loops?)
      && (e.key == "ArrowUp" ==> !UpMove(f, w.listHidden, n).Loops?)
  }

  /** `_keydownHandler(e)`. */
  function Keydown(f: Forest, w: Widget, e: Event): (r: Widget)
    requires Fits(f, w) && PathInForest(f, e.path) && KeydownHalts(f, w, e)
    ensures Fits(f, r)
    ensures ClosestListItem(f, e.path).None? ==> r == w
    ensures e.key !in {"ArrowRight", "ArrowLeft", "ArrowDown", "ArrowUp", "Home", "End", "Enter"} ==> r == w
    ensures ClosestListItem(f, e.path).Some? ==>
      var n := ClosestListItem(f, e.path).value;
      && (e.key == "ArrowRight" ==> r == RightAction(f, w, n))
      && (e.key == "ArrowLeft" ==> r == LeftAction(f, w, n))
      && (e.key == "ArrowDown" ==> r == DownAction(f, w, n))
      && (e.key == "ArrowUp" ==> r == UpAction(f, w, n))
      && (e.key == "Home" ==> r == HomeAction(f, w))
      && (e.key == "End" ==> r == EndAction(f, w))
      && (e.key == "Enter" ==> r == EnterAction(f, w, n))
  {
    match ClosestListItem(f, e.path)
    case None => w
    case Some(n) =>
      if e.key == "ArrowRight" then RightAction(f, w, n)
      else if e.key == "ArrowLeft" then LeftAction(f, w, n)
      else if e.key == "ArrowDown" then DownAction(f, w, n)
      else if e.key == "ArrowUp" then UpAction(f, w, n)
      else if e.key == "Home" then HomeAction(f, w)
      else if e.key == "End" then EndAction(f, w)
      else if e.key == "Enter" then EnterAction(f, w, n)
      else w
  }
}
