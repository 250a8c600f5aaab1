/**
 * The `A11yNav` class: the engine's state as fields and node-indexed
 * arrays of the attributes it writes, and its methods. Each method is
 * proved to perform its `Engine` transition: the setters and group methods
 * the one of the same name, `ItemRightAction` performs `RightAction` (and
 * likewise for the other `Item…` actions), and the handlers `ClickHandler`,
 * `DblClickHandler` and `KeydownHandler` perform `Click`, `DblClick` and
 * `Keydown`.
 */
module Nav {
  import opened Wrappers
  import opened TreeModel
  import opened Traversal
  import Engine

  class A11yNav {
    const forest: Forest
    const expanded: array<Engine.AriaExpanded>
    const listHidden: array<bool>
    const listAriaHidden: array<bool>
    const tabStop: array<bool>
    const ariaSelected: array<bool>
    var rootTabStop: bool
    var focused: Option<nat>
    var selected: Option<string>

    ghost function State(): Engine.Widget
      reads this, expanded, listHidden, listAriaHidden, tabStop, ariaSelected
    {
      Engine.Widget(expanded[..], listHidden[..], listAriaHidden[..], tabStop[..], ariaSelected[..],
                    rootTabStop, focused, selected)
    }

    ghost predicate Valid()
      reads this, expanded, listHidden, listAriaHidden, tabStop, ariaSelected
    {
      && listHidden != listAriaHidden && listHidden != tabStop && listHidden != ariaSelected
      && listAriaHidden != tabStop && listAriaHidden != ariaSelected && tabStop != ariaSelected
      && Engine.Fits(forest, State())
    }

    /** An engine over an authored tree whose attributes are `init`. */
    constructor (f: Forest, init: Engine.Widget)
      requires Engine.Fits(f, init)
      ensures Valid() && forest == f && State() == init
    {
      var n := f.Size();
      forest := f;
      expanded := new Engine.AriaExpanded[n](i requires 0 <= i < n => init.expanded[i]);
      listHidden := new bool[n](i requires 0 <= i < n => init.listHidden[i]);
      listAriaHidden := new bool[n](i requires 0 <= i < n => init.listAriaHidden[i]);
      tabStop := new bool[n](i requires 0 <= i < n => init.tabStop[i]);
      ariaSelected := new bool[n](i requires 0 <= i < n => init.ariaSelected[i]);
      rootTabStop := init.rootTabStop;
      focused := init.focused;
      selected := init.selected;
    }

    /** The `focused` setter; `.focus()` is the assignment to `focused` itself. */
    method SetFocused(value: Option<nat>)
      requires Valid() && (value.Some? ==> value.value < forest.Size())
      modifies this, tabStop
      ensures Valid() && State() == Engine.SetFocused(forest, old(State()), value)
    {
      if focused == value {
        return;
      }
      if focused.Some? {
        tabStop[focused.value] := false;
      }
      focused := value;
      if value.Some? {
        rootTabStop := false;
        tabStop[value.value] := true;
      } else {
        rootTabStop := true;
      }
    }

    /** The `selected` setter. */
    method SetSelected(value: Option<string>)
      requires Valid()
      modifies this, ariaSelected
      ensures Valid() && State() == Engine.SetSelected(forest, old(State()), value)
    {
      var previous := selected;
      if previous == value {
        return;
      }
      selected := value;
      ToggleSelected(value, previous);
    }

    /** `_toggleSelected`: each id is looked up only when it is truthy. */
    method ToggleSelected(current: Option<string>, previous: Option<string>)
      requires Valid()
      modifies ariaSelected
      ensures Valid() && State() == Engine.ToggleSelected(forest, old(State()), current, previous)
    {
      if Engine.Truthy(previous) {
        var oldItem := Lookup(forest, previous.value);
        if oldItem.Some? {
          ariaSelected[oldItem.value] := false;
        }
      }
      if Engine.Truthy(current) {
        var newItem := Lookup(forest, current.value);
        if newItem.Some? {
          ariaSelected[newItem.value] := true;
        }
      }
    }

    /** `_findClosestListItem`: shift entries off the composed path until a valid item. */
    method FindClosestListItem(path: seq<Target>) returns (r: Option<nat>)
      requires Valid() && PathInForest(forest, path)
      ensures r == ClosestListItem(forest, path)
    {
      var rest := path;
      while |rest| > 0
        invariant PathInForest(forest, rest)
        invariant ClosestListItem(forest, rest) == ClosestListItem(forest, path)
      {
        var target := rest[0];
        rest := rest[1..];
        if target.Missing? {
          return None;
        }
        if !target.Item? {
          continue;
        }
        if !IsValidListItem(forest, target.node) {
          continue;
        }
        return Some(target.node);
      }
      return None;
    }

    /** `_focusHandler`. */
    method FocusHandler()
      requires Valid()
      modifies this, tabStop
      ensures Valid() && State() == Engine.FocusHandler(forest, old(State()))
    {
      var li := FirstListItem(forest);
      if li.None? {
        return;
      }
      rootTabStop := false;
      SetFocused(li);
    }

    /** `_openGroup`. */
    method OpenGroup(n: nat)
      requires Valid() && n < forest.Size()
      modifies expanded, listHidden, listAriaHidden
      ensures Valid() && State() == Engine.OpenGroup(forest, old(State()), n)
    {
      expanded[n] := Engine.ExpandedTrue;
      if forest.hasList[n] {
        listHidden[n] := false;
        listAriaHidden[n] := false;
      }
    }

    /** `_closeGroup`. */
    method CloseGroup(n: nat)
      requires Valid() && n < forest.Size()
      modifies expanded, listHidden, listAriaHidden
      ensures Valid() && State() == Engine.CloseGroup(forest, old(State()), n)
    {
      expanded[n] := Engine.ExpandedFalse;
      if forest.hasList[n] {
        listHidden[n] := true;
        listAriaHidden[n] := true;
      }
    }

    /** `toggleGroup`. */
    method ToggleGroup(key: string)
      requires Valid()
      modifies expanded, listHidden, listAriaHidden
      ensures Valid() && State() == Engine.ToggleGroup(forest, old(State()), key)
    {
      var group := Lookup(forest, key);
      if group.None? {
        return;
      }
      if expanded[group.value] == Engine.ExpandedFalse {
        OpenGroup(group.value);
      } else {
        CloseGroup(group.value);
      }
    }

    /** `_focusFirstDescendant`. */
    method FocusFirstDescendant(n: nat) returns (ok: bool)
      requires Valid() && n < forest.Size()
      modifies this, tabStop
      ensures Valid() && State() == Engine.FocusFirstDescendant(forest, old(State()), n)
      ensures ok == FirstValidChild(forest, old(State()).listAriaHidden, n).Some?
    {
      if !(forest.hasList[n] && !listAriaHidden[n]) {
        return false;
      }
      var children := forest.children[n];
      for i := 0 to |children|
        invariant Valid() && State() == old(State())
        invariant FirstValid(forest, children[i..]) == FirstValid(forest, children)
      {
        assert children[i..][1..] == children[i + 1..];
        if !IsValidListItem(forest, children[i]) {
          continue;
        }
        SetFocused(Some(children[i]));
        return true;
      }
      return false;
    }

    /**
     * `focusNextSibling`. Only the immediate next sibling is read; the
     * requires excludes the invalid sibling on which the source's loop
     * never ends.
     */
    method FocusNextSibling(n: nat) returns (ok: bool)
      requires Valid() && n < forest.Size() && !NextSiblingStep(forest, n).Loops?
      modifies this, tabStop
      ensures Valid() && State() == Engine.FocusNextSibling(forest, old(State()), n)
      ensures ok == NextSiblingStep(forest, n).To?
    {
      var current := NextElementSibling(forest, n);
      if current.None? {
        return false;
      }
      SetFocused(current);
      return true;
    }

    /**
     * `focusPreviousSibling`, under the same restriction as
     * `FocusNextSibling`.
     */
    method FocusPreviousSibling(n: nat) returns (ok: bool)
      requires Valid() && n < forest.Size() && !PreviousSiblingStep(forest, listHidden[..], n).Loops?
      modifies this, tabStop
      ensures Valid() && State() == Engine.FocusPreviousSibling(forest, old(State()), n)
      ensures ok == PreviousSiblingStep(forest, old(listHidden[..]), n).To?
    {
      var current := PreviousElementSibling(forest, n);
      if current.None? {
        return false;
      }
      var last := LastDescendant(forest, listHidden[..], current.value);
      if last.Some? {
        SetFocused(last);
      } else {
        SetFocused(current);
      }
      return true;
    }

    /** `_findParentListItem`: climb owners until a valid item. */
    method FindParentListItem(n: nat) returns (r: Option<nat>)
      requires Valid() && n < forest.Size()
      ensures r == ParentListItem(forest, n)
    {
      var p := forest.parent[n];
      while p.Some?
        invariant p.Some? ==> p.value < forest.Size()
        invariant p.None? ==> ParentListItem(forest, n) == None
        invariant p.Some? ==>
                    ParentListItem(forest, n) ==
                    if IsValidListItem(forest, p.value) then p else ParentListItem(forest, p.value)
        decreases if p.Some? then p.value + 1 else 0
      {
        if IsValidListItem(forest, p.value) {
          return p;
        }
        p := forest.parent[p.value];
      }
      return None;
    }

    /** `_focusFirstParent`. */
    method FocusFirstParent(n: nat) returns (ok: bool)
      requires Valid() && n < forest.Size()
      modifies this, tabStop
      ensures Valid() && State() == Engine.FocusFirstParent(forest, old(State()), n)
      ensures ok == ParentListItem(forest, n).Some?
    {
      var parent := FindParentListItem(n);
      if parent.Some? {
        SetFocused(parent);
        return true;
      }
      return false;
    }

    /** `_itemRightAction`. */
    method ItemRightAction(n: nat)
      requires Valid() && n < forest.Size()
      modifies this, tabStop, expanded, listHidden, listAriaHidden
      ensures Valid() && State() == Engine.RightAction(forest, old(State()), n)
    {
      if !forest.isParent[n] {
        return;
      }
      if expanded[n] != Engine.ExpandedTrue {
        OpenGroup(n);
        return;
      }
      var _ := FocusFirstDescendant(n);
    }

    /** `_itemLeftAction`. */
    method ItemLeftAction(n: nat)
      requires Valid() && n < forest.Size()
      modifies this, tabStop, expanded, listHidden, listAriaHidden
      ensures Valid() && State() == Engine.LeftAction(forest, old(State()), n)
    {
      if forest.isParent[n] && expanded[n] == Engine.ExpandedTrue {
        CloseGroup(n);
        return;
      }
      var _ := FocusFirstParent(n);
    }

    /** `_itemDownAction`: first child, next sibling, then the next sibling of each valid ancestor. */
    method ItemDownAction(n: nat)
      requires Valid() && n < forest.Size() && !DownMove(forest, listAriaHidden[..], n).Loops?
      modifies this, tabStop
      ensures Valid() && State() == Engine.DownAction(forest, old(State()), n)
    {
      if forest.isParent[n] {
        var ok := FocusFirstDescendant(n);
        if ok {
          return;
        }
      }
      var ok := FocusNextSibling(n);
      if ok {
        return;
      }
      var parent := FindParentListItem(n);
      while parent.Some?
        invariant Valid() && State() == old(State())
        invariant parent.Some? ==> parent.value < forest.Size()
        invariant ClimbNext(forest, parent) == DownMove(forest, listAriaHidden[..], n)
        decreases if parent.Some? then parent.value + 1 else 0
      {
        ok := FocusNextSibling(parent.value);
        if ok {
          return;
        }
        parent := FindParentListItem(parent.value);
      }
    }

    /** `_itemUpAction`. */
    method ItemUpAction(n: nat)
      requires Valid() && n < forest.Size() && !UpMove(forest, listHidden[..], n).Loops?
      modifies this, tabStop
      ensures Valid() && State() == Engine.UpAction(forest, old(State()), n)
    {
      var ok := FocusPreviousSibling(n);
      if ok {
        return;
      }
      ok := FocusFirstParent(n);
    }

    /** `_homeAction`: assigns `focused` for every valid top-level item, first to last. */
    method HomeAction()
      requires Valid()
      modifies this, tabStop
      ensures Valid() && State() == Engine.HomeAction(forest, old(State()))
    {
      var items := forest.roots;
      for i := 0 to |items|
        invariant Valid() && State() == Engine.FocusEach(forest, old(State()), items[..i])
      {
        assert items[..i + 1][..i] == items[..i];
        if IsValidListItem(forest, items[i]) {
          SetFocused(Some(items[i]));
        }
      }
      assert items[..|items|] == items;
    }

    /** `_endAction`: the same loop over the top-level items in reverse. */
    method EndAction()
      requires Valid()
      modifies this, tabStop
      ensures Valid() && State() == Engine.EndAction(forest, old(State()))
    {
      var items := Engine.Reversed(forest.roots);
      for i := 0 to |items|
        invariant Valid() && State() == Engine.FocusEach(forest, old(State()), items[..i])
      {
        assert items[..i + 1][..i] == items[..i];
        if IsValidListItem(forest, items[i]) {
          SetFocused(Some(items[i]));
        }
      }
      assert items[..|items|] == items;
    }

    /** `_itemEnterAction`. */
    method ItemEnterAction(n: nat)
      requires Valid() && n < forest.Size() && forest.hasDataId[n]
      modifies this, expanded, listHidden, listAriaHidden, ariaSelected
      ensures Valid() && State() == Engine.EnterAction(forest, old(State()), n)
    {
      var key := forest.id[n];
      if forest.isParent[n] {
        ToggleGroup(key);
      }
      SetSelected(Some(key));
    }

    /** `_clickHandler`: the toggle icon of a `parent-item` toggles it; any other click focuses. */
    method ClickHandler(e: Engine.Event)
      requires Valid() && PathInForest(forest, e.path)
      modifies this, tabStop, expanded, listHidden, listAriaHidden
      ensures Valid() && State() == Engine.Click(forest, old(State()), e)
    {
      if e.defaultPrevented {
        return;
      }
      var node := FindClosestListItem(e.path);
      if node.None? {
        return;
      }
      var key := forest.id[node.value];
      if forest.isParent[node.value] {
        if e.targetIsToggleIcon {
          ToggleGroup(key);
          return;
        }
      }
      SetFocused(node);
    }

    /** `_dblClickHandler`. */
    method DblClickHandler(e: Engine.Event)
      requires Valid() && PathInForest(forest, e.path)
      modifies this, expanded, listHidden, listAriaHidden, ariaSelected
      ensures Valid() && State() == Engine.DblClick(forest, old(State()), e)
    {
      if e.defaultPrevented {
        return;
      }
      var node := FindClosestListItem(e.path);
      if node.None? {
        return;
      }
      ItemEnterAction(node.value);
    }

    /** `_keydownHandler`. */
    method KeydownHandler(e: Engine.Event)
      requires Valid() && PathInForest(forest, e.path) && Engine.KeydownHalts(forest, State(), e)
      modifies this, tabStop, expanded, listHidden, listAriaHidden, ariaSelected
      ensures Valid() && State() == Engine.Keydown(forest, old(State()), e)
    {
      var node := FindClosestListItem(e.path);
      if node.None? {
        return;
      }
      var n := node.value;
      if e.key == "ArrowRight" {
        ItemRightAction(n);
      } else if e.key == "ArrowLeft" {
        ItemLeftAction(n);
      } else if e.key == "ArrowDown" {
        ItemDownAction(n);
      } else if e.key == "ArrowUp" {
        ItemUpAction(n);
      } else if e.key == "Home" {
        HomeAction();
      } else if e.key == "End" {
        EndAction();
      } else if e.key == "Enter" {
        ItemEnterAction(n);
      }
    }
  }
}
