/**
 * What the engine promises, proved about the transitions of `Engine`:
 * the roving tab stop, the group toggle round trip, where each traversal
 * can put focus, and the Home/End behaviour as the source has it.
 */
module Properties {
  import opened Wrappers
  import opened TreeModel
  import opened Traversal
  import opened Engine

  // ---------------------------------------------------------------- focus

  /** Under the roving tab stop, a second focus move overrides the first completely. */
  lemma SetFocusedTwice(f: Forest, w: Widget, a: nat, b: nat)
    requires Fits(f, w) && OneTabStop(f, w) && a < f.Size() && b < f.Size()
    ensures SetFocused(f, SetFocused(f, w, Some(a)), Some(b)) == SetFocused(f, w, Some(b))
  {
    var twice := SetFocused(f, SetFocused(f, w, Some(a)), Some(b));
    var once := SetFocused(f, w, Some(b));
    assert OneTabStop(f, twice) && OneTabStop(f, once);
    assert twice.tabStop == once.tabStop by {
      forall n | 0 <= n < f.Size() ensures twice.tabStop[n] == once.tabStop[n] {
      }
    }
  }

  /**
   * Assigning `focused` to every valid item of a list, one after another,
   * ends as a single move to the last valid item.
   */
  lemma {:induction false} FocusEachLandsOnLast(f: Forest, w: Widget, items: seq<nat>)
    requires Fits(f, w) && OneTabStop(f, w) && AllItems(f, items)
    ensures FocusEach(f, w, items) ==
      match LastValid(f, items)
      case None => w
      case Some(m) => SetFocused(f, w, Some(m))
  {
    if items != [] {
      var front := items[..|items| - 1];
      var last := items[|items| - 1];
      FocusEachLandsOnLast(f, w, front);
      if IsValidListItem(f, last) && LastValid(f, front).Some? {
        SetFocusedTwice(f, w, LastValid(f, front).value, last);
      }
    }
  }

  lemma {:induction false} LastValidOfReversed(f: Forest, s: seq<nat>)
    requires WellFormed(f) && AllItems(f, s)
    ensures AllItems(f, Reversed(s)) && LastValid(f, Reversed(s)) == FirstValid(f, s)
  {
    if s != [] {
      LastValidOfReversed(f, s[1..]);
      var r := Reversed(s);
      assert r[..|r| - 1] == Reversed(s[1..]);
    }
  }

  /**
   * Home ends on the LAST valid top-level item, because the loop keeps
   * assigning `focused` without stopping; it changes nothing when no
   * top-level item is valid.
   */
  lemma HomeLandsOnLastTopLevelItem(f: Forest, w: Widget)
    requires Fits(f, w) && OneTabStop(f, w)
    ensures HomeAction(f, w) ==
      match LastValid(f, f.roots)
      case None => w
      case Some(m) => SetFocused(f, w, Some(m))
  {
    FocusEachLandsOnLast(f, w, f.roots);
  }

  /** End, scanning the top level backwards, ends on the FIRST valid top-level item. */
  lemma EndLandsOnFirstTopLevelItem(f: Forest, w: Widget)
    requires Fits(f, w) && OneTabStop(f, w)
    ensures EndAction(f, w) ==
      match FirstValid(f, f.roots)
      case None => w
      case Some(m) => SetFocused(f, w, Some(m))
  {
    LastValidOfReversed(f, f.roots);
    FocusEachLandsOnLast(f, w, Reversed(f.roots));
  }

  /**
   * The root-focus handler focuses the first top-level item whether or not
   * it is valid, and keeps the single tab stop.
   */
  lemma FocusHandlerIgnoresValidity(f: Forest, w: Widget)
    requires Fits(f, w) && OneTabStop(f, w) && |f.roots| > 0
    ensures FocusHandler(f, w).focused == Some(f.roots[0])
    ensures OneTabStop(f, FocusHandler(f, w))
  {
    var r := FocusHandler(f, w);
    if w.focused != Some(f.roots[0]) {
      assert forall n :: 0 <= n < f.Size() ==> (r.tabStop[n] <==> n == f.roots[0]);
    }
  }

  // --------------------------------------------------------------- groups

  /** The group's list attributes match its `aria-expanded`. */
  ghost predicate GroupAttrsAgree(f: Forest, w: Widget, n: nat)
    requires Fits(f, w) && n < f.Size()
  {
    && (w.expanded[n] == ExpandedTrue ==> ListShown(f, w, n))
    && (w.expanded[n] == ExpandedFalse ==> ListCollapsed(f, w, n))
  }

  /** Toggling a group twice restores it when `aria-expanded` is "true" or "false". */
  lemma ToggleGroupTwice(f: Forest, w: Widget, key: string)
    requires Fits(f, w) && Lookup(f, key).Some?
    requires w.expanded[Lookup(f, key).value] != ExpandedAbsent
    requires GroupAttrsAgree(f, w, Lookup(f, key).value)
    ensures ToggleGroup(f, ToggleGroup(f, w, key), key) == w
  {
    var n := Lookup(f, key).value;
    var once := ToggleGroup(f, w, key);
    var twice := ToggleGroup(f, once, key);
    assert twice.expanded == w.expanded;
    assert twice.listHidden == w.listHidden;
    assert twice.listAriaHidden == w.listAriaHidden;
  }

  /**
   * `aria-expanded` absent: `toggleGroup` treats the group as open and
   * closes it, while the Right action treats it as closed and opens it.
   */
  lemma AbsentExpandedAsymmetry(f: Forest, w: Widget, n: nat)
    requires Fits(f, w) && n < f.Size() && f.isParent[n] && f.hasDataId[n]
    requires w.expanded[n] == ExpandedAbsent
    ensures ToggleGroup(f, w, f.id[n]).expanded[n] == ExpandedFalse
    ensures ToggleGroup(f, ToggleGroup(f, w, f.id[n]), f.id[n]).expanded[n] == ExpandedTrue
    ensures RightAction(f, w, n).expanded[n] == ExpandedTrue
    ensures RightAction(f, w, n).focused == w.focused
  {
  }

  // ----------------------------------------------------------- traversal

  /**
   * The valid items above `n` strictly below `a` have no next element
   * sibling: the ancestor loop has passed them by.
   */
  ghost predicate ClimbedPast(f: Forest, a: nat, n: nat)
    requires WellFormed(f) && a < f.Size() && n < f.Size()
  {
    forall b: nat :: b < f.Size() && IsAncestor(f, b, n) && IsAncestor(f, a, b) && IsValidListItem(f, b)
      ==> NextElementSibling(f, b).None?
  }

  /**
   * The Down action's ancestor loop focuses the immediate next sibling of
   * the NEAREST valid ancestor that has a next element sibling.
   */
  lemma {:induction false} ClimbNextTarget(f: Forest, p: Option<nat>, n: nat)
    requires WellFormed(f) && n < f.Size() && (p.Some? ==> p.value < f.Size())
    requires p.Some? ==> IsAncestor(f, p.value, n) && IsValidListItem(f, p.value) && ClimbedPast(f, p.value, n)
    ensures ClimbNext(f, p).To? ==>
      exists a: nat :: a < f.Size() && IsAncestor(f, a, n) && IsValidListItem(f, a)
        && NextElementSibling(f, a) == Some(ClimbNext(f, p).node) && ClimbedPast(f, a, n)
    decreases if p.Some? then p.value + 1 else 0
  {
    if p.Some? && NextSiblingStep(f, p.value).Nowhere? {
      var a := p.value;
      var q := ParentListItem(f, a);
      if q.Some? {
        AncestorTransitive(f, q.value, a, n);
        forall b: nat | b < f.Size() && IsAncestor(f, b, n) && IsAncestor(f, q.value, b) && IsValidListItem(f, b)
          ensures NextElementSibling(f, b).None?
        {
          AncestorsOrdered(f, b, a, n);
        }
      }
      ClimbNextTarget(f, q, n);
    }
  }

  /**
   * The ancestor loop fails only when no valid ancestor from `p` upwards
   * has a next sibling.
   */
  lemma {:induction false} ClimbNextFails(f: Forest, p: Option<nat>)
    requires WellFormed(f) && (p.Some? ==> p.value < f.Size())
    ensures ClimbNext(f, p).Nowhere? && p.Some? ==>
      && NextElementSibling(f, p.value).None?
      && forall b: nat :: b < f.Size() && IsAncestor(f, b, p.value) && IsValidListItem(f, b)
           ==> NextElementSibling(f, b).None?
    decreases if p.Some? then p.value + 1 else 0
  {
    if p.Some? && ClimbNext(f, p).Nowhere? {
      var a := p.value;
      var q := ParentListItem(f, a);
      ClimbNextFails(f, q);
      forall b: nat | b < f.Size() && IsAncestor(f, b, a) && IsValidListItem(f, b)
        ensures NextElementSibling(f, b).None?
      {
        var qv := q.value;
        AncestorsOrdered(f, b, qv, a);
      }
    }
  }

  /**
   * Down tries, in this order and stopping at the first success: the first
   * valid child of a shown list (for a `parent-item`), the immediate next
   * sibling, and the next sibling of the nearest valid ancestor that has one.
   */
  lemma DownMoveTarget(f: Forest, ariaHidden: seq<bool>, n: nat)
    requires WellFormed(f) && |ariaHidden| == f.Size() && n < f.Size()
    ensures f.isParent[n] && HasShownValidChild(f, ariaHidden, n) ==>
      DownMove(f, ariaHidden, n).To? &&
      var m := DownMove(f, ariaHidden, n).node;
      exists k :: 0 <= k < |f.children[n]| && f.children[n][k] == m
        && forall j :: 0 <= j < k ==> !IsValidListItem(f, f.children[n][j])
    ensures !(f.isParent[n] && HasShownValidChild(f, ariaHidden, n)) && NextElementSibling(f, n).Some? ==>
      DownMove(f, ariaHidden, n) == NextSiblingStep(f, n)
    ensures && !(f.isParent[n] && HasShownValidChild(f, ariaHidden, n))
            && NextElementSibling(f, n).None? && DownMove(f, ariaHidden, n).To?
            ==>
      exists a: nat :: a < f.Size() && IsAncestor(f, a, n) && IsValidListItem(f, a)
        && NextElementSibling(f, a) == Some(DownMove(f, ariaHidden, n).node) && ClimbedPast(f, a, n)
  {
    var first := f.isParent[n] && HasShownValidChild(f, ariaHidden, n);
    if first {
      assert DownMove(f, ariaHidden, n) == To(FirstValidChild(f, ariaHidden, n).value);
    } else if NextElementSibling(f, n).None? {
      assert NextSiblingStep(f, n).Nowhere?;
      assert DownMove(f, ariaHidden, n) == ClimbNext(f, ParentListItem(f, n));
      ClimbNextTarget(f, ParentListItem(f, n), n);
    }
  }

  /** Down leaves focus where it is only when every candidate is missing. */
  lemma DownMoveFails(f: Forest, ariaHidden: seq<bool>, n: nat)
    requires WellFormed(f) && |ariaHidden| == f.Size() && n < f.Size()
    ensures DownMove(f, ariaHidden, n).Nowhere? ==>
      && (f.isParent[n] ==> !HasShownValidChild(f, ariaHidden, n))
      && NextElementSibling(f, n).None?
      && forall a: nat :: a < f.Size() && IsAncestor(f, a, n) && IsValidListItem(f, a)
           ==> NextElementSibling(f, a).None?
  {
    if DownMove(f, ariaHidden, n).Nowhere? {
      assert NextSiblingStep(f, n).Nowhere?;
      var q := ParentListItem(f, n);
      assert ClimbNext(f, q).Nowhere?;
      ClimbNextFails(f, q);
      if q.Some? {
        forall a: nat | a < f.Size() && IsAncestor(f, a, n) && IsValidListItem(f, a)
          ensures NextElementSibling(f, a).None?
        {
          AncestorsOrdered(f, a, q.value, n);
        }
      }
    }
  }

  /**
   * Up goes to the immediate previous sibling's descendant reached through
   * last valid children of lists without `hidden`, as deep as that goes, or
   * to the sibling itself; without a previous sibling, to the nearest valid
   * ancestor.
   */
  lemma UpMoveTarget(f: Forest, hidden: seq<bool>, n: nat)
    requires WellFormed(f) && |hidden| == f.Size() && n < f.Size()
    ensures UpMove(f, hidden, n).To? ==>
      var m := UpMove(f, hidden, n).node;
      match PreviousElementSibling(f, n)
      case Some(s) =>
        IsValidListItem(f, s) && !HasShownValidChild(f, hidden, m)
          && (m == s || LastChildChain(f, hidden, m, s))
      case None => ParentListItem(f, n) == Some(m)
  {
  }

  /** Up leaves focus where it is exactly when there is no previous sibling and no valid ancestor. */
  lemma UpMoveFails(f: Forest, hidden: seq<bool>, n: nat)
    requires WellFormed(f) && |hidden| == f.Size() && n < f.Size()
    ensures UpMove(f, hidden, n).Nowhere? <==>
      && PreviousElementSibling(f, n).None?
      && forall a: nat :: a < f.Size() && IsAncestor(f, a, n) ==> !IsValidListItem(f, a)
  {
  }

  // ------------------------------------------------------ whole events

  /** If focus moved, it moved to a valid item. */
  ghost predicate FocusMovesToValid(f: Forest, w: Widget, r: Widget)
    requires Fits(f, w) && Fits(f, r)
  {
    r.focused != w.focused ==> r.focused.Some? && IsValidListItem(f, r.focused.value)
  }

  lemma {:induction false} FocusEachFocusesValid(f: Forest, w: Widget, items: seq<nat>)
    requires Fits(f, w) && AllItems(f, items)
    ensures FocusMovesToValid(f, w, FocusEach(f, w, items))
  {
    if items != [] {
      FocusEachFocusesValid(f, w, items[..|items| - 1]);
    }
  }

  /** No arrow, Home, End or Enter action moves focus onto an invalid item. */
  lemma ActionsFocusOnlyValidItems(f: Forest, w: Widget, n: nat)
    requires Fits(f, w) && n < f.Size()
    ensures FocusMovesToValid(f, w, RightAction(f, w, n))
    ensures FocusMovesToValid(f, w, LeftAction(f, w, n))
    ensures !DownMove(f, w.listAriaHidden, n).Loops? ==> FocusMovesToValid(f, w, DownAction(f, w, n))
    ensures !UpMove(f, w.listHidden, n).Loops? ==> FocusMovesToValid(f, w, UpAction(f, w, n))
    ensures FocusMovesToValid(f, w, HomeAction(f, w))
    ensures FocusMovesToValid(f, w, EndAction(f, w))
    ensures f.hasDataId[n] ==> FocusMovesToValid(f, w, EnterAction(f, w, n))
  {
    FocusEachFocusesValid(f, w, f.roots);
    FocusEachFocusesValid(f, w, Reversed(f.roots));
  }

  /** A key press never focuses an invalid item. */
  lemma KeydownFocusesOnlyValidItems(f: Forest, w: Widget, e: Event)
    requires Fits(f, w) && PathInForest(f, e.path) && KeydownHalts(f, w, e)
    ensures FocusMovesToValid(f, w, Keydown(f, w, e))
  {
    var target := ClosestListItem(f, e.path);
    if target.Some? {
      var n := target.value;
      var r := Keydown(f, w, e);
      ActionsFocusOnlyValidItems(f, w, n);
      if e.key == "ArrowRight" {
        assert r == RightAction(f, w, n);
      } else if e.key == "ArrowLeft" {
        assert r == LeftAction(f, w, n);
      } else if e.key == "ArrowDown" {
        assert r == DownAction(f, w, n);
      } else if e.key == "ArrowUp" {
        assert r == UpAction(f, w, n);
      } else if e.key == "Home" {
        assert r == HomeAction(f, w);
      } else if e.key == "End" {
        assert r == EndAction(f, w);
      } else if e.key == "Enter" {
        assert r == EnterAction(f, w, n);
      } else {
        assert r == w;
      }
    }
  }

  /** A click focuses only the valid item it hit; a double click never moves focus. */
  lemma MouseEventsFocusOnlyValidItems(f: Forest, w: Widget, e: Event)
    requires Fits(f, w) && PathInForest(f, e.path)
    ensures FocusMovesToValid(f, w, Click(f, w, e))
    ensures DblClick(f, w, e).focused == w.focused
  {
  }

  lemma SetFocusedKeepsConsistent(f: Forest, w: Widget, v: Option<nat>)
    requires Consistent(f, w) && (v.Some? ==> v.value < f.Size())
    ensures Consistent(f, SetFocused(f, w, v))
  {
  }

  lemma GroupChangeKeepsConsistent(f: Forest, w: Widget, r: Widget, n: nat)
    requires Consistent(f, w) && Fits(f, r) && n < f.Size() && OnlyGroupChanged(f, w, r, n)
    requires ListShown(f, r, n) || ListCollapsed(f, r, n)
    ensures Consistent(f, r)
  {
  }

  lemma ToggleGroupKeepsConsistent(f: Forest, w: Widget, key: string)
    requires Consistent(f, w)
    ensures Consistent(f, ToggleGroup(f, w, key))
  {
    if Lookup(f, key).Some? {
      GroupChangeKeepsConsistent(f, w, ToggleGroup(f, w, key), Lookup(f, key).value);
    }
  }

  lemma ArrowActionsKeepConsistent(f: Forest, w: Widget, n: nat)
    requires Consistent(f, w) && n < f.Size()
    ensures Consistent(f, RightAction(f, w, n))
    ensures Consistent(f, LeftAction(f, w, n))
    ensures !DownMove(f, w.listAriaHidden, n).Loops? ==> Consistent(f, DownAction(f, w, n))
    ensures !UpMove(f, w.listHidden, n).Loops? ==> Consistent(f, UpAction(f, w, n))
  {
    if f.isParent[n] && w.expanded[n] != ExpandedTrue {
      GroupChangeKeepsConsistent(f, w, RightAction(f, w, n), n);
    }
    if f.isParent[n] && w.expanded[n] == ExpandedTrue {
      GroupChangeKeepsConsistent(f, w, LeftAction(f, w, n), n);
    }
  }

  lemma HomeEndKeepConsistent(f: Forest, w: Widget)
    requires Consistent(f, w)
    ensures Consistent(f, HomeAction(f, w))
    ensures Consistent(f, EndAction(f, w))
  {
    HomeLandsOnLastTopLevelItem(f, w);
    EndLandsOnFirstTopLevelItem(f, w);
  }

  lemma EnterKeepsConsistent(f: Forest, w: Widget, n: nat)
    requires Consistent(f, w) && n < f.Size() && f.hasDataId[n]
    ensures Consistent(f, EnterAction(f, w, n))
  {
    if f.isParent[n] {
      ToggleGroupKeepsConsistent(f, w, f.id[n]);
    }
  }

  /** A key press keeps the single tab stop, agreeing list flags and the selection marks. */
  lemma KeydownKeepsConsistent(f: Forest, w: Widget, e: Event)
    requires Consistent(f, w) && PathInForest(f, e.path) && KeydownHalts(f, w, e)
    ensures Consistent(f, Keydown(f, w, e))
  {
    var target := ClosestListItem(f, e.path);
    if target.Some? {
      var n := target.value;
      var r := Keydown(f, w, e);
      if e.key == "ArrowRight" || e.key == "ArrowLeft" || e.key == "ArrowDown" || e.key == "ArrowUp" {
        ArrowActionsKeepConsistent(f, w, n);
      } else if e.key == "Home" || e.key == "End" {
        HomeEndKeepConsistent(f, w);
      } else if e.key == "Enter" {
        EnterKeepsConsistent(f, w, n);
      } else {
        assert r == w;
      }
    }
  }

  /** Clicks, double clicks and the root focus handler keep the engine's invariants. */
  lemma MouseEventsKeepConsistent(f: Forest, w: Widget, e: Event)
    requires Consistent(f, w) && PathInForest(f, e.path)
    ensures Consistent(f, Click(f, w, e))
    ensures Consistent(f, DblClick(f, w, e))
    ensures Consistent(f, FocusHandler(f, w))
  {
    var target := ClosestListItem(f, e.path);
    if target.Some? {
      var n := target.value;
      EnterKeepsConsistent(f, w, n);
      ToggleGroupKeepsConsistent(f, w, f.id[n]);
    }
    if |f.roots| > 0 {
      FocusHandlerIgnoresValidity(f, w);
    }
  }
}
