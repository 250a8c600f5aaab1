/**
 * A worked example: the tree A(B, C(D)), E with A open, C closed and
 * nothing focused, numbered A = 0, B = 1, C = 2, D = 3, E = 4.
 */
module ExampleTree {
  import opened Wrappers
  import opened TreeModel
  import opened Traversal
  import opened Engine

  function Tree(): Forest {
    Forest(
      [0, 4],
      [None, Some(0), Some(0), Some(2), None],
      [[1, 2], [], [3], [], []],
      [true, false, true, false, false],
      [true, false, true, false, false],
      [false, false, false, false, false],
      [true, true, true, true, true],
      ["a", "b", "c", "d", "e"])
  }

  function Start(): Widget {
    Widget(
      [ExpandedTrue, ExpandedAbsent, ExpandedFalse, ExpandedAbsent, ExpandedAbsent],
      [false, false, true, false, false],
      [false, false, true, false, false],
      [false, false, false, false, false],
      [false, false, false, false, false],
      true, None, None)
  }

  lemma TreeOwnersAgree()
    ensures forall c :: 0 <= c < 5 ==>
      match Tree().parent[c]
      case None => c in Tree().roots
      case Some(p) => p < c && c in Tree().children[p]
  {
    var f := Tree();
    forall c | 0 <= c < 5
      ensures match f.parent[c]
              case None => c in f.roots
              case Some(p) => p < c && c in f.children[p]
    {
      if c == 0 || c == 4 {
        assert f.roots[if c == 0 then 0 else 1] == c;
      } else if c == 1 || c == 2 {
        assert f.children[0][c - 1] == c;
      } else {
        assert f.children[2][0] == c;
      }
    }
  }

  lemma TreeListsOrdered()
    ensures forall p :: 0 <= p < 5 ==>
      Distinct(Tree().children[p]) && Increasing(Tree().children[p]) && AllItems(Tree(), Tree().children[p])
  {
    var f := Tree();
    forall p | 0 <= p < 5
      ensures Distinct(f.children[p]) && Increasing(f.children[p]) && AllItems(f, f.children[p])
    {
      if p == 0 {
        assert f.children[p] == [1, 2];
      } else if p == 2 {
        assert f.children[p] == [3];
      } else {
        assert f.children[p] == [];
      }
    }
  }

  lemma TreeChildrenOwned()
    ensures forall p, i :: 0 <= p < 5 && 0 <= i < |Tree().children[p]| ==>
      Tree().parent[Tree().children[p][i]] == Some(p)
    ensures forall p :: 0 <= p < 5 && !Tree().hasList[p] ==> Tree().children[p] == []
    ensures forall i :: 0 <= i < |Tree().roots| ==> Tree().parent[Tree().roots[i]] == None
  {
    var f := Tree();
    forall p, i | 0 <= p < 5 && 0 <= i < |f.children[p]|
      ensures f.parent[f.children[p][i]] == Some(p)
    {
      if p == 0 {
        assert f.children[p] == [1, 2];
      } else {
        assert p == 2 && f.children[p] == [3];
      }
    }
  }

  lemma TreeIdsUnique()
    ensures forall a, b :: 0 <= a < 5 && 0 <= b < 5 && Tree().id[a] == Tree().id[b] ==> a == b
  {
    var f := Tree();
    forall a, b | 0 <= a < 5 && 0 <= b < 5 && f.id[a] == f.id[b]
      ensures a == b
    {
      assert f.id[a][0] == f.id[b][0];
    }
  }

  lemma TreeIsWellFormed()
    ensures WellFormed(Tree())
  {
    var f := Tree();
    assert Distinct(f.roots) && Increasing(f.roots) && AllItems(f, f.roots);
    TreeOwnersAgree();
    TreeListsOrdered();
    TreeChildrenOwned();
    TreeIdsUnique();
  }

  lemma StartIsConsistent()
    ensures WellFormed(Tree()) && Consistent(Tree(), Start())
  {
    TreeIsWellFormed();
  }

  /** The traversals on the example tree. */
  lemma ExampleTraversals()
    ensures WellFormed(Tree())
    ensures FirstValidChild(Tree(), Start().listAriaHidden, 0) == Some(1)
    ensures FirstValidChild(Tree(), Start().listAriaHidden, 2) == None
    ensures PreviousSiblingStep(Tree(), Start().listHidden, 4) == To(2)
    ensures NextSiblingStep(Tree(), 0) == To(4)
  {
    TreeIsWellFormed();
  }

  /** Down from B reaches its sibling C, since B has no children. */
  lemma ExampleDownFromLeaf()
    ensures WellFormed(Tree()) && Fits(Tree(), Start())
    ensures DownAction(Tree(), SetFocused(Tree(), Start(), Some(1)), 1).focused == Some(2)
  {
    StartIsConsistent();
    var f := Tree();
    var w := SetFocused(f, Start(), Some(1));
    assert NextElementSibling(f, 1) == Some(2) by {
      assert f.parent[1] == Some(0) && f.children[0] == [1, 2];
      assert IndexOf(f.children[0], 1) == 0;
    }
    assert NextSiblingStep(f, 1) == To(2);
    assert w.listAriaHidden == Start().listAriaHidden;
    assert DownMove(f, w.listAriaHidden, 1) == To(2);
  }

  /** Right on the closed C: C stays focused and opens. */
  function OpenedC(): Widget
    requires WellFormed(Tree()) && Fits(Tree(), Start())
  {
    RightAction(Tree(), SetFocused(Tree(), Start(), Some(2)), 2)
  }

  lemma ExampleRightOpens()
    ensures WellFormed(Tree()) && Fits(Tree(), Start())
    ensures Fits(Tree(), OpenedC())
    ensures OpenedC().focused == Some(2) && OpenedC().expanded[2] == ExpandedTrue
    ensures !OpenedC().listAriaHidden[2] && !OpenedC().listHidden[2]
  {
    StartIsConsistent();
  }

  /** Right again on the open C focuses its first child D. */
  function OnD(): Widget
    requires WellFormed(Tree()) && Fits(Tree(), Start())
  {
    ExampleRightOpens();
    RightAction(Tree(), OpenedC(), 2)
  }

  lemma ExampleRightEnters()
    ensures WellFormed(Tree()) && Fits(Tree(), Start()) && Fits(Tree(), OnD())
    ensures OnD().focused == Some(3) && OnD().expanded[2] == ExpandedTrue
  {
    ExampleRightOpens();
    assert Tree().children[2] == [3];
    assert FirstValidChild(Tree(), OpenedC().listAriaHidden, 2) == Some(3);
  }

  /** Left from the leaf D returns to its parent C, which stays open. */
  function BackOnC(): Widget
    requires WellFormed(Tree()) && Fits(Tree(), Start())
  {
    ExampleRightEnters();
    LeftAction(Tree(), OnD(), 3)
  }

  lemma ExampleLeftReturns()
    ensures WellFormed(Tree()) && Fits(Tree(), Start()) && Fits(Tree(), BackOnC())
    ensures BackOnC().focused == Some(2) && BackOnC().expanded[2] == ExpandedTrue
  {
    ExampleRightEnters();
    assert ParentListItem(Tree(), 3) == Some(2);
  }

  /** Enter on the open C closes it and selects "c". */
  lemma ExampleEnterClosesAndSelects()
    ensures WellFormed(Tree()) && Fits(Tree(), Start()) && Fits(Tree(), BackOnC())
    ensures var r := EnterAction(Tree(), BackOnC(), 2);
      r.expanded[2] == ExpandedFalse && r.selected == Some("c") && r.focused == Some(2)
  {
    ExampleLeftReturns();
    assert Lookup(Tree(), "c") == Some(2) by {
      assert Tree().id[2] == "c";
    }
  }
}
