/**
 * The static shape of the tree list that the navigation engine walks.
 *
 * Every `li` element of the tree is an item, numbered consistently with
 * document order: an item's owner comes before it and every list holds its
 * items in increasing number, so the first `li` of the root list is item 0.
 * The root `ul` holds the top-level items; an item may hold one child `ul`
 * whose `li` children are its child items.
 */
module TreeModel {
  import opened Wrappers

  datatype Forest = Forest(
    roots: seq<nat>,              // the `li` children of the root list, in order
    parent: seq<Option<nat>>,     // the item whose child list holds this item
    children: seq<seq<nat>>,      // the `li` children of the item's child list
    hasList: seq<bool>,           // the item contains a child `ul`
    isParent: seq<bool>,          // the item has the class `parent-item`
    disabled: seq<bool>,          // `aria-disabled="true"`
    hasDataId: seq<bool>,         // the item carries a `data-id` attribute
    id: seq<string>)              // the value of `data-id`
  {
    function Size(): nat { |parent| }
  }

  predicate Distinct(s: seq<nat>) {
    forall i, j :: 0 <= i < j < |s| ==> s[i] != s[j]
  }

  /** The items of a list appear in increasing number, as in document order. */
  predicate Increasing(s: seq<nat>) {
    forall i, j :: 0 <= i < j < |s| ==> s[i] < s[j]
  }

  /** Every number in `items` names an item of the forest. */
  predicate AllItems(f: Forest, items: seq<nat>) {
    forall i :: 0 <= i < |items| ==> items[i] < f.Size()
  }

  /**
   * A well-formed forest: the parent and child relations agree, an item's
   * owner has a lower number than the item, every list holds its items in
   * increasing number, and `data-id` values are unique.
   */
  ghost predicate WellFormed(f: Forest) {
    var n := f.Size();
    && |f.children| == n && |f.hasList| == n && |f.isParent| == n
    && |f.disabled| == n && |f.hasDataId| == n && |f.id| == n
    && Distinct(f.roots) && Increasing(f.roots) && AllItems(f, f.roots)
    && (forall i :: 0 <= i < |f.roots| ==> f.parent[f.roots[i]] == None)
    && (forall c :: 0 <= c < n ==>
          match f.parent[c]
          case None => c in f.roots
          case Some(p) => p < c && c in f.children[p])
    && (forall p :: 0 <= p < n ==>
          Distinct(f.children[p]) && Increasing(f.children[p]) && AllItems(f, f.children[p])
          && (!f.hasList[p] ==> f.children[p] == []))
    && (forall p, i :: 0 <= p < n && 0 <= i < |f.children[p]| ==>
          f.parent[f.children[p][i]] == Some(p))
    && (forall a, b ::
          0 <= a < n && 0 <= b < n && f.hasDataId[a] && f.hasDataId[b] && f.id[a] == f.id[b]
          ==> a == b)
  }

  /**
   * An item that may take focus: an `li` that is not `aria-disabled="true"`
   * and carries a `data-id`. Visibility plays no part in it.
   */
  predicate IsValidListItem(f: Forest, n: nat)
    requires WellFormed(f) && n < f.Size()
  {
    !f.disabled[n] && f.hasDataId[n]
  }

  /** The list that holds item `n`: the root list or its owner's child list. */
  function SiblingList(f: Forest, n: nat): (s: seq<nat>)
    requires WellFormed(f) && n < f.Size()
    ensures n in s && AllItems(f, s) && Distinct(s)
  {
    match f.parent[n]
    case None => f.roots
    case Some(p) => f.children[p]
  }

  function IndexOf(s: seq<nat>, x: nat): (k: nat)
    requires x in s
    ensures k < |s| && s[k] == x
  {
    if s[0] == x then 0 else 1 + IndexOf(s[1..], x)
  }

  /** `nextElementSibling` of item `n`. */
  function NextElementSibling(f: Forest, n: nat): (r: Option<nat>)
    requires WellFormed(f) && n < f.Size()
    ensures r.Some? ==> r.value < f.Size()
  {
    var s := SiblingList(f, n);
    var k := IndexOf(s, n);
    if k + 1 < |s| then Some(s[k + 1]) else None
  }

  /** `previousElementSibling` of item `n`. */
  function PreviousElementSibling(f: Forest, n: nat): (r: Option<nat>)
    requires WellFormed(f) && n < f.Size()
    ensures r.Some? ==> r.value < f.Size()
  {
    var s := SiblingList(f, n);
    var k := IndexOf(s, n);
    if k > 0 then Some(s[k - 1]) else None
  }

  /** `a` is an item on the chain of owners above `n`. */
  ghost predicate IsAncestor(f: Forest, a: nat, n: nat)
    requires WellFormed(f) && n < f.Size()
    decreases n
  {
    match f.parent[n]
    case None => false
    case Some(p) => p == a || IsAncestor(f, a, p)
  }

  /** Item 0 has no owner, so it is a top-level item, and the first of them. */
  lemma FirstRootIsLeast(f: Forest)
    requires WellFormed(f) && f.Size() > 0
    ensures |f.roots| > 0 && f.roots[0] == 0
  {
    assert 0 in f.roots;
  }

  lemma {:induction false} AncestorIsEarlier(f: Forest, a: nat, n: nat)
    requires WellFormed(f) && n < f.Size() && IsAncestor(f, a, n)
    ensures a < n
    decreases n
  {
    var p := f.parent[n].value;
    if p != a {
      AncestorIsEarlier(f, a, p);
    }
  }

  lemma {:induction false} AncestorTransitive(f: Forest, a: nat, b: nat, n: nat)
    requires WellFormed(f) && b < f.Size() && n < f.Size()
    requires IsAncestor(f, a, b) && IsAncestor(f, b, n)
    ensures IsAncestor(f, a, n)
    decreases n
  {
    var p := f.parent[n].value;
    if p != b {
      AncestorTransitive(f, a, b, p);
    }
  }

  /** The items above `n` form a chain: any two of them are ordered. */
  lemma {:induction false} AncestorsOrdered(f: Forest, a: nat, b: nat, n: nat)
    requires WellFormed(f) && a < f.Size() && b < f.Size() && n < f.Size()
    requires IsAncestor(f, a, n) && IsAncestor(f, b, n)
    ensures a == b || IsAncestor(f, a, b) || IsAncestor(f, b, a)
    decreases n
  {
    var p := f.parent[n].value;
    if a != p && b != p {
      AncestorsOrdered(f, a, b, p);
    }
  }
}
