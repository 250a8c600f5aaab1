/**
 * Read-only traversals of the tree: the lookups the navigation engine
 * makes before it moves focus. Child-list visibility is passed in as the
 * per-item flag the traversal consults (`aria-hidden` or `hidden`).
 */
module Traversal {
  import opened Wrappers
  import opened TreeModel

  /** One entry of an event's composed path. */
  datatype Target =
    | Missing          // an empty slot: the scan stops here
    | TextNode         // a node that is not an element
    | OtherElement     // an element that is not an `li` (a `div`, a `ul`, an icon, ...)
    | Item(node: nat)  // an `li` of the tree

  predicate PathInForest(f: Forest, path: seq<Target>) {
    forall i :: 0 <= i < |path| && path[i].Item? ==> path[i].node < f.Size()
  }

  /** The path entry is an `li` that passes `IsValidListItem`. */
  predicate Accepts(f: Forest, t: Target)
    requires WellFormed(f) && (t.Item? ==> t.node < f.Size())
  {
    t.Item? && IsValidListItem(f, t.node)
  }

  /** The scan of a path gets past its first `k` entries without stopping. */
  predicate ScanReaches(path: seq<Target>, k: nat)
    requires k <= |path|
  {
    forall j :: 0 <= j < k ==> !path[j].Missing?
  }

  /**
   * The first entry of the composed path that is a valid list item; the
   * scan gives up at an empty slot.
   */
  function ClosestListItem(f: Forest, path: seq<Target>): (r: Option<nat>)
    requires WellFormed(f) && PathInForest(f, path)
    ensures r.Some? ==> r.value < f.Size() && IsValidListItem(f, r.value)
    ensures r.Some? ==>
      exists k :: 0 <= k < |path| && path[k] == Item(r.value) && ScanReaches(path, k)
        && forall j :: 0 <= j < k ==> !Accepts(f, path[j])
    ensures r.None? ==>
      forall k :: 0 <= k < |path| && ScanReaches(path, k) ==> !Accepts(f, path[k])
  {
    if path == [] then None
    else match path[0]
      case Missing => None
      case TextNode => ClosestListItem(f, path[1..])
      case OtherElement => ClosestListItem(f, path[1..])
      case Item(n) => if IsValidListItem(f, n) then Some(n) else ClosestListItem(f, path[1..])
  }

  /**
   * `_firstListItem`: the first `li` in document order, which is the first
   * top-level item; its validity is not checked.
   */
  function FirstListItem(f: Forest): (r: Option<nat>)
    requires WellFormed(f)
    ensures r.None? <==> f.Size() == 0
    ensures r.Some? ==> r.value < f.Size() && f.parent[r.value].None?
    ensures r.Some? ==> r.value == 0
  {
    if f.Size() > 0 then FirstRootIsLeast(f); Some(f.roots[0])
    else None
  }

  /** The lowest-numbered item whose `data-id` is `key`. */
  function Lookup(f: Forest, key: string): (r: Option<nat>)
    requires WellFormed(f)
    ensures r.Some? ==> r.value < f.Size() && f.hasDataId[r.value] && f.id[r.value] == key
    ensures r.None? <==> forall n :: 0 <= n < f.Size() && f.hasDataId[n] ==> f.id[n] != key
    ensures forall n :: 0 <= n < f.Size() && f.hasDataId[n] && f.id[n] == key ==> r == Some(n)
  {
    LookupFrom(f, key, 0)
  }

  function LookupFrom(f: Forest, key: string, from: nat): (r: Option<nat>)
    requires WellFormed(f) && from <= f.Size()
    ensures r.Some? ==> from <= r.value < f.Size() && f.hasDataId[r.value] && f.id[r.value] == key
    ensures r.None? ==> forall n :: from <= n < f.Size() && f.hasDataId[n] ==> f.id[n] != key
    decreases f.Size() - from
  {
    if from == f.Size() then None
    else if f.hasDataId[from] && f.id[from] == key then Some(from)
    else LookupFrom(f, key, from + 1)
  }

  /** The first valid item of a list, like `find` over its children. */
  function FirstValid(f: Forest, items: seq<nat>): (r: Option<nat>)
    requires WellFormed(f) && AllItems(f, items)
    ensures r.Some? ==>
      exists k :: 0 <= k < |items| && items[k] == r.value && IsValidListItem(f, items[k])
        && forall j :: 0 <= j < k ==> !IsValidListItem(f, items[j])
    ensures r.None? <==> forall k :: 0 <= k < |items| ==> !IsValidListItem(f, items[k])
  {
    if items == [] then None
    else if IsValidListItem(f, items[0]) then Some(items[0])
    else FirstValid(f, items[1..])
  }

  /** The last valid item of a list, like `find` over its reversed children. */
  function LastValid(f: Forest, items: seq<nat>): (r: Option<nat>)
    requires WellFormed(f) && AllItems(f, items)
    ensures r.Some? ==>
      exists k :: 0 <= k < |items| && items[k] == r.value && IsValidListItem(f, items[k])
        && forall j :: k < j < |items| ==> !IsValidListItem(f, items[j])
    ensures r.None? <==> forall k :: 0 <= k < |items| ==> !IsValidListItem(f, items[k])
  {
    if items == [] then None
    else if IsValidListItem(f, items[|items| - 1]) then Some(items[|items| - 1])
    else LastValid(f, items[..|items| - 1])
  }

  /** Item `n` holds a child list not flagged in `hidden` with a valid item in it. */
  ghost predicate HasShownValidChild(f: Forest, hidden: seq<bool>, n: nat)
    requires WellFormed(f) && |hidden| == f.Size() && n < f.Size()
  {
    f.hasList[n] && !hidden[n]
      && exists i :: 0 <= i < |f.children[n]| && IsValidListItem(f, f.children[n][i])
  }

  /**
   * The first valid child of `n` in a child list whose `aria-hidden` is
   * absent or "false".
   */
  function FirstValidChild(f: Forest, ariaHidden: seq<bool>, n: nat): (r: Option<nat>)
    requires WellFormed(f) && |ariaHidden| == f.Size() && n < f.Size()
    ensures r.Some? ==>
      r.value < f.Size() && f.parent[r.value] == Some(n) && IsValidListItem(f, r.value)
    ensures r.Some? ==>
      exists k :: 0 <= k < |f.children[n]| && f.children[n][k] == r.value
        && forall j :: 0 <= j < k ==> !IsValidListItem(f, f.children[n][j])
    ensures r.None? <==> !HasShownValidChild(f, ariaHidden, n)
  {
    if f.hasList[n] && !ariaHidden[n] then FirstValid(f, f.children[n]) else None
  }

  /**
   * `d` is reached from `n` by stepping, one or more times, into the last
   * valid child of a child list that is not flagged in `hidden`.
   */
  ghost predicate LastChildChain(f: Forest, hidden: seq<bool>, d: nat, n: nat)
    requires WellFormed(f) && |hidden| == f.Size() && d < f.Size()
    decreases d
  {
    match f.parent[d]
    case None => false
    case Some(p) =>
      && !hidden[p] && f.hasList[p] && LastValid(f, f.children[p]) == Some(d)
      && (p == n || LastChildChain(f, hidden, p, n))
  }

  /** A chain from `c` extends by one step to `c`'s parent `n`. */
  lemma {:induction false} LastChildChainExtend(f: Forest, hidden: seq<bool>, d: nat, c: nat, n: nat)
    requires WellFormed(f) && |hidden| == f.Size() && d < f.Size() && c < f.Size()
    requires LastChildChain(f, hidden, c, n) && LastChildChain(f, hidden, d, c)
    ensures LastChildChain(f, hidden, d, n)
    decreases d
  {
    var p := f.parent[d].value;
    if p != c {
      LastChildChainExtend(f, hidden, p, c, n);
    }
  }

  /**
   * The deepest item reached from `n` by taking, again and again, the last
   * valid child of a child list that has no `hidden` attribute.
   */
  function LastDescendant(f: Forest, hidden: seq<bool>, n: nat): (r: Option<nat>)
    requires WellFormed(f) && |hidden| == f.Size() && n < f.Size()
    ensures r.Some? ==>
      && r.value < f.Size() && IsValidListItem(f, r.value)
      && LastChildChain(f, hidden, r.value, n)
      && !HasShownValidChild(f, hidden, r.value)
    ensures r.None? <==> !HasShownValidChild(f, hidden, n)
    decreases f.Size() - n
  {
    if !f.hasList[n] || hidden[n] then None
    else match LastValid(f, f.children[n])
      case None => None
      case Some(c) =>
        assert f.parent[c] == Some(n) && n < c;
        assert LastChildChain(f, hidden, c, n);
        match LastDescendant(f, hidden, c)
        case Some(d) =>
          LastChildChainExtend(f, hidden, d, c, n);
          Some(d)
        case None => Some(c)
  }

  /** The nearest item above `n` that passes `IsValidListItem`. */
  function ParentListItem(f: Forest, n: nat): (r: Option<nat>)
    requires WellFormed(f) && n < f.Size()
    ensures r.Some? ==> r.value < n && IsValidListItem(f, r.value) && IsAncestor(f, r.value, n)
    ensures r.Some? ==>
      forall a: nat :: a < f.Size() && IsAncestor(f, a, n) && IsAncestor(f, r.value, a)
        ==> !IsValidListItem(f, a)
    ensures r.None? ==>
      forall a: nat :: a < f.Size() && IsAncestor(f, a, n) ==> !IsValidListItem(f, a)
    decreases n
  {
    match f.parent[n]
    case None => None
    case Some(p) =>
      if IsValidListItem(f, p) then
        assert forall a: nat :: a < f.Size() && IsAncestor(f, a, n) && IsAncestor(f, p, a) ==> false by {
          forall a: nat | a < f.Size() && IsAncestor(f, a, n) && IsAncestor(f, p, a)
            ensures false
          {
            AncestorIsEarlier(f, p, a);
            if a != p { AncestorIsEarlier(f, a, p); }
          }
        }
        Some(p)
      else
        ParentListItem(f, p)
  }

  /** Where a traversal step puts focus. */
  datatype Move =
    | To(node: nat)  // focus moves to this item
    | Nowhere        // the step fails and focus stays
    | Loops          // the source's sibling loop re-reads an invalid sibling forever

  /**
   * `focusNextSibling`: only the immediate next sibling is ever looked at;
   * when it is invalid the source's loop never ends.
   */
  function NextSiblingStep(f: Forest, n: nat): (m: Move)
    requires WellFormed(f) && n < f.Size()
    ensures m.To? ==> m.node < f.Size() && IsValidListItem(f, m.node)
    ensures m.To? ==> NextElementSibling(f, n) == Some(m.node)
    ensures m.Nowhere? <==> NextElementSibling(f, n).None?
  {
    match NextElementSibling(f, n)
    case None => Nowhere
    case Some(s) => if IsValidListItem(f, s) then To(s) else Loops
  }

  /**
   * `focusPreviousSibling`: the immediate previous sibling, resolved to its
   * last descendant through lists without `hidden` when it has one.
   */
  function PreviousSiblingStep(f: Forest, hidden: seq<bool>, n: nat): (m: Move)
    requires WellFormed(f) && |hidden| == f.Size() && n < f.Size()
    ensures m.To? ==> m.node < f.Size() && IsValidListItem(f, m.node)
    ensures m.Nowhere? <==> PreviousElementSibling(f, n).None?
    ensures m.Loops? <==>
      PreviousElementSibling(f, n).Some? && !IsValidListItem(f, PreviousElementSibling(f, n).value)
  {
    match PreviousElementSibling(f, n)
    case None => Nowhere
    case Some(s) =>
      if !IsValidListItem(f, s) then Loops
      else match LastDescendant(f, hidden, s)
        case Some(d) => To(d)
        case None => To(s)
  }

  /** The ancestor loop of the Down action, started at `p`. */
  function ClimbNext(f: Forest, p: Option<nat>): (m: Move)
    requires WellFormed(f) && (p.Some? ==> p.value < f.Size())
    ensures m.To? ==> m.node < f.Size() && IsValidListItem(f, m.node)
    decreases if p.Some? then p.value + 1 else 0
  {
    match p
    case None => Nowhere
    case Some(a) =>
      match NextSiblingStep(f, a)
      case Nowhere => ClimbNext(f, ParentListItem(f, a))
      case m => m
  }

  /** Where the Down action moves focus from `n`. */
  function DownMove(f: Forest, ariaHidden: seq<bool>, n: nat): (m: Move)
    requires WellFormed(f) && |ariaHidden| == f.Size() && n < f.Size()
    ensures m.To? ==> m.node < f.Size() && IsValidListItem(f, m.node)
  {
    if f.isParent[n] && FirstValidChild(f, ariaHidden, n).Some? then
      To(FirstValidChild(f, ariaHidden, n).value)
    else match NextSiblingStep(f, n)
      case Nowhere => ClimbNext(f, ParentListItem(f, n))
      case m => m
  }

  /** Where the Up action moves focus from `n`. */
  function UpMove(f: Forest, hidden: seq<bool>, n: nat): (m: Move)
    requires WellFormed(f) && |hidden| == f.Size() && n < f.Size()
    ensures m.To? ==> m.node < f.Size() && IsValidListItem(f, m.node)
  {
    match PreviousSiblingStep(f, hidden, n)
    case Nowhere =>
      (match ParentListItem(f, n)
       case Some(a) => To(a)
       case None => Nowhere)
    case m => m
  }
}
