/**
 * The Tree controller: the search term, the expanded set and the focused id
 * it owns, the handlers that update them, and `expandMatchingParents`, the
 * walk that decides which items a search expands.
 *
 * The walk stops early in two places, exactly as written: `children.some`
 * stops at the first child that qualifies, and `searchFilter?.(child) ||
 * processItem(child)` does not walk into a child that matches itself.  So
 * the expanded set is a subset of the parents of matching items, not always
 * all of them.
 */
module TreeIndex {
  import opened TreeData
  import opened TreeItem

  /** `handleToggle`'s updater: a copy of the set with the item deleted if present and added otherwise. */
  function Toggled(expanded: set<Id>, id: Id): (r: set<Id>)
    ensures id in r <==> id !in expanded
    ensures forall other :: other != id ==> (other in r <==> other in expanded)
  {
    if id in expanded then expanded - {id} else expanded + {id}
  }

  /** Toggling the same item twice restores the set. */
  lemma ToggleTwice(expanded: set<Id>, id: Id)
    ensures Toggled(Toggled(expanded, id), id) == expanded
  {
  }

  /** What one walk returns: whether the item qualifies, and the items it adds to `newExpanded`. */
  datatype Walk = Walk(qualifies: bool, added: set<Id>)

  /**
   * `processItem(item)`: false for an absent child list; otherwise walk the
   * children, then qualify when the item itself matches or a child did.
   */
  function Process<P>(n: Node<P>, m: Option<Matcher<P>>, term: string): (w: Walk)
    ensures w.qualifies <==> n.children.Defined? && (Matches(m, n, term) || HasMatchingDescendant(n.children, m, term))
    decreases n
  {
    match n.children
    case Undefined => Walk(false, {})
    case Defined(s) =>
      var hasMatchingChild := SomeChild(n, s, m, term);
      Walk(Matches(m, n, term) || hasMatchingChild.qualifies, hasMatchingChild.added)
  }

  /**
   * The `children.some(...)` of `processItem(parent)`: take the children in
   * order; a child that matches qualifies without being walked, any other is
   * walked; at the first child that qualifies, add the parent and stop.
   */
  function SomeChild<P>(parent: Node<P>, s: seq<Node<P>>, m: Option<Matcher<P>>, term: string): (w: Walk)
    ensures w.qualifies <==> SomeDescendantMatches(s, m, term)
    ensures w.qualifies ==> parent.id in w.added
    decreases s
  {
    if s == [] then Walk(false, {})
    else
      var child := s[0];
      if Matches(m, child, term) then Walk(true, {parent.id})
      else
        var w := Process(child, m, term);
        if w.qualifies then Walk(true, w.added + {parent.id})
        else
          var rest := SomeChild(parent, s[1..], m, term);
          Walk(rest.qualifies, w.added + rest.added)
  }

  /** `expandMatchingParents(items, term)`: every root is walked and the added items are collected. */
  function MatchingParents<P>(items: seq<Node<P>>, m: Option<Matcher<P>>, term: string): (r: set<Id>)
    ensures forall k :: 0 <= k < |items| ==> Process(items[k], m, term).added <= r
    ensures forall id :: id in r ==> exists k :: 0 <= k < |items| && id in Process(items[k], m, term).added
    decreases items
  {
    if items == [] then {} else Process(items[0], m, term).added + MatchingParents(items[1..], m, term)
  }

  /** The items of `nodes` some node below which matches: the parents a search may need to open. */
  ghost function AncestorsOfMatches<P>(nodes: seq<Node<P>>, m: Option<Matcher<P>>, term: string): set<Id>
  {
    set a | a in nodes && HasMatchingDescendant(a.children, m, term) :: a.id
  }

  lemma AncestorsOfMatchesMono<P>(x: seq<Node<P>>, y: seq<Node<P>>, m: Option<Matcher<P>>, term: string)
    requires forall a :: a in x ==> a in y
    ensures AncestorsOfMatches(x, m, term) <= AncestorsOfMatches(y, m, term)
  {
  }

  /** Everything one walk adds is an ancestor of a match inside the walked subtree. */
  lemma {:induction false} ProcessSound<P>(n: Node<P>, m: Option<Matcher<P>>, term: string)
    ensures Process(n, m, term).added <= AncestorsOfMatches(Subtree(n), m, term)
    decreases n
  {
    match n.children
    case Undefined =>
    case Defined(s) =>
      SomeChildSound(n, s, m, term);
  }

  /** Everything a `some` over (a suffix of) `parent`'s children adds is an ancestor of a match. */
  lemma {:induction false} SomeChildSound<P>(parent: Node<P>, s: seq<Node<P>>, m: Option<Matcher<P>>, term: string)
    requires parent.children.Defined?
    requires forall c :: c in s ==> c in parent.children.nodes
    ensures SomeChild(parent, s, m, term).added <= AncestorsOfMatches([parent] + Forest(s), m, term)
    decreases s
  {
    if s != [] {
      var child := s[0];
      var all := [parent] + Forest(s);
      assert Forest(s) == Subtree(child) + Forest(s[1..]);
      if Matches(m, child, term) || Process(child, m, term).qualifies {
        // The parent is added because this child of it qualifies.
        var nodes := parent.children.nodes;
        assert child in nodes;
        var k :| 0 <= k < |nodes| && nodes[k] == child;
        RootsInForest(nodes, k);
        if !Matches(m, child, term) {
          var d :| d in Below(child.children) && Matches(m, d, term);
          assert d in Forest(nodes);
        }
        assert HasMatchingDescendant(parent.children, m, term);
        assert parent in all;
      }
      if !Matches(m, child, term) {
        ProcessSound(child, m, term);
        AncestorsOfMatchesMono(Subtree(child), all, m, term);
        if !Process(child, m, term).qualifies {
          SomeChildSound(parent, s[1..], m, term);
          AncestorsOfMatchesMono([parent] + Forest(s[1..]), all, m, term);
        }
      }
    }
  }

  /** Soundness: every item the search expands lies in the forest and has a matching node below it. */
  lemma {:induction false} MatchingParentsSound<P>(items: seq<Node<P>>, m: Option<Matcher<P>>, term: string)
    ensures MatchingParents(items, m, term) <= AncestorsOfMatches(Forest(items), m, term)
    decreases items
  {
    if items != [] {
      assert Forest(items) == Subtree(items[0]) + Forest(items[1..]);
      ProcessSound(items[0], m, term);
      AncestorsOfMatchesMono(Subtree(items[0]), Forest(items), m, term);
      MatchingParentsSound(items[1..], m, term);
      AncestorsOfMatchesMono(Forest(items[1..]), Forest(items), m, term);
    }
  }

  /** Every root with a matching node below it is expanded. */
  lemma {:induction false} MatchingParentsHasRoots<P>(items: seq<Node<P>>, m: Option<Matcher<P>>, term: string)
    ensures forall k :: 0 <= k < |items| && HasMatchingDescendant(items[k].children, m, term) ==>
              items[k].id in MatchingParents(items, m, term)
    decreases items
  {
    if items != [] {
      MatchingParentsHasRoots(items[1..], m, term);
      forall k | 0 <= k < |items| && HasMatchingDescendant(items[k].children, m, term)
        ensures items[k].id in MatchingParents(items, m, term)
      {
        if k > 0 {
          assert items[1..][k - 1] == items[k];
        }
      }
    }
  }

  /** With no matching node anywhere in the forest, the search expands nothing. */
  lemma NoMatchNoExpansion<P>(items: seq<Node<P>>, m: Option<Matcher<P>>, term: string)
    requires forall d :: d in Forest(items) ==> !Matches(m, d, term)
    ensures MatchingParents(items, m, term) == {}
  {
    MatchingParentsSound(items, m, term);
    forall a | a in Forest(items) && HasMatchingDescendant(a.children, m, term)
      ensures false
    {
      var d :| d in Below(a.children) && Matches(m, d, term);
      ForestClosed(items, a, d);
    }
  }

  /** Without a `searchFilter` the search expands nothing. */
  lemma NoMatcherNoExpansion<P>(items: seq<Node<P>>, term: string)
    ensures MatchingParents(items, None, term) == {}
  {
    NoMatchNoExpansion(items, None, term);
  }

  /** Once a child qualifies, the siblings after it are never looked at. */
  lemma {:induction false} LaterSiblingsNotVisited<P>(parent: Node<P>, s: seq<Node<P>>, k: nat, later: seq<Node<P>>,
                                                     m: Option<Matcher<P>>, term: string)
    requires k < |s|
    requires Matches(m, s[k], term) || Process(s[k], m, term).qualifies
    ensures SomeChild(parent, s[..k + 1] + later, m, term) == SomeChild(parent, s[..k + 1], m, term)
    decreases k
  {
    var t := s[..k + 1];
    assert (t + later)[0] == t[0] == s[0];
    if k > 0 && !Matches(m, s[0], term) && !Process(s[0], m, term).qualifies {
      assert (t + later)[1..] == s[1..][..k] + later;
      assert t[1..] == s[1..][..k];
      LaterSiblingsNotVisited(parent, s[1..], k - 1, later, m, term);
    }
  }

  /**
   * A child that matches is not walked into: when the first child that
   * matches or qualifies is a matching child at position `k`, the walk adds
   * the parent and what the walks of the earlier children added, and nothing
   * from below that child or after it.
   */
  lemma {:induction false} MatchingChildNotEntered<P>(parent: Node<P>, s: seq<Node<P>>, k: nat,
                                                     m: Option<Matcher<P>>, term: string)
    requires k < |s| && Matches(m, s[k], term)
    requires forall j :: 0 <= j < k ==> !Matches(m, s[j], term) && !Process(s[j], m, term).qualifies
    ensures SomeChild(parent, s, m, term) == Walk(true, SomeChild(parent, s[..k], m, term).added + {parent.id})
    decreases k
  {
    if k > 0 {
      assert s[..k][1..] == s[1..][..k - 1];
      MatchingChildNotEntered(parent, s[1..], k - 1, m, term);
    }
  }

  /** Walking the roots one after the other collects the union, in `forEach` order. */
  lemma {:induction false} MatchingParentsAppend<P>(items: seq<Node<P>>, x: Node<P>, m: Option<Matcher<P>>, term: string)
    ensures MatchingParents(items + [x], m, term) == MatchingParents(items, m, term) + Process(x, m, term).added
    decreases items
  {
    if items == [] {
      assert [x][1..] == [];
    } else {
      assert (items + [x])[1..] == items[1..] + [x];
      MatchingParentsAppend(items[1..], x, m, term);
    }
  }

  /**
   * The closure state of one `expandMatchingParents` call: the matcher and
   * the term it captured, and the `newExpanded` set its walk fills in place.
   */
  class ExpansionWalk<P> {
    const searchFilter: Option<Matcher<P>>
    const term: string
    var newExpanded: set<Id>

    constructor (searchFilter: Option<Matcher<P>>, term: string)
      ensures this.searchFilter == searchFilter && this.term == term
      ensures newExpanded == {}
    {
      this.searchFilter := searchFilter;
      this.term := term;
      newExpanded := {};
    }

    /** `processItem(item)`: returns whether the item qualifies and adds to `newExpanded` what the walk adds. */
    method ProcessItem(item: Node<P>) returns (qualifies: bool)
      modifies this
      ensures qualifies == Process(item, searchFilter, term).qualifies
      ensures newExpanded == old(newExpanded) + Process(item, searchFilter, term).added
      decreases item
    {
      match item.children {
        case Undefined =>
          return false;
        case Defined(children) =>
          var hasMatchingChild := false;
          var i := 0;
          while i < |children| && !hasMatchingChild
            invariant 0 <= i <= |children|
            invariant hasMatchingChild ==>
                        SomeChild(item, children, searchFilter, term).qualifies &&
                        newExpanded == old(newExpanded) + SomeChild(item, children, searchFilter, term).added
            invariant !hasMatchingChild ==>
                        SomeChild(item, children, searchFilter, term).qualifies
                          == SomeChild(item, children[i..], searchFilter, term).qualifies &&
                        newExpanded + SomeChild(item, children[i..], searchFilter, term).added
                          == old(newExpanded) + SomeChild(item, children, searchFilter, term).added
          {
            var child := children[i];
            assert children[i..][1..] == children[i + 1..];
            var childMatches := Matches(searchFilter, child, term);
            if !childMatches {
              childMatches := ProcessItem(child);
            }
            if childMatches {
              newExpanded := newExpanded + {item.id};
            }
            hasMatchingChild := childMatches;
            i := i + 1;
          }
          qualifies := Matches(searchFilter, item, term) || hasMatchingChild;
      }
    }
  }

  /** The Tree component: its props and the state its handlers update. */
  class Tree<P> {
    const items: seq<Node<P>>
    const searchFilter: Option<Matcher<P>>
    var searchTerm: string
    var expandedItems: set<Id>
    var focusedItemId: string

    /** The rows on screen: the root-level `items.map`, each root at level 0. */
    function Render(): (r: seq<Row<P>>)
      reads this
      ensures forall j :: 0 <= j < |r| && r[j].level == 0 ==> r[j].item in items
      ensures ParentsRendered(r, 0, expandedItems)
      ensures forall k :: 0 <= k < |items| && Visible(items[k], searchFilter, searchTerm) ==> Row(items[k], 0) in r
      ensures RowsAt(r, 0) == VisibleItems(items, searchFilter, searchTerm)
      ensures forall k :: 0 <= k < |items| ==>
                IsSegment(RenderItem(items[k], 0, expandedItems, searchTerm, searchFilter), r)
    {
      RenderItemsSegments(items, 0, expandedItems, searchTerm, searchFilter);
      RenderItemsParents(items, 0, expandedItems, searchTerm, searchFilter);
      RenderItemsAtLevel(items, 0, expandedItems, searchTerm, searchFilter);
      RenderItems(items, 0, expandedItems, searchTerm, searchFilter)
    }

    /** A fresh tree: no term, nothing expanded, no focus, so exactly the roots are shown. */
    constructor (items: seq<Node<P>>, searchFilter: Option<Matcher<P>>)
      ensures this.items == items && this.searchFilter == searchFilter
      ensures searchTerm == "" && expandedItems == {} && focusedItemId == ""
      ensures |Render()| == |items| && forall k :: 0 <= k < |items| ==> Render()[k] == Row(items[k], 0)
    {
      this.items := items;
      this.searchFilter := searchFilter;
      searchTerm := "";
      expandedItems := {};
      focusedItemId := "";
      new;
      RenderItemsCollapsed(items, 0, {}, searchFilter);
    }

    /** `handleToggle(item)`: flips the item's membership; neither children nor the term are consulted. */
    method HandleToggle(item: Node<P>)
      modifies this`expandedItems
      ensures expandedItems == Toggled(old(expandedItems), item.id)
    {
      var newExpanded := expandedItems;
      if item.id in newExpanded {
        newExpanded := newExpanded - {item.id};
      } else {
        newExpanded := newExpanded + {item.id};
      }
      expandedItems := newExpanded;
    }

    /** `expandMatchingParents(items, term)`: walks every root with one shared `newExpanded`. */
    method ExpandMatchingParents(items: seq<Node<P>>, term: string) returns (newExpanded: set<Id>)
      ensures newExpanded == MatchingParents(items, searchFilter, term)
    {
      var walk := new ExpansionWalk(searchFilter, term);
      for i := 0 to |items|
        invariant walk.searchFilter == searchFilter && walk.term == term
        invariant walk.newExpanded == MatchingParents(items[..i], searchFilter, term)
      {
        var qualifies := walk.ProcessItem(items[i]);
        assert items[..i + 1] == items[..i] + [items[i]];
        MatchingParentsAppend(items[..i], items[i], searchFilter, term);
      }
      assert items[..|items|] == items;
      newExpanded := walk.newExpanded;
    }

    /**
     * `handleSearchTermChange(term)`: stores the term and replaces the whole
     * expanded set, with nothing for the empty term and with the search's
     * parents otherwise.
     */
    method HandleSearchTermChange(term: string)
      modifies this`searchTerm, this`expandedItems
      ensures searchTerm == term
      ensures expandedItems == if term == "" then {} else MatchingParents(items, searchFilter, term)
    {
      searchTerm := term;
      if term != "" {
        expandedItems := ExpandMatchingParents(items, term);
      } else {
        expandedItems := {};
      }
    }

    /** `onFocusChange(id)`: stores the id verbatim. */
    method OnFocusChange(id: string)
      modifies this`focusedItemId
      ensures focusedItemId == id
    {
      focusedItemId := id;
    }
  }

  /** The expanded set after a TreeItem callback, as the Tree wires `onToggle` to `handleToggle`. */
  function ExpandedAfter<P>(expanded: set<Id>, callback: Option<Callback<P>>): (r: set<Id>)
    ensures callback.Some? && callback.value.OnToggle? ==>
              (callback.value.item.id in r <==> callback.value.item.id !in expanded)
    ensures forall id :: (callback.None? || !callback.value.OnToggle? || id != callback.value.item.id) ==>
              (id in r <==> id in expanded)
  {
    match callback
    case Some(OnToggle(item)) => Toggled(expanded, item.id)
    case _ => expanded
  }

  /** No key changes the expanded set through an item without children. */
  lemma KeysOnChildlessItem<P>(n: Node<P>, expanded: set<Id>, key: string)
    requires !HasChildren(n)
    ensures ExpandedAfter(expanded, HandleKeyDown(n, expanded, key).callback) == expanded
  {
  }

  /**
   * On an item with children, ArrowRight leaves it expanded and ArrowLeft
   * then leaves it collapsed; no other item changes, so from a collapsed
   * item the pair restores the set.
   */
  lemma ArrowRightThenLeft<P>(n: Node<P>, expanded: set<Id>)
    requires HasChildren(n)
    ensures var right := ExpandedAfter(expanded, HandleKeyDown(n, expanded, "ArrowRight").callback);
            && n.id in right && right - {n.id} == expanded - {n.id}
            && ExpandedAfter(right, HandleKeyDown(n, right, "ArrowLeft").callback) == expanded - {n.id}
  {
  }
}
