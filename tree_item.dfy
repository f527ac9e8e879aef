/**
 * The per-node rules of TreeItem: whether a node has children, whether a
 * strict descendant matches the search, whether the node is shown, which
 * rows a node and its expanded children render, and what a key press or a
 * click on the node asks of its callbacks.
 */
module TreeItem {
  import opened TreeData

  /** `children && children.length > 0`: an empty array counts as no children. */
  function HasChildren<P>(n: Node<P>): (r: bool)
    ensures r <==> |Below(n.children)| > 0
  {
    match n.children
    case Undefined => false
    case Defined(s) =>
      assert s != [] ==> Forest(s) == Subtree(s[0]) + Forest(s[1..]);
      |s| > 0
  }

  /** `hasMatchingDescendant(children)`: false for an absent list, otherwise whether some node below matches. */
  function HasMatchingDescendant<P>(cs: Children<P>, m: Option<Matcher<P>>, term: string): (r: bool)
    ensures r <==> exists d :: d in Below(cs) && Matches(m, d, term)
    decreases cs
  {
    match cs
    case Undefined => false
    case Defined(s) => SomeDescendantMatches(s, m, term)
  }

  /** The `items.some(...)` inside `hasMatchingDescendant`: a child matches, or something below it does. */
  function SomeDescendantMatches<P>(s: seq<Node<P>>, m: Option<Matcher<P>>, term: string): (r: bool)
    ensures r <==> exists d :: d in Forest(s) && Matches(m, d, term)
    decreases s
  {
    if s == [] then false
    else
      var child := s[0];
      assert child.children < child;
      var childMatches := Matches(m, child, term);
      var childrenMatch := HasMatchingDescendant(child.children, m, term);
      childMatches || childrenMatch || SomeDescendantMatches(s[1..], m, term)
  }

  /**
   * The hide rule: with a non-empty term an item is dropped unless it matches
   * or some node below it does; with the empty term it is always shown.
   */
  function Visible<P>(n: Node<P>, m: Option<Matcher<P>>, term: string): (r: bool)
    ensures r <==> term == "" || exists d :: d in Subtree(n) && Matches(m, d, term)
  {
    var matchesSearch := term == "" || Matches(m, n, term);
    var childrenMatchSearch := HasMatchingDescendant(n.children, m, term);
    !(term != "" && !matchesSearch && !childrenMatchSearch)
  }

  /** Without a matcher (the default `() => false`) every item is hidden while a term is set. */
  lemma {:induction false} DefaultMatcherHidesAll<P>(n: Node<P>, term: string)
    ensures Visible(n, None, term) <==> term == ""
  {
  }

  /** One rendered item: the node and its indentation level. */
  datatype Row<P> = Row(item: Node<P>, level: nat)

  /**
   * The rows TreeItem renders for `n` at `level`: nothing when it is hidden,
   * otherwise the item itself followed, when it is expanded and has
   * children, by its children one level deeper.
   */
  function RenderItem<P>(n: Node<P>, level: nat, expanded: set<Id>, term: string, m: Option<Matcher<P>>)
    : (r: seq<Row<P>>)
    ensures r == [] <==> !Visible(n, m, term)
    ensures r != [] ==> r[0] == Row(n, level)
    ensures forall j :: 0 < j < |r| ==> r[j].level > level
    ensures forall j :: 0 <= j < |r| ==> r[j].item in Subtree(n) && Visible(r[j].item, m, term)
    ensures Visible(n, m, term) && n.id in expanded && HasChildren(n) ==>
              forall c :: c in n.children.nodes && Visible(c, m, term) ==> Row(c, level + 1) in r
    decreases n
  {
    if !Visible(n, m, term) then []
    else
      var isItemExpanded := n.id in expanded;
      [Row(n, level)]
      + (if isItemExpanded && HasChildren(n)
         then RenderItems(n.children.nodes, level + 1, expanded, term, m)
         else [])
  }

  /** `items.map(...)`: the rows of each item in turn, all at the same level. */
  function RenderItems<P>(s: seq<Node<P>>, level: nat, expanded: set<Id>, term: string, m: Option<Matcher<P>>)
    : (r: seq<Row<P>>)
    ensures forall j :: 0 <= j < |r| ==> r[j].level >= level
    ensures forall j :: 0 <= j < |r| && r[j].level == level ==> r[j].item in s
    ensures forall j :: 0 <= j < |r| ==> r[j].item in Forest(s) && Visible(r[j].item, m, term)
    ensures forall c :: c in s && Visible(c, m, term) ==> Row(c, level) in r
    decreases s
  {
    if s == [] then []
    else RenderItem(s[0], level, expanded, term, m) + RenderItems(s[1..], level, expanded, term, m)
  }

  /** A list of one item renders as that item. */
  lemma RenderItemsSingle<P>(n: Node<P>, level: nat, expanded: set<Id>, term: string, m: Option<Matcher<P>>)
    ensures RenderItems([n], level, expanded, term, m) == RenderItem(n, level, expanded, term, m)
  {
    assert [n][1..] == [];
  }

  /** The items of the rows at exactly `level`, in order. */
  function RowsAt<P>(r: seq<Row<P>>, level: nat): seq<Node<P>>
    decreases r
  {
    if r == [] then [] else (if r[0].level == level then [r[0].item] else []) + RowsAt(r[1..], level)
  }

  /** The items of a list that a search leaves visible, in order. */
  function VisibleItems<P>(s: seq<Node<P>>, m: Option<Matcher<P>>, term: string): seq<Node<P>>
    decreases s
  {
    if s == [] then [] else (if Visible(s[0], m, term) then [s[0]] else []) + VisibleItems(s[1..], m, term)
  }

  lemma {:induction false} RowsAtAppend<P>(a: seq<Row<P>>, b: seq<Row<P>>, level: nat)
    ensures RowsAt(a + b, level) == RowsAt(a, level) + RowsAt(b, level)
    decreases a
  {
    if a == [] {
      assert a + b == b;
    } else {
      assert (a + b)[0] == a[0] && (a + b)[1..] == a[1..] + b;
      RowsAtAppend(a[1..], b, level);
    }
  }

  lemma {:induction false} RowsAtDeeper<P>(r: seq<Row<P>>, level: nat)
    requires forall j :: 0 <= j < |r| ==> r[j].level > level
    ensures RowsAt(r, level) == []
    decreases r
  {
    if r != [] {
      RowsAtDeeper(r[1..], level);
    }
  }

  /** The rows a list renders at its own level are its visible items, each once and in order. */
  lemma {:induction false} RenderItemsAtLevel<P>(s: seq<Node<P>>, level: nat, expanded: set<Id>, term: string,
                                                m: Option<Matcher<P>>)
    ensures RowsAt(RenderItems(s, level, expanded, term, m), level) == VisibleItems(s, m, term)
    decreases s
  {
    if s != [] {
      var head := RenderItem(s[0], level, expanded, term, m);
      var tail := RenderItems(s[1..], level, expanded, term, m);
      RowsAtAppend(head, tail, level);
      RenderItemsAtLevel(s[1..], level, expanded, term, m);
      if head != [] {
        var below := head[1..];
        assert forall j :: 0 <= j < |below| ==> below[j] == head[j + 1];
        RowsAtDeeper(below, level);
        assert head == [Row(s[0], level)] + below;
        RowsAtAppend([Row(s[0], level)], below, level);
        assert RowsAt([Row(s[0], level)], level) == [s[0]];
      }
    }
  }

  /**
   * The rows an item renders one level below its own are its visible
   * children, in order, when it is shown, expanded and has children, and
   * nothing otherwise.
   */
  lemma RenderItemChildren<P>(n: Node<P>, level: nat, expanded: set<Id>, term: string, m: Option<Matcher<P>>)
    ensures RowsAt(RenderItem(n, level, expanded, term, m), level + 1)
            == if Visible(n, m, term) && n.id in expanded && HasChildren(n)
               then VisibleItems(n.children.nodes, m, term) else []
  {
    var r := RenderItem(n, level, expanded, term, m);
    if Visible(n, m, term) {
      RowsAtAppend([Row(n, level)], r[1..], level + 1);
      assert r == [Row(n, level)] + r[1..];
      if n.id in expanded && HasChildren(n) {
        RenderItemsAtLevel(n.children.nodes, level + 1, expanded, term, m);
      }
    }
  }

  /** `a` occurs in `r` as a contiguous run of rows. */
  ghost predicate IsSegment<T>(a: seq<T>, r: seq<T>)
  {
    exists i, j :: 0 <= i <= j <= |r| && r[i..j] == a
  }

  /** A run of `a` stays a run when rows are added before it, after it, or both. */
  lemma SegmentInConcat<T>(x: seq<T>, a: seq<T>, b: seq<T>)
    requires IsSegment(x, a) || IsSegment(x, b)
    ensures IsSegment(x, a + b)
  {
    if IsSegment(x, a) {
      var i, j :| 0 <= i <= j <= |a| && a[i..j] == x;
      assert (a + b)[i..j] == x;
    } else {
      var i, j :| 0 <= i <= j <= |b| && b[i..j] == x;
      assert (a + b)[|a| + i..|a| + j] == x;
    }
  }

  /** A run of a run is a run. */
  lemma SegmentTrans<T>(x: seq<T>, y: seq<T>, z: seq<T>)
    requires IsSegment(x, y) && IsSegment(y, z)
    ensures IsSegment(x, z)
  {
    var i, j :| 0 <= i <= j <= |y| && y[i..j] == x;
    var k, l :| 0 <= k <= l <= |z| && z[k..l] == y;
    var run := z[k + i..k + j];
    forall t | 0 <= t < |run|
      ensures run[t] == x[t]
    {
      assert run[t] == z[k + i + t] == y[i + t];
    }
    assert run == x;
  }

  /**
   * `items.map(...)` renders every item in full: each item's own rendering,
   * its expanded descendants included, appears unbroken among the list's rows.
   */
  lemma {:induction false} RenderItemsSegments<P>(s: seq<Node<P>>, level: nat, expanded: set<Id>, term: string,
                                                 m: Option<Matcher<P>>)
    ensures forall k :: 0 <= k < |s| ==>
              IsSegment(RenderItem(s[k], level, expanded, term, m), RenderItems(s, level, expanded, term, m))
    decreases s
  {
    if s != [] {
      var head := RenderItem(s[0], level, expanded, term, m);
      var tail := RenderItems(s[1..], level, expanded, term, m);
      RenderItemsSegments(s[1..], level, expanded, term, m);
      forall k | 0 <= k < |s|
        ensures IsSegment(RenderItem(s[k], level, expanded, term, m), head + tail)
      {
        if k == 0 {
          assert head[0..|head|] == head;
          SegmentInConcat(head, head, tail);
        } else {
          assert s[1..][k - 1] == s[k];
          SegmentInConcat(RenderItem(s[k], level, expanded, term, m), head, tail);
        }
      }
    }
  }

  /**
   * A shown, expanded item with children renders every child in full, one
   * level deeper: each child's own rendering appears unbroken among its rows.
   */
  lemma RenderItemChildSegments<P>(n: Node<P>, level: nat, expanded: set<Id>, term: string, m: Option<Matcher<P>>)
    requires Visible(n, m, term) && n.id in expanded && HasChildren(n)
    ensures forall c :: c in n.children.nodes ==>
              IsSegment(RenderItem(c, level + 1, expanded, term, m), RenderItem(n, level, expanded, term, m))
  {
    var cs := n.children.nodes;
    var sub := RenderItems(cs, level + 1, expanded, term, m);
    RenderItemsSegments(cs, level + 1, expanded, term, m);
    forall c | c in cs
      ensures IsSegment(RenderItem(c, level + 1, expanded, term, m), [Row(n, level)] + sub)
    {
      var k :| 0 <= k < |cs| && cs[k] == c;
      SegmentInConcat(RenderItem(c, level + 1, expanded, term, m), [Row(n, level)], sub);
    }
  }

  /** Row `j` hangs under row `i` when the witness is given. */
  lemma ParentAt<P>(r: seq<Row<P>>, i: nat, j: nat, expanded: set<Id>)
    requires i < j < |r|
    requires r[i].level + 1 == r[j].level && r[i].item.id in expanded && HasChildren(r[i].item)
    requires r[j].item in r[i].item.children.nodes
    ensures UnderExpandedParent(r, j, expanded)
  {
  }

  /**
   * Row `j` sits directly under an earlier row whose item is expanded, has
   * children, and lists row `j`'s item among them.
   */
  ghost predicate UnderExpandedParent<P>(r: seq<Row<P>>, j: nat, expanded: set<Id>)
    requires j < |r|
  {
    exists i :: 0 <= i < j && r[i].level + 1 == r[j].level && r[i].item.id in expanded
                && HasChildren(r[i].item) && r[j].item in r[i].item.children.nodes
  }

  /** Every row deeper than `level` hangs under an expanded parent rendered before it. */
  ghost predicate ParentsRendered<P>(r: seq<Row<P>>, level: nat, expanded: set<Id>)
  {
    forall j: nat :: j < |r| && r[j].level > level ==> UnderExpandedParent(r, j, expanded)
  }

  /** Shifting both rows by a common prefix keeps the parent relation. */
  lemma ParentAfterPrefix<P>(a: seq<Row<P>>, b: seq<Row<P>>, j: nat, expanded: set<Id>)
    requires j < |b|
    requires UnderExpandedParent(b, j, expanded)
    ensures UnderExpandedParent(a + b, |a| + j, expanded)
  {
    var i :| 0 <= i < j && b[i].level + 1 == b[j].level && b[i].item.id in expanded
             && HasChildren(b[i].item) && b[j].item in b[i].item.children.nodes;
    assert (a + b)[|a| + i] == b[i] && (a + b)[|a| + j] == b[j];
  }

  /** Rendering an expanded item's children after its own row hangs them under it. */
  lemma PrependParent<P>(n: Node<P>, level: nat, sub: seq<Row<P>>, expanded: set<Id>)
    requires n.id in expanded && HasChildren(n)
    requires forall j :: 0 <= j < |sub| ==> sub[j].level >= level + 1
    requires forall j :: 0 <= j < |sub| && sub[j].level == level + 1 ==> sub[j].item in n.children.nodes
    requires ParentsRendered(sub, level + 1, expanded)
    ensures ParentsRendered([Row(n, level)] + sub, level, expanded)
  {
    forall j: nat | j < |[Row(n, level)] + sub| && ([Row(n, level)] + sub)[j].level > level
      ensures UnderExpandedParent([Row(n, level)] + sub, j, expanded)
    {
      PrependParentRow(n, level, sub, expanded, j);
    }
  }

  /** One row of `PrependParent`: a child row hangs under the item, a deeper one under its own parent. */
  lemma PrependParentRow<P>(n: Node<P>, level: nat, sub: seq<Row<P>>, expanded: set<Id>, j: nat)
    requires n.id in expanded && HasChildren(n)
    requires forall j :: 0 <= j < |sub| && sub[j].level == level + 1 ==> sub[j].item in n.children.nodes
    requires ParentsRendered(sub, level + 1, expanded)
    requires 0 < j <= |sub| && sub[j - 1].level > level
    ensures UnderExpandedParent([Row(n, level)] + sub, j, expanded)
  {
    var r := [Row(n, level)] + sub;
    assert r[j] == sub[j - 1] && r[0] == Row(n, level);
    if sub[j - 1].level == level + 1 {
      ParentAt(r, 0, j, expanded);
    } else {
      var k: nat := j - 1;
      assert UnderExpandedParent(sub, k, expanded);
      ParentAfterPrefix([Row(n, level)], sub, k, expanded);
    }
  }

  /** Rendering two item lists one after the other keeps each row under its parent. */
  lemma ConcatParents<P>(a: seq<Row<P>>, b: seq<Row<P>>, level: nat, expanded: set<Id>)
    requires ParentsRendered(a, level, expanded) && ParentsRendered(b, level, expanded)
    ensures ParentsRendered(a + b, level, expanded)
  {
    var r := a + b;
    forall j: nat | j < |r| && r[j].level > level
      ensures UnderExpandedParent(r, j, expanded)
    {
      if j < |a| {
        assert r[j] == a[j];
        assert UnderExpandedParent(a, j, expanded);
        var i :| 0 <= i < j && a[i].level + 1 == a[j].level && a[i].item.id in expanded
                 && HasChildren(a[i].item) && a[j].item in a[i].item.children.nodes;
        assert r[i] == a[i];
      } else {
        assert r[j] == b[j - |a|];
        assert UnderExpandedParent(b, j - |a|, expanded);
        ParentAfterPrefix(a, b, j - |a|, expanded);
      }
    }
  }

  /** A deeper row of one item's rendering hangs under an expanded parent rendered before it. */
  lemma {:induction false} RenderItemParents<P>(n: Node<P>, level: nat, expanded: set<Id>, term: string,
                                               m: Option<Matcher<P>>)
    ensures ParentsRendered(RenderItem(n, level, expanded, term, m), level, expanded)
    decreases n
  {
    var r := RenderItem(n, level, expanded, term, m);
    if Visible(n, m, term) && n.id in expanded && HasChildren(n) {
      var sub := RenderItems(n.children.nodes, level + 1, expanded, term, m);
      assert r == [Row(n, level)] + sub;
      RenderItemsParents(n.children.nodes, level + 1, expanded, term, m);
      PrependParent(n, level, sub, expanded);
    } else {
      assert |r| <= 1;
    }
  }

  /** Every row below the list's own level hangs under an expanded parent rendered before it. */
  lemma {:induction false} RenderItemsParents<P>(s: seq<Node<P>>, level: nat, expanded: set<Id>, term: string,
                                                m: Option<Matcher<P>>)
    ensures ParentsRendered(RenderItems(s, level, expanded, term, m), level, expanded)
    decreases s
  {
    if s != [] {
      RenderItemParents(s[0], level, expanded, term, m);
      RenderItemsParents(s[1..], level, expanded, term, m);
      ConcatParents(RenderItem(s[0], level, expanded, term, m), RenderItems(s[1..], level, expanded, term, m),
                    level, expanded);
    }
  }

  /**
   * When none of the items is expanded, exactly the visible items render,
   * in order and at the list's level; with the empty term that is every item.
   */
  lemma {:induction false} RenderItemsCollapsed<P>(s: seq<Node<P>>, level: nat, expanded: set<Id>,
                                                  m: Option<Matcher<P>>)
    requires forall k :: 0 <= k < |s| ==> s[k].id !in expanded
    ensures var r := RenderItems(s, level, expanded, "", m);
            |r| == |s| && forall k :: 0 <= k < |s| ==> r[k] == Row(s[k], level)
    decreases s
  {
    if s != [] {
      RenderItemsCollapsed(s[1..], level, expanded, m);
      assert Visible(s[0], m, "");
      assert RenderItem(s[0], level, expanded, "", m) == [Row(s[0], level)];
      assert RenderItems(s, level, expanded, "", m)
             == RenderItem(s[0], level, expanded, "", m) + RenderItems(s[1..], level, expanded, "", m);
    }
  }

  /** What a callback of TreeItem is asked to do, with its argument. */
  datatype Callback<P> =
    | OnToggle(item: Node<P>)
    | OnItemClick(item: Node<P>)
    | OnFocusChange(focusId: string)

  /** The effect of one key press: at most one callback, and whether the browser default is suppressed. */
  datatype KeyResponse<P> = KeyResponse(callback: Option<Callback<P>>, preventDefault: bool)

  /**
   * `handleKeyDown`: ArrowRight expands a collapsed item that has children,
   * ArrowLeft collapses an expanded one, Enter and Space select the item,
   * ArrowDown only suppresses scrolling, and any other key does nothing.
   */
  function HandleKeyDown<P>(n: Node<P>, expanded: set<Id>, key: string): (r: KeyResponse<P>)
    ensures r.callback == Some(OnToggle(n)) <==>
            HasChildren(n) && ((key == "ArrowRight" && n.id !in expanded) || (key == "ArrowLeft" && n.id in expanded))
    ensures r.callback == Some(OnItemClick(n)) <==> key == "Enter" || key == " "
    ensures r.callback.None? || r.callback == Some(OnToggle(n)) || r.callback == Some(OnItemClick(n))
    ensures r.preventDefault <==> r.callback.Some? || key == "ArrowDown"
  {
    var hasChildren := HasChildren(n);
    var isItemExpanded := n.id in expanded;
    if key == "ArrowRight" then
      if hasChildren && !isItemExpanded then KeyResponse(Some(OnToggle(n)), true) else KeyResponse(None, false)
    else if key == "ArrowLeft" then
      if hasChildren && isItemExpanded then KeyResponse(Some(OnToggle(n)), true) else KeyResponse(None, false)
    else if key == "ArrowDown" then
      KeyResponse(None, true)
    else if key == "Enter" || key == " " then
      KeyResponse(Some(OnItemClick(n)), true)
    else
      KeyResponse(None, false)
  }

  /** The parts of a rendered item a pointer can click. */
  datatype ClickTarget = ToggleButton | Label | ItemRow

  /**
   * The callbacks one click fires, innermost handler first.  The toggle
   * button and the label sit inside the row, so the click bubbles on to the
   * row's handler, which reports the row's id as the focused one.  `None`
   * when the target is not rendered: the toggle button exists only for an
   * item with children.
   */
  function HandleClick<P>(n: Node<P>, rowId: string, target: ClickTarget): (r: Option<seq<Callback<P>>>)
    ensures r.None? <==> target == ToggleButton && !HasChildren(n)
    ensures r.Some? ==> |r.value| == (if target == ItemRow then 1 else 2)
    ensures r.Some? ==> r.value[|r.value| - 1] == OnFocusChange(rowId)
    ensures r.Some? ==> (OnToggle(n) in r.value <==> target == ToggleButton)
    ensures r.Some? ==> (OnItemClick(n) in r.value <==> target == Label)
    ensures r.Some? ==> forall c :: c in r.value ==> c in {OnToggle(n), OnItemClick(n), OnFocusChange(rowId)}
  {
    match target
    case ToggleButton =>
      if HasChildren(n) then Some([OnToggle(n), OnFocusChange(rowId)]) else None
    case Label => Some([OnItemClick(n), OnFocusChange(rowId)])
    case ItemRow => Some([OnFocusChange(rowId)])
  }
}
