/**
 * The widget's test scenarios, stated as lemmas about the model: the
 * Plantae -> Rosaceae -> Malus domestica tree of the component tests, and
 * two small trees on which the early-stopping expansion leaves a parent of
 * a match collapsed.
 */
module TreeScenarios {
  import opened TreeData
  import opened TreeItem
  import opened TreeIndex
  import opened TaxonomyTree

  const Species: TaxonomyItem := Node(3, Taxon("Species", "Malus domestica", "Apple tree"), Defined([]))
  const Family: TaxonomyItem := Node(2, Taxon("Family", "Rosaceae", "Rose family"), Defined([Species]))
  const Kingdom: TaxonomyItem := Node(1, Taxon("Kingdom", "Plantae", "Plants"), Defined([Family]))
  const MockData: seq<TaxonomyItem> := [Kingdom]

  /** Two letters that never stand side by side in `hay` rule out every `needle` starting with them. */
  lemma NoLetterPair(needle: string, hay: string)
    requires |needle| >= 2
    requires forall i :: 0 <= i < |hay| - 1 ==> hay[i] != needle[0] || hay[i + 1] != needle[1]
    ensures !Includes(hay, needle)
  {
    forall i | 0 <= i <= |hay| - |needle|
      ensures !(needle <= hay[i..])
    {
      assert hay[i] != needle[0] || hay[i + 1] != needle[1];
    }
  }

  lemma LowerApple() ensures ToLower("apple") == "apple" {}

  /** Lower-cased, `field` never has an "a" right before a "p". */
  ghost predicate NoAP(field: string)
  {
    forall i :: 0 <= i < |field| - 1 ==> LowerChar(field[i]) != 'a' || LowerChar(field[i + 1]) != 'p'
  }

  /** "apple" does not occur in such a field. */
  lemma AppleNotIn(field: string)
    requires NoAP(field)
    ensures !Includes(ToLower(field), ToLower("apple"))
  {
    LowerApple();
    NoLetterPair("apple", ToLower(field));
  }

  /** "apple" matches an item whose common name is "Apple tree", as the species' is. */
  lemma AppleMatchesAppleTree(item: TaxonomyItem)
    requires item.payload.commonName == "Apple tree"
    ensures SearchFilter(item, "apple")
  {
    LowerApple();
    assert ToLower("Apple tree") == "apple tree";
    assert Includes("apple tree", "apple");
  }

  /** "apple" matches no item none of whose three fields has an "a" right before a "p". */
  lemma AppleMissesItem(item: TaxonomyItem)
    requires NoAP(item.payload.name) && NoAP(item.payload.commonName) && NoAP(item.payload.taxon)
    ensures !SearchFilter(item, "apple")
  {
    AppleNotIn(item.payload.name);
    AppleNotIn(item.payload.commonName);
    AppleNotIn(item.payload.taxon);
    assert !Includes(ToLower(item.payload.name), ToLower("apple"));
    assert !Includes(ToLower(item.payload.commonName), ToLower("apple"));
    assert !Includes(ToLower(item.payload.taxon), ToLower("apple"));
  }

  /** On the test tree "apple" matches the species and neither of its ancestors. */
  lemma AppleMatchesOnlySpecies()
    ensures SearchFilter(Species, "apple")
    ensures !SearchFilter(Family, "apple") && !SearchFilter(Kingdom, "apple")
  {
    AppleMatchesAppleTree(Species);
    RosaceaeHasNoAP(Family);
    AppleMissesItem(Family);
    PlantaeHasNoAP(Kingdom);
    AppleMissesItem(Kingdom);
  }

  lemma RosaceaeHasNoAP(item: TaxonomyItem)
    requires item.payload == Taxon("Family", "Rosaceae", "Rose family")
    ensures NoAP(item.payload.name) && NoAP(item.payload.commonName) && NoAP(item.payload.taxon)
  {
  }

  lemma PlantaeHasNoAP(item: TaxonomyItem)
    requires item.payload == Taxon("Kingdom", "Plantae", "Plants")
    ensures NoAP(item.payload.name) && NoAP(item.payload.commonName) && NoAP(item.payload.taxon)
  {
  }

  /**
   * A chain of three items in which only the last matches: the walk opens
   * the top and the middle item.
   */
  lemma ChainExpansion<P>(top: Node<P>, middle: Node<P>, leaf: Node<P>, m: Option<Matcher<P>>, term: string)
    requires top.children == Defined([middle]) && middle.children == Defined([leaf])
    requires !Matches(m, middle, term) && Matches(m, leaf, term)
    ensures MatchingParents([top], m, term) == {top.id, middle.id}
  {
    assert SomeChild(middle, [leaf], m, term) == Walk(true, {middle.id});
    assert Process(middle, m, term) == Walk(true, {middle.id});
    assert SomeChild(top, [middle], m, term) == Walk(true, {middle.id, top.id});
    assert [top][1..] == [];
  }

  /** With the top and the middle item expanded, the chain shows all three levels. */
  lemma ChainRender<P>(top: Node<P>, middle: Node<P>, leaf: Node<P>, e: set<Id>, m: Option<Matcher<P>>, term: string)
    requires top.children == Defined([middle]) && middle.children == Defined([leaf]) && leaf.children == Defined([])
    requires top.id in e && middle.id in e && Matches(m, leaf, term)
    ensures RenderItems([top], 0, e, term, m) == [Row(top, 0), Row(middle, 1), Row(leaf, 2)]
  {
    ForestSingle(leaf);
    ForestSingle(middle);
    assert leaf in Subtree(leaf);
    assert leaf in Subtree(middle);
    assert leaf in Subtree(top);
    RenderItemsSingle(leaf, 2, e, term, m);
    RenderItemsSingle(middle, 1, e, term, m);
    RenderItemsSingle(top, 0, e, term, m);
    assert RenderItem(leaf, 2, e, term, m) == [Row(leaf, 2)];
    assert RenderItem(middle, 1, e, term, m) == [Row(middle, 1), Row(leaf, 2)];
  }

  /** Searching "apple" expands exactly Plantae and Rosaceae. */
  lemma AppleExpandsKingdomAndFamily()
    ensures MatchingParents(MockData, Some(SearchFilter), "apple") == {Kingdom.id, Family.id}
  {
    AppleMatchesOnlySpecies();
    ChainExpansion(Kingdom, Family, Species, Some(SearchFilter), "apple");
  }

  /** After that search all three levels are shown, each one deeper than its parent. */
  lemma AppleSearchShowsPath()
    ensures RenderItems(MockData, 0, {Kingdom.id, Family.id}, "apple", Some(SearchFilter))
            == [Row(Kingdom, 0), Row(Family, 1), Row(Species, 2)]
  {
    AppleMatchesAppleTree(Species);
    ChainRender(Kingdom, Family, Species, {Kingdom.id, Family.id}, Some(SearchFilter), "apple");
  }

  /** Without a search only Plantae is shown; one toggle reveals Rosaceae and a second hides it. */
  lemma ToggleRevealsAndHidesFamily()
    ensures RenderItems(MockData, 0, {}, "", None) == [Row(Kingdom, 0)]
    ensures RenderItems(MockData, 0, Toggled({}, Kingdom.id), "", None) == [Row(Kingdom, 0), Row(Family, 1)]
    ensures Toggled(Toggled({}, Kingdom.id), Kingdom.id) == {}
  {
    RenderItemsCollapsed(MockData, 0, {}, None);
    RenderItemsCollapsed([Family], 1, {Kingdom.id}, None);
    assert Toggled({}, Kingdom.id) == {Kingdom.id};
  }

  /** ArrowRight on collapsed Plantae toggles it open; ArrowLeft then toggles it closed. */
  lemma KeyboardOpensAndClosesKingdom()
    ensures HandleKeyDown(Kingdom, {}, "ArrowRight").callback == Some(OnToggle(Kingdom))
    ensures ExpandedAfter({}, HandleKeyDown(Kingdom, {}, "ArrowRight").callback) == {Kingdom.id}
    ensures HandleKeyDown(Kingdom, {Kingdom.id}, "ArrowLeft").callback == Some(OnToggle(Kingdom))
    ensures ExpandedAfter({Kingdom.id}, HandleKeyDown(Kingdom, {Kingdom.id}, "ArrowLeft").callback) == {}
  {
    assert HasChildren(Kingdom);
  }

  /** Clicking Plantae's label hands Plantae itself to `onItemClick`, then reports the row's focus. */
  lemma LabelClickPassesTheItem(rowId: string)
    ensures HandleClick(Kingdom, rowId, Label) == Some([OnItemClick(Kingdom), OnFocusChange(rowId)])
  {
  }

  /** The single-item test: a Plantae whose only child has no child list still shows a toggle button. */
  lemma ToggleButtonPassesTheItem(rowId: string)
    ensures var item := Node(1, Taxon("Kingdom", "Plantae", "Plants"),
                             Defined([Node(2, Taxon("Family", "Rosaceae", "Rose family"), Defined([]))]));
            && HandleClick(item, rowId, ToggleButton) == Some([OnToggle(item), OnFocusChange(rowId)])
            && HandleKeyDown(item, {}, "ArrowRight").callback == Some(OnToggle(item))
  {
  }

  /**
   * Later siblings are skipped: the root's first child matches, so the walk
   * never reaches the second child, whose own child matches too.  The second
   * child stays collapsed and its matching child is not shown.
   */
  lemma SkippedSibling<P>(root: Node<P>, first: Node<P>, second: Node<P>, deep: Node<P>,
                          m: Option<Matcher<P>>, term: string)
    requires root.children == Defined([first, second]) && first.children == Defined([])
    requires second.children == Defined([deep]) && second.id != root.id
    requires Matches(m, first, term) && Matches(m, deep, term)
    ensures MatchingParents([root], m, term) == {root.id}
    ensures second.id in AncestorsOfMatches(Forest([root]), m, term)
    ensures RenderItems([root], 0, {root.id}, term, m) == [Row(root, 0), Row(first, 1), Row(second, 1)]
  {
    MatchingChildNotEntered(root, [first, second], 0, m, term);
    assert [first, second][..0] == [];
    assert [root][1..] == [];
    ForestSingle(deep);
    ForestSingle(root);
    assert deep in Below(second.children);
    RootsInForest([first, second], 1);
    assert second in Forest([root]);
    SkippedSiblingRows(root, first, second, deep, m, term);
  }

  /** The rendering half of `SkippedSibling`. */
  lemma SkippedSiblingRows<P>(root: Node<P>, first: Node<P>, second: Node<P>, deep: Node<P>,
                              m: Option<Matcher<P>>, term: string)
    requires root.children == Defined([first, second]) && first.children == Defined([])
    requires second.children == Defined([deep]) && second.id != root.id
    requires Matches(m, first, term) && Matches(m, deep, term)
    ensures RenderItems([root], 0, {root.id}, term, m) == [Row(root, 0), Row(first, 1), Row(second, 1)]
  {
    var e := {root.id};
    ForestSingle(deep);
    assert first in Subtree(first);
    assert RenderItem(first, 1, e, term, m) == [Row(first, 1)];
    assert deep in Subtree(second);
    assert RenderItem(second, 1, e, term, m) == [Row(second, 1)];
    RenderItemsSingle(second, 1, e, term, m);
    assert [first, second][1..] == [second];
    assert RenderItems([first, second], 1, e, term, m) == [Row(first, 1), Row(second, 1)];
    assert first in Subtree(root);
    RenderItemsSingle(root, 0, e, term, m);
  }

  /** The matcher of the two small trees below: payload 1 marks a matching item. */
  function PayloadOne(n: Node<int>, term: string): bool
  {
    n.payload == 1
  }

  const Leaf1: Node<int> := Node(11, 1, Defined([]))
  const Deep: Node<int> := Node(13, 1, Undefined)
  const Middle: Node<int> := Node(12, 0, Defined([Deep]))
  const Root: Node<int> := Node(10, 0, Defined([Leaf1, Middle]))

  /** On a concrete tree: Middle holds a match below it, yet the search leaves it collapsed. */
  lemma SkippedSiblingStaysCollapsed()
    ensures MatchingParents([Root], Some(PayloadOne), "x") == {Root.id}
    ensures Middle.id in AncestorsOfMatches(Forest([Root]), Some(PayloadOne), "x")
    ensures RenderItems([Root], 0, {Root.id}, "x", Some(PayloadOne))
            == [Row(Root, 0), Row(Leaf1, 1), Row(Middle, 1)]
  {
    SkippedSibling(Root, Leaf1, Middle, Deep, Some(PayloadOne), "x");
  }

  const Deep2: Node<int> := Node(22, 1, Undefined)
  const Middle2: Node<int> := Node(21, 1, Defined([Deep2]))
  const Root2: Node<int> := Node(20, 0, Defined([Middle2]))

  /** A matching child is not walked into: Middle2 matches, so its matching child Deep2 never opens it. */
  lemma MatchingChildStaysCollapsed()
    ensures MatchingParents([Root2], Some(PayloadOne), "x") == {Root2.id}
    ensures Middle2.id in AncestorsOfMatches(Forest([Root2]), Some(PayloadOne), "x")
  {
    var m := Some(PayloadOne);
    assert SomeChild(Root2, [Middle2], m, "x") == Walk(true, {Root2.id});
    assert [Root2][1..] == [];
    ForestSingle(Deep2);
    ForestSingle(Root2);
    ForestSingle(Middle2);
    assert Deep2 in Below(Middle2.children);
    assert Middle2 in Forest([Root2]);
  }

  /** With an empty term Plantae alone shows while collapsed, and Rosaceae joins it once Plantae is expanded. */
  lemma MockDataUnsearched(m: Option<Matcher<Taxon>>)
    ensures RenderItems(MockData, 0, {}, "", m) == [Row(Kingdom, 0)]
    ensures RenderItems(MockData, 0, {Kingdom.id}, "", m) == [Row(Kingdom, 0), Row(Family, 1)]
  {
    RenderItemsCollapsed(MockData, 0, {}, m);
    RenderItemsCollapsed([Family], 1, {Kingdom.id}, m);
    RenderItemsSingle(Kingdom, 0, {Kingdom.id}, "", m);
  }

  /**
   * The component tests, driven through the Tree's handlers: what is shown
   * at first, after one toggle of Plantae, after a second toggle, and after
   * searching "apple"; clearing the search then collapses everything, and a
   * click on a row records its id as the focused one.
   */
  method TreeComponentScenario() returns (atStart: seq<Row<Taxon>>, afterToggle: seq<Row<Taxon>>,
                                          afterSecondToggle: seq<Row<Taxon>>, afterSearch: seq<Row<Taxon>>,
                                          afterClear: seq<Row<Taxon>>, focus: string)
    ensures atStart == [Row(Kingdom, 0)]
    ensures afterToggle == [Row(Kingdom, 0), Row(Family, 1)]
    ensures afterSecondToggle == [Row(Kingdom, 0)]
    ensures afterSearch == [Row(Kingdom, 0), Row(Family, 1), Row(Species, 2)]
    ensures afterClear == [Row(Kingdom, 0)]
    ensures focus == "tree-item-1"
  {
    var m := Some(SearchFilter);
    MockDataUnsearched(m);
    AppleExpandsKingdomAndFamily();
    AppleSearchShowsPath();

    var tree := new Tree(MockData, m);
    atStart := tree.Render();

    tree.HandleToggle(Kingdom);
    assert tree.expandedItems == {Kingdom.id};
    afterToggle := tree.Render();

    tree.HandleToggle(Kingdom);
    assert tree.expandedItems == {};
    afterSecondToggle := tree.Render();

    tree.HandleSearchTermChange("apple");
    afterSearch := tree.Render();

    tree.HandleSearchTermChange("");
    afterClear := tree.Render();

    tree.OnFocusChange("tree-item-1");
    focus := tree.focusedItemId;
  }
}
