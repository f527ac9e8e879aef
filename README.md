# custom-tree: expansion, search and visibility of the tree widget

This project models the core of a generic React tree widget and the taxonomy
demo built on it:

- the `Tree` component (`src/components/Tree/Index.tsx`): its state (search
  term, expanded items, focused row id), `handleToggle`, the search-driven
  `expandMatchingParents` walk with its early stopping, `handleSearchTermChange`,
  `onFocusChange` and the root-level rendering of `items`;
- the `TreeItem` component (`src/components/Tree/TreeItem.tsx`): `hasChildren`,
  `isItemExpanded`, the recursive `hasMatchingDescendant`, the rule that hides
  an item during a search, the recursive rendering of an expanded item's
  children one level deeper, the keyboard handler and the click handlers;
- the taxonomy demo's `searchFilter` (`src/components/TaxonomyTree.tsx`):
  case-insensitive substring search over `name`, `common_name` and `taxon`.

Items are `TreeData.Node` values. Each one has an `id` that stands for the
object identity the widget uses as key of its expanded `Set`: distinct items
carry distinct ids, and equal ids stand for one shared object. Each also has an opaque
payload, and a child list that is either absent (`Undefined`) or an array
(`Defined`). `getChildren(item)` is that child list, as the demo's
`handleGetChildren` returns `item.children`. The optional `searchFilter`
prop is `Option<Matcher<P>>`. `None` answers false for every item, which is
what `searchFilter?.(…)` does when the prop is absent. It is also TreeItem's
default `itemMatchesSearch = () => false`.

The rendered output is a sequence of rows `Row(item, level)` in document
order. `TreeItem.RenderItem` and `TreeItem.RenderItems` are the recursive
component and the `map` over a child list. `TreeIndex.Tree.Render` is the
root-level map.

The expansion walk is modelled twice:

- `TreeIndex.Process`, `TreeIndex.SomeChild` and `TreeIndex.MatchingParents`
  are pure functions. They follow `processItem`, `children.some(…)` and
  `items.forEach(…)` branch for branch, including the early stopping.
- `TreeIndex.ExpansionWalk` is a class. It holds the closure's `newExpanded`
  set and updates it in place. `TreeIndex.Tree.ExpandMatchingParents` drives it
  over the roots.

The methods are proved to compute exactly what the functions compute. The
functions are proved sound against `TreeIndex.AncestorsOfMatches`, the set of
items with a matching descendant. They are also proved to include every root
that has a matching descendant. Two scenario lemmas show that the inclusion is
strict.

`TreeScenarios` restates the component tests on their own Plantae → Rosaceae →
Malus domestica data.

## Model

| member | source | states |
|---|---|---|
| TreeItem.HasChildren | src/components/Tree/TreeItem.tsx:55-56 | an item has children exactly when its child list is defined and contains at least one node |
| TreeItem.HasMatchingDescendant | src/components/Tree/TreeItem.tsx:60-71 | true exactly when some node anywhere below the child list (children, grandchildren, …) is accepted by the matcher; false for an absent list |
| TreeItem.SomeDescendantMatches | src/components/Tree/TreeItem.tsx:64-68 | the `items.some` over a child array is true exactly when some node of the array's subtrees matches |
| TreeItem.Visible | src/components/Tree/TreeItem.tsx:103-110 | an item is rendered exactly when the term is empty or the item or some node below it matches |
| TreeItem.DefaultMatcherHidesAll | src/components/Tree/TreeItem.tsx:49 | with the default matcher `() => false` an item is shown exactly when the term is empty |
| TreeItem.RenderItem | src/components/Tree/TreeItem.tsx:103-167 | a hidden item renders nothing; a shown item renders its own row first at its level, then only rows deeper than its level; every row is a node of its subtree and is itself visible; a shown, expanded item with children renders a row one level deeper for each of its visible children |
| TreeItem.RenderItems | src/components/Tree/TreeItem.tsx:144-164 | the rows of a child array are all at least at the given level; those at that level are the array's own items; every visible item of the array has its row at that level; every row is a visible node of the array's subtrees |
| TreeItem.RenderItemsAtLevel | src/components/Tree/TreeItem.tsx:146-162 | the rows a child array renders at its own level are exactly its visible items, each once, in array order |
| TreeItem.RenderItemChildren | src/components/Tree/TreeItem.tsx:144-164 | the rows an item renders one level below its own are exactly its visible children, in order, when it is shown, expanded and has children, and there are none otherwise |
| TreeItem.RenderItemsSegments | src/components/Tree/TreeItem.tsx:146-162 | every item of a list is rendered in full: its own rendering, with all its expanded descendants, appears unbroken among the list's rows |
| TreeItem.RenderItemChildSegments | src/components/Tree/TreeItem.tsx:144-162 | a shown, expanded item with children renders every child in full one level deeper: each child's own rendering, with all its expanded descendants, appears unbroken among the item's rows |
| TreeItem.RenderItemParents | src/components/Tree/TreeItem.tsx:144-162 | every row deeper than an item's own row sits directly under an earlier row whose item is expanded, has children and lists the row's item among them |
| TreeItem.RenderItemsParents | src/components/Tree/TreeItem.tsx:146-162 | the same parent rule holds for the rows of a whole child array |
| TreeItem.RenderItemsCollapsed | src/components/Tree/TreeItem.tsx:144 | with an empty term and no item of the array expanded, the array renders exactly one row per item, in order, at the given level |
| TreeItem.HandleKeyDown | src/components/Tree/TreeItem.tsx:74-101 | ArrowRight toggles exactly a collapsed item with children; ArrowLeft toggles exactly an expanded one; Enter and Space call `onItemClick` with the item; no other callback fires; the default is prevented exactly when a callback fires or the key is ArrowDown |
| TreeItem.HandleClick | src/components/Tree/TreeItem.tsx:125-141 | the toggle button exists only for an item with children and calls `onToggle` with the item; the label calls `onItemClick` with the item; each handler fires once: a button or label click yields exactly two callbacks and a click on the row itself one; every click ends with the row reporting its own id to `onFocusChange` |
| TreeIndex.Toggled | src/components/Tree/Index.tsx:64-74 | the toggled id's membership flips and every other id's membership is unchanged |
| TreeIndex.ToggleTwice | src/components/Tree/Index.tsx:64-74 | toggling the same item twice restores the expanded set |
| TreeIndex.Process | src/components/Tree/Index.tsx:81-95 | `processItem` returns true exactly when the item has a defined child list and it or some node below it matches |
| TreeIndex.SomeChild | src/components/Tree/Index.tsx:85-92 | `children.some` is true exactly when some node of the children's subtrees matches, and in that case the parent has been added |
| TreeIndex.ProcessSound | src/components/Tree/Index.tsx:81-95 | every item one walk adds is a node of the walked subtree that has a matching descendant |
| TreeIndex.SomeChildSound | src/components/Tree/Index.tsx:85-92 | every item the walk over a child array adds is the parent or a node of the children's subtrees, and has a matching descendant |
| TreeIndex.MatchingParentsSound | src/components/Tree/Index.tsx:77-101 | `expandMatchingParents` only expands items that have a matching descendant |
| TreeIndex.MatchingParentsHasRoots | src/components/Tree/Index.tsx:97 | every root that has a matching descendant is expanded |
| TreeIndex.NoMatchNoExpansion | src/components/Tree/Index.tsx:77-101 | when no node of the forest matches, nothing is expanded |
| TreeIndex.NoMatcherNoExpansion | src/components/Tree/Index.tsx:87 | without a `searchFilter` prop nothing is expanded |
| TreeIndex.LaterSiblingsNotVisited | src/components/Tree/Index.tsx:85-92 | once a child matches or qualifies, the children after it do not change the walk's result, so nothing below them is added |
| TreeIndex.MatchingChildNotEntered | src/components/Tree/Index.tsx:85-92 | when the first child that matches or qualifies is a matching child at position k, the walk adds the parent and what the walks of the children before k added, and nothing from below that child or after it |
| TreeIndex.MatchingParents | src/components/Tree/Index.tsx:97-98 | the set `forEach` collects is the union of what the walk of each root adds: it contains every root's additions and nothing that no root's walk added |
| TreeIndex.MatchingParentsAppend | src/components/Tree/Index.tsx:97 | walking the roots one after another adds the union of what each walk adds |
| TreeIndex.AncestorsOfMatchesMono | src/components/Tree/Index.tsx:77-101 | the reference set of parents to open grows with the set of nodes considered |
| TreeIndex.ExpansionWalk.constructor | src/components/Tree/Index.tsx:79 | a walk starts with an empty `newExpanded` and captures the matcher and the term |
| TreeIndex.ExpansionWalk.ProcessItem | src/components/Tree/Index.tsx:81-95 | the in-place walk returns what `Process` returns and adds exactly the items `Process` adds to `newExpanded` |
| TreeIndex.Tree.ExpandMatchingParents | src/components/Tree/Index.tsx:77-101 | the set returned is exactly `MatchingParents` of the roots |
| TreeIndex.Tree.HandleSearchTermChange | src/components/Tree/Index.tsx:104-114 | the term is stored; the expanded set is replaced, by the empty set for the empty term and by the search's parents otherwise |
| TreeIndex.Tree.HandleToggle | src/components/Tree/Index.tsx:64-74 | the expanded set becomes the old set with the item's membership flipped |
| TreeIndex.Tree.OnFocusChange | src/components/Tree/Index.tsx:117-119 | the focused id becomes the given id |
| TreeIndex.Tree.constructor | src/components/Tree/Index.tsx:59-61 | a fresh tree has an empty term, nothing expanded and no focus, and it shows exactly the roots, in order, at level 0 |
| TreeIndex.Tree.Render | src/components/Tree/Index.tsx:137-153 | the rows at level 0 are exactly the visible roots, each once and in order; every root's own rendering, with all its expanded descendants, appears unbroken among the rows; every deeper row sits directly under an expanded parent row rendered before it |
| TreeIndex.ExpandedAfter | src/components/Tree/Index.tsx:148 | a toggle callback, wired to `handleToggle`, flips exactly the toggled item's membership; any other callback, or none, leaves the expanded set as it was |
| TreeIndex.KeysOnChildlessItem | src/components/Tree/TreeItem.tsx:77-88 | no key press changes the expanded set through an item without children |
| TreeIndex.ArrowRightThenLeft | src/components/Tree/TreeItem.tsx:77-88 | on an item with children, ArrowRight leaves it expanded and ArrowLeft then collapses it, with no other item affected |
| TaxonomyTree.LowerChar | src/components/TaxonomyTree.tsx:38 | lower-casing a character yields no upper-case ASCII letter; an upper-case letter moves to its lower-case partner and every other character is kept |
| TaxonomyTree.ToLower | src/components/TaxonomyTree.tsx:38-42 | `toLowerCase` keeps the length, lower-cases each character in place and leaves no upper-case ASCII letter |
| TaxonomyTree.ToLowerIdempotent | src/components/TaxonomyTree.tsx:38-42 | lower-casing twice gives the same string as lower-casing once |
| TaxonomyTree.Includes | src/components/TaxonomyTree.tsx:40-42 | `includes` is true exactly when the needle occurs at some position of the string |
| TaxonomyTree.SearchFilter | src/components/TaxonomyTree.tsx:37-44 | an item matches exactly when the lower-cased term occurs in the lower-cased name, common name or taxon |
| TaxonomyTree.EmptyTermMatchesAll | src/components/TaxonomyTree.tsx:37-44 | the empty term matches every item |
| TaxonomyTree.SearchFilterIgnoresCase | src/components/TaxonomyTree.tsx:38 | two terms that differ only in letter case give the same answer |
| TaxonomyTree.SearchFilterOfLowered | src/components/TaxonomyTree.tsx:38 | lower-casing the term first changes nothing |
| TaxonomyTree.SubstringOfSubstring | src/components/TaxonomyTree.tsx:40-42 | a piece of an occurring needle also occurs |
| TaxonomyTree.SubstringOfTermMatches | src/components/TaxonomyTree.tsx:37-44 | if a term matches an item, every substring of the term matches it too |
| TreeScenarios.AppleMatchesOnlySpecies | src/components/__tests__/Tree.test.tsx:11-32 | on the test data "apple" matches Malus domestica, through its common name, and matches neither Rosaceae nor Plantae |
| TreeScenarios.ChainExpansion | src/components/Tree/Index.tsx:81-95 | in a chain of three items where only the last matches, the search expands exactly the top and the middle item |
| TreeScenarios.ChainRender | src/components/Tree/TreeItem.tsx:144-162 | with the top and middle item of such a chain expanded, the three items are shown at levels 0, 1 and 2 |
| TreeScenarios.AppleExpandsKingdomAndFamily | src/components/Tree/Index.tsx:104-114 | searching "apple" on the test data expands exactly Plantae and Rosaceae |
| TreeScenarios.AppleSearchShowsPath | src/components/Tree/TreeItem.tsx:103-162 | after that search Plantae, Rosaceae and Malus domestica are shown at levels 0, 1 and 2 |
| TreeScenarios.ToggleRevealsAndHidesFamily | src/components/__tests__/Tree.test.tsx:45-68 | only Plantae is shown at first; one toggle shows Rosaceae below it, and a second toggle restores the empty expanded set |
| TreeScenarios.KeyboardOpensAndClosesKingdom | src/components/__tests__/Tree.test.tsx:70-83 | ArrowRight on collapsed Plantae toggles it open and ArrowLeft then toggles it closed |
| TreeScenarios.LabelClickPassesTheItem | src/components/__tests__/Tree.test.tsx:85-93 | clicking Plantae's label calls `onItemClick` with Plantae itself, then reports the row's focus |
| TreeScenarios.ToggleButtonPassesTheItem | src/components/__tests__/TreeItem.test.tsx:36-55 | the toggle button and ArrowRight both call `onToggle` with the item itself |
| TreeScenarios.MockDataUnsearched | src/components/__tests__/Tree.test.tsx:45-68 | with no search Plantae alone is shown while collapsed, and Rosaceae appears below it once Plantae is expanded |
| TreeScenarios.TreeComponentScenario | src/components/__tests__/Tree.test.tsx:45-93 | driving a Tree over the test data through its handlers: Plantae alone at first; Plantae and Rosaceae after one toggle; Plantae alone after the second; all three levels after searching "apple"; Plantae alone after clearing the search; the clicked row's id as the focus |
| TreeScenarios.SkippedSibling | src/components/Tree/Index.tsx:85-92 | when a root's first child matches, its second child is left collapsed although a node below it matches; that child is still shown but its matching child is not |
| TreeScenarios.SkippedSiblingStaysCollapsed | src/components/Tree/Index.tsx:85-92 | the same on a concrete four-node tree: the search expands only the root |
| TreeScenarios.MatchingChildStaysCollapsed | src/components/Tree/Index.tsx:86-87 | a child that matches is not walked into, so it stays collapsed although its own child matches too |

## Left out

- Markup, styling, `indentSize`, ARIA attributes, icons and `ItemRenderer` are not modelled. Rows carry only the item and its level.
- The loading indicator, the error text and the "No results found" message are not modelled. They show props and do not change state.
- Row ids come from `uuidv4()` in the source. The model takes them as parameters (`rowId`), because randomness is outside the model.
- The demo's `fetchData` is left out because it is network I/O. `handleItemClick` is left out because it only logs.
- `toLowerCase` maps only the ASCII letters A–Z in the model. Unicode case mapping is not modelled.
- React hooks, memoisation, state batching and re-rendering are not modelled. Each handler updates the state at once, and the props (`items`, `searchFilter`, `getChildren`) are fixed for the life of a `Tree`.
- `handleGetChildren` has no member of its own. It returns `item.children`, and in the model that field is the child list.
- The ArrowDown handler's focus move is commented out in the source. The model keeps only its `preventDefault`.
- The component tests pass a `getChildren` that maps an absent child list to `[]`. The scenarios therefore use empty child lists where the test data leaves them out.
- Distinct ids for distinct items are assumed, not enforced. Two different `Node` values with the same `id` would be toggled and expanded together, where the source's `Set` keys each object on its own.
- Item trees are finite and acyclic: `Node` cannot express a `getChildren` that leads back to an item. On such a cycle the source's `hasMatchingDescendant` and `processItem` would recurse without end.
- `test.py` and the `Input`, `Loading` and `App` components are not part of this model.
- An idealised search would expand every ancestor of a match. The code expands a subset of them because `some` stops early and a matching child is not walked into. The model follows the code, and `TreeScenarios.SkippedSibling` and `TreeScenarios.MatchingChildStaysCollapsed` show the difference.
