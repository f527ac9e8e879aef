/**
 * The item model of the generic tree widget: a node has an identity, an
 * opaque payload and a child list that is either absent or an array.
 *
 * The widget keys its expanded set by object identity; here every node
 * carries an `Id` that stands for that identity.  `getChildren(item)` is the
 * `children` field, and `undefined` is kept apart from `[]` because the
 * expansion walk stops only on the former.
 */
module TreeData {

  datatype Option<T> = None | Some(value: T)

  /** Stands for the object identity of an item. */
  type Id = nat

  /** What `getChildren(item)` returns: `undefined` or an array of items. */
  datatype Children<P> = Undefined | Defined(nodes: seq<Node<P>>)

  datatype Node<P> = Node(id: Id, payload: P, children: Children<P>)

  /** The search predicate `(item, term) -> boolean` an embedding application supplies. */
  type Matcher<!P> = (Node<P>, string) -> bool

  /**
   * Whether an optional matcher accepts `n`.  An absent matcher answers false:
   * `searchFilter?.(item, term)` is `undefined` (falsy) and TreeItem's default
   * `itemMatchesSearch` is `() => false`.
   */
  predicate Matches<P>(m: Option<Matcher<P>>, n: Node<P>, term: string)
  {
    m.Some? && m.value(n, term)
  }

  /** `n` followed by every node below it, in pre-order. */
  ghost function Subtree<P>(n: Node<P>): seq<Node<P>>
    decreases n
  {
    [n] + Below(n.children)
  }

  /** Every node below a child list: none for an absent list. */
  ghost function Below<P>(cs: Children<P>): seq<Node<P>>
    decreases cs
  {
    match cs
    case Undefined => []
    case Defined(s) => Forest(s)
  }

  /** Every node of a sequence of trees, in pre-order. */
  ghost function Forest<P>(s: seq<Node<P>>): seq<Node<P>>
    decreases s
  {
    if s == [] then [] else Subtree(s[0]) + Forest(s[1..])
  }

  /** A forest of one tree is that tree. */
  lemma ForestSingle<P>(n: Node<P>)
    ensures Forest([n]) == Subtree(n)
  {
    assert [n][1..] == [];
  }

  /** A node lies in a forest exactly when it lies in the subtree of one of its roots. */
  lemma {:induction false} InForest<P>(s: seq<Node<P>>, d: Node<P>)
    ensures d in Forest(s) <==> exists k :: 0 <= k < |s| && d in Subtree(s[k])
    decreases s
  {
    if s != [] {
      InForest(s[1..], d);
      if d in Forest(s[1..]) {
        var k :| 0 <= k < |s[1..]| && d in Subtree(s[1..][k]);
        assert s[k + 1] == s[1..][k];
      }
      forall k | 0 <= k < |s| && d in Subtree(s[k])
        ensures d in Forest(s)
      {
        if k > 0 {
          assert s[1..][k - 1] == s[k];
        }
      }
    }
  }

  /** Every root of a forest lies in it, and so does everything below a root. */
  lemma RootsInForest<P>(s: seq<Node<P>>, k: nat)
    requires k < |s|
    ensures s[k] in Forest(s)
    ensures forall d :: d in Below(s[k].children) ==> d in Forest(s)
  {
    InForest(s, s[k]);
    forall d | d in Below(s[k].children)
      ensures d in Forest(s)
    {
      InForest(s, d);
    }
  }

  /** Subtrees nest: whatever lies below a node of a forest lies in the forest too. */
  lemma {:induction false} ForestClosed<P>(s: seq<Node<P>>, a: Node<P>, d: Node<P>)
    requires a in Forest(s)
    requires d in Below(a.children)
    ensures d in Forest(s)
    decreases s
  {
    InForest(s, a);
    var k :| 0 <= k < |s| && a in Subtree(s[k]);
    SubtreeClosed(s[k], a, d);
    InForest(s, d);
  }

  lemma {:induction false} SubtreeClosed<P>(n: Node<P>, a: Node<P>, d: Node<P>)
    requires a in Subtree(n)
    requires d in Below(a.children)
    ensures d in Subtree(n)
    decreases n
  {
    if a != n {
      match n.children
      case Undefined =>
      case Defined(s) =>
        InForest(s, a);
        var k :| 0 <= k < |s| && a in Subtree(s[k]);
        SubtreeClosed(s[k], a, d);
        InForest(s, d);
    }
  }
}
