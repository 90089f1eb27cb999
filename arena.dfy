/**
 * The node arena of the nested-set tree and the read-only queries of a node
 * (`isLeaf`, `isRoot`, `prevSibling`, `nextSibling`, `countNextSiblings`),
 * together with `Walk`, the renumbering walk of `rebuild` written as a ghost
 * function over the arena: it is the specification the `Rebuild` method is
 * proved against.
 */
module Arena {
  import opened Shape
  import opened Numbering

  /** The numeric half of a node and its title; the other record fields are never stored. */
  datatype Props = Props(title: string, left: int, right: int, depth: int)

  type Table = map<Id, Props>

  /** Every reference held by a node points at a node of the arena, and both halves cover the same ids. */
  ghost predicate Closed(links: Links, props: Table)
  {
    && links.Keys == props.Keys
    && forall x {:trigger links[x]} :: x in links ==>
         && (links[x].parent.Some? ==> links[x].parent.value in links)
         && (forall c :: c in links[x].children ==> c in links)
  }

  /** `Array.prototype.indexOf`: the first index of `x` in `s`, or -1. */
  function IndexOf(s: seq<Id>, x: Id): (i: int)
    ensures -1 <= i < |s|
    ensures i >= 0 ==> s[i] == x && forall j :: 0 <= j < i ==> s[j] != x
    ensures i == -1 <==> x !in s
  {
    if s == [] then -1
    else if s[0] == x then 0
    else var r := IndexOf(s[1..], x); if r == -1 then -1 else r + 1
  }

  /** The parent of `x`, if any, is in the arena. */
  predicate HasParentIn(links: Links, x: Id)
  {
    x in links && (links[x].parent.Some? ==> links[x].parent.value in links)
  }

  /** `isLeaf()`: a node below the top level with no children; `Queries.LeafIff` gives its meaning on whole trees. */
  predicate IsLeaf(links: Links, props: Table, x: Id)
    requires x in links && x in props
  {
    props[x].depth > 0 && |links[x].children| == 0
  }

  /** `isRoot()`: a node without a parent; `Queries.RootIff` gives its meaning on whole trees. */
  predicate IsRoot(links: Links, x: Id)
    requires x in links
  {
    links[x].parent.None?
  }

  /**
   * `prevSibling()`: the child of the parent listed just before `x`.  A
   * sibling is found only when `x` is listed among its parent's children;
   * a node missing from that list has none.
   */
  function PrevSibling(links: Links, x: Id): (r: Option<Id>)
    requires HasParentIn(links, x)
    ensures r.Some? ==> links[x].parent.Some?
    ensures links[x].parent.Some? ==> var cs := links[links[x].parent.value].children;
      && (r.Some? ==> x in cs && r.value in cs)
      && (x !in cs ==> r == None)
  {
    match links[x].parent
    case None => None
    case Some(p) =>
      var cs := links[p].children;
      var i := IndexOf(cs, x);
      if 0 <= i - 1 < |cs| then Some(cs[i - 1]) else None
  }

  /**
   * `nextSibling()`: the child of the parent listed just after `x`.  As
   * `indexOf` gives -1 for a node missing from its parent's children, such a
   * node gets the parent's first child.
   */
  function NextSibling(links: Links, x: Id): (r: Option<Id>)
    requires HasParentIn(links, x)
    ensures r.Some? ==> links[x].parent.Some?
    ensures links[x].parent.Some? ==> var cs := links[links[x].parent.value].children;
      && (r.Some? ==> r.value in cs)
      && (x !in cs && cs != [] ==> r == Some(cs[0]))
  {
    match links[x].parent
    case None => None
    case Some(p) =>
      var cs := links[p].children;
      var i := IndexOf(cs, x);
      if 0 <= i + 1 < |cs| then Some(cs[i + 1]) else None
  }

  function CountNextSiblings(links: Links, x: Id): (r: int)
    requires HasParentIn(links, x)
    ensures r >= 0
  {
    match links[x].parent
    case None => 0
    case Some(p) => |links[p].children| - (IndexOf(links[p].children, x) + 1)
  }

  /** `CountNextSiblings` where it is defined, as a termination measure. */
  ghost function Following(links: Links, x: Id): nat
  {
    if HasParentIn(links, x) then CountNextSiblings(links, x) else 0
  }

  /** What `rebuild` reads to place a node's left: its parent and its parent's children. */
  ghost predicate ParentReady(links: Links, props: Table, x: Id)
  {
    && x in links && x in props
    && (links[x].parent.Some? ==>
          && links[x].parent.value in links && links[x].parent.value in props
          && forall c :: c in links[links[x].parent.value].children ==> c in props)
  }

  /**
   * The left value `rebuild` gives a node on its first visit: 0 at a root,
   * one past the parent's left for a first child, one past the previous
   * sibling's right otherwise, and the old value if the node is missing from
   * its parent's children.
   */
  function NewLeft(links: Links, props: Table, x: Id): int
    requires ParentReady(links, props, x)
  {
    match links[x].parent
    case None => 0
    case Some(p) =>
      var i := IndexOf(links[p].children, x);
      if i == 0 then props[p].left + 1
      else if i > 0 then props[links[p].children[i - 1]].right + 1
      else props[x].left
  }

  /** The `reduce` of `rebuild`: the first child not yet on the visited list. */
  function FirstUnvisited(cs: seq<Id>, list: seq<Id>): (r: Option<Id>)
    ensures r.Some? ==> r.value in cs && r.value !in list
    ensures r.None? ==> forall c :: c in cs ==> c in list
    ensures r.Some? ==> forall k :: 0 <= k < IndexOf(cs, r.value) ==> cs[k] in list
  {
    if cs == [] then None
    else if cs[0] !in list then Some(cs[0])
    else FirstUnvisited(cs[1..], list)
  }

  /** Overwrite the left/right of the nodes of `ids` with the spans of `N`; nothing else changes. */
  ghost function Apply(n: Table, N: Spans, ids: set<Id>): (m: Table)
    ensures m.Keys == n.Keys
  {
    map y | y in n :: if y in ids && y in N then n[y].(left := N[y].left, right := N[y].right) else n[y]
  }

  /** `m` keeps every node of `n`, with the same title and depth: only lefts and rights may differ. */
  ghost predicate SameLabels(n: Table, m: Table)
  {
    forall z :: z in n ==> z in m && m[z].title == n[z].title && m[z].depth == n[z].depth
  }

  lemma SameLabelsRight(n: Table, y: Id, r: int)
    requires y in n
    ensures SameLabels(n, n[y := n[y].(right := r)])
  {
  }

  lemma SameLabelsTrans(a: Table, b: Table, c: Table)
    requires SameLabels(a, b) && SameLabels(b, c)
    ensures SameLabels(a, c)
  {
  }

  // ---------------------------------------------------------------------------
  // The walk of `rebuild`

  /** What the walk needs at every call: a whole tree of the arena, with the current node in it and all its nodes in the table. */
  ghost predicate WalkReq(links: Links, n: Table, list: seq<Id>, cur: Id, t: Tree)
  {
    && Rooted(links, t)
    && cur in Pre(t)
    && (forall y :: y in Pre(t) ==> y in n)
  }

  /** The nodes of `t` the walk has not put on the list, `cur` aside. */
  ghost function Unvisited(t: Tree, list: seq<Id>, cur: Id): set<Id>
  {
    Elems(Pre(t)) - Elems(list) - {cur}
  }

  lemma EnvParent(links: Links, t: Tree, x: Id)
    requires Rooted(links, t) && x in Pre(t) && x in links && links[x].parent.Some?
    ensures var p := links[x].parent.value;
      && p in Pre(t) && p in links
      && x in links[p].children
      && Distinct(links[p].children)
      && Level(t, p) + 1 == Level(t, x)
      && forall c :: c in links[p].children ==> c in Pre(t) && Level(t, c) == Level(t, x)
  {
    Env(links, t, x);
    Env(links, t, links[x].parent.value);
  }

  /** A sibling hop moves to the same level and to fewer following siblings. */
  lemma SiblingHop(links: Links, t: Tree, x: Id)
    requires Rooted(links, t) && x in Pre(t) && x in links && links[x].parent.Some?
    requires HasParentIn(links, x)
    requires NextSibling(links, x).Some?
    ensures var s := NextSibling(links, x).value;
      && s in Pre(t) && HasParentIn(links, s)
      && Level(t, s) == Level(t, x)
      && Following(links, s) < Following(links, x)
  {
    EnvParent(links, t, x);
    var p := links[x].parent.value;
    var cs := links[p].children;
    var i := IndexOf(cs, x);
    assert 0 <= i;
    var s := cs[i + 1];
    assert s in cs;
    Env(links, t, p);
    assert links[s].parent == Some(p);
    IndexOfDistinct(cs, i + 1);
    assert CountNextSiblings(links, s) == |cs| - (i + 2);
    assert CountNextSiblings(links, x) == |cs| - (i + 1);
  }

  /** A node of a whole tree is in the arena, and so are its children, which are in the tree. */
  lemma KidsInTree(links: Links, t: Tree, y: Id)
    requires Rooted(links, t) && y in Pre(t)
    ensures y in links && forall c :: c in links[y].children ==> c in Pre(t)
  {
    Env(links, t, y);
    RootsInPreAll(Sub(t, y).kids);
    SubPre(t, y);
  }

  /** What the visit reads is in place at every node of the tree. */
  lemma WalkEnv(links: Links, n: Table, list: seq<Id>, cur: Id, t: Tree)
    requires WalkReq(links, n, list, cur, t)
    ensures ParentReady(links, n, cur)
  {
    KidsInTree(links, t, cur);
    if links[cur].parent.Some? {
      EnvParent(links, t, cur);
      KidsInTree(links, t, links[cur].parent.value);
    }
  }

  lemma IndexOfDistinct(cs: seq<Id>, k: nat)
    requires Distinct(cs) && k < |cs|
    ensures IndexOf(cs, cs[k]) == k
  {
  }

  /**
   * `rebuild` from node `cur` with visited list `list`, as a function of the
   * arena: on a first visit place the node's left and push it; then set its
   * right from its span size; descend into the first unvisited child if there
   * is one, otherwise leave the node.  Returns the final table and list.
   */
  ghost function Walk(links: Links, n: Table, list: seq<Id>, cur: Id, t: Tree): (Table, seq<Id>)
    requires WalkReq(links, n, list, cur, t)
    decreases Unvisited(t, list, cur), Level(t, cur), Following(links, cur), 3
  {
    WalkEnv(links, n, list, cur, t);
    WalkStep(links, n, list, cur, t)
  }

  ghost function WalkStep(links: Links, n: Table, list: seq<Id>, cur: Id, t: Tree): (Table, seq<Id>)
    requires WalkReq(links, n, list, cur, t)
    requires ParentReady(links, n, cur)
    decreases Unvisited(t, list, cur), Level(t, cur), Following(links, cur), 2
  {
    var n1 := if cur !in list then n[cur := n[cur].(left := NewLeft(links, n, cur))] else n;
    var l1 := if cur !in list then list + [cur] else list;
    assert Unvisited(t, list, cur) == Elems(Pre(t)) - Elems(l1);
    Descend(links, n1, l1, cur, t)
  }

  /** After the visit: set the node's right from its span size, then go down to the first unvisited child or leave. */
  ghost function Descend(links: Links, n: Table, list: seq<Id>, cur: Id, t: Tree): (Table, seq<Id>)
    requires WalkReq(links, n, list, cur, t) && cur in list
    decreases Elems(Pre(t)) - Elems(list), Level(t, cur), Following(links, cur), 1
  {
    KidsInTree(links, t, cur);
    var down := if IsLeaf(links, n, cur) then None else FirstUnvisited(links[cur].children, list);
    var n2 := n[cur := n[cur].(right := n[cur].left + SpanSize(Sub(t, cur)) - 1)];
    if down.Some? then
      Walk(links, n2, list, down.value, t)
    else
      Leave(links, n2, list, cur, t)
  }

  /** Leaving a node whose children are all visited: stop at a root, else hop to the next sibling or the parent. */
  ghost function Leave(links: Links, n: Table, list: seq<Id>, y: Id, t: Tree): (Table, seq<Id>)
    requires WalkReq(links, n, list, y, t) && y in list
    decreases Elems(Pre(t)) - Elems(list), Level(t, y), Following(links, y), 0
  {
    KidsInTree(links, t, y);
    if links[y].parent.None? then (n, list)
    else
      EnvParent(links, t, y);
      match NextSibling(links, y)
      case Some(s) => SiblingHop(links, t, y); Walk(links, n, list, s, t)
      case None => Walk(links, n, list, links[y].parent.value, t)
  }
}
