/**
 * The mutable side of `NestedSetNode`: all node objects live in one arena
 * (`Forest`), a node is addressed by its `Id`, and each method of the source
 * class becomes a method of the arena taking the node it runs on as `self`.
 * `Rebuild` is the renumbering walk, proved against the ghost function
 * `Walk`; `GetSize` is the summing loop, proved against `SpanSize`.
 */
module NestedSetNode {
  import opened Shape
  import opened Numbering
  import opened Arena
  import opened Records
  import opened WalkProof
  import opened WalkTheorems
  import opened Graft
  import opened Relink
  import opened Mutations
  import opened Validation
  import opened Reconstruct

  class Forest {
    /** Parent reference and ordered children of every node. */
    var links: Links
    /** Title and the `(left, right, depth)` triple of every node. */
    var props: Table
    /** Every id below `next` has been handed out. */
    var next: Id

    ghost predicate Valid()
      reads this
    {
      Closed(links, props) && forall x :: x in links ==> x < next
    }

    constructor ()
      ensures Valid() && links == map[] && props == map[]
    {
      links := map[];
      props := map[];
      next := 0;
    }

    /**
     * `new NestedSetNode(title, ...)` without a parent: a fresh, parentless,
     * childless node with the given left, right and depth (the source's
     * defaults are 0, 1 and 0).  No other field of the record is stored.
     */
    method NewNode(title: string, left: int, right: int, depth: int) returns (x: Id)
      requires Valid()
      modifies this
      ensures Valid()
      ensures x !in old(links) && x !in old(props)
      ensures links == old(links)[x := Link(None, [])]
      ensures props == old(props)[x := Props(title, left, right, depth)]
    {
      x := next;
      links := links[x := Link(None, [])];
      props := props[x := Props(title, left, right, depth)];
      next := next + 1;
    }

    /**
     * `new NestedSetNode(title, ..., parent)` with a parent: a fresh node as
     * `NewNode` makes it, then appended to `parent` by `append`, so its depth
     * becomes one more than the parent's and the parent's tree is rebuilt.
     */
    method NewChild(title: string, left: int, right: int, depth: int, parent: Id, ghost t: Tree) returns (x: Id)
      requires Valid() && Rooted(links, t) && parent in Pre(t)
      modifies this
      ensures Valid() && x !in old(links)
      ensures Appended(old(links)[x := Link(None, [])], old(props)[x := Props(title, left, right, depth)],
                       t, parent, Tree(x, []), links, props)
    {
      ghost var links0 := links;
      x := NewNode(title, left, right, depth);
      FreshBeside(links0, t, x);
      Append(parent, x, t, Tree(x, []));
    }

    /**
     * `getSize()`: 2 for a leaf, otherwise 2 plus the sizes of the children,
     * summed in a loop.  It is the span size of the node's subtree, which is
     * twice the number of nodes in it.
     */
    method GetSize(self: Id, ghost s: Tree) returns (size: int)
      requires Shaped(links, s) && s.id == self
      requires forall z :: z in Pre(s) ==> z in props
      ensures size == SpanSize(s) == 2 * |Pre(s)|
      decreases s
    {
      SpanIsTwiceCount(s);
      assert self in Pre(s);
      if IsLeaf(links, props, self) {
        return 2;
      }
      var childrenSize := 0;
      var cs := links[self].children;
      var i := 0;
      while i < |cs|
        invariant 0 <= i <= |cs| == |s.kids|
        invariant childrenSize == SpanSum(s.kids[..i])
      {
        InPreAll(s.kids, i);
        var c := GetSize(cs[i], s.kids[i]);
        SpanSumSnoc(s.kids, i);
        childrenSize := childrenSize + c;
        i := i + 1;
      }
      assert s.kids[..i] == s.kids;
      size := 2 + childrenSize;
    }

    /**
     * The first part of `rebuild(list)`: if `self` is not on the list yet,
     * place its left (0 at a root, one past the parent's left for a first
     * child, one past the previous sibling's right otherwise) and push it.
     */
    method Visit(self: Id, list: seq<Id>) returns (l: seq<Id>)
      requires ParentReady(links, props, self)
      modifies this`props
      ensures l == if self in list then list else list + [self]
      ensures props == if self in list then old(props)
                       else old(props)[self := old(props)[self].(left := NewLeft(links, old(props), self))]
    {
      l := list;
      if IndexOf(l, self) == -1 {
        match links[self].parent {
          case Some(p) =>
            var myIdx := IndexOf(links[p].children, self);
            if myIdx == 0 {
              props := props[self := props[self].(left := props[p].left + 1)];
            } else if myIdx > 0 {
              props := props[self := props[self].(left := props[links[p].children[myIdx - 1]].right + 1)];
            }
          case None =>
            props := props[self := props[self].(left := 0)];
        }
        l := l + [self];
      }
    }

    /**
     * `rebuild(list)` run on node `self`: the visit, then the descent or the
     * leaving.  Only lefts and rights change, exactly as `Walk` says.
     */
    method Rebuild(self: Id, list: seq<Id>, ghost t: Tree) returns (out: seq<Id>)
      requires WalkReq(links, props, list, self, t)
      modifies this
      ensures links == old(links) && next == old(next)
      ensures (props, out) == Walk(links, old(props), list, self, t)
      ensures old(Valid()) ==> Valid()
      decreases Unvisited(t, list, self), Level(t, self), Following(links, self), 2
    {
      WalkKeeps(links, props, list, self, t);
      WalkUnfold(links, props, list, self, t);
      var l := Visit(self, list);
      VisitShrinks(t, list, self, l);
      out := Descend(self, l, t);
    }

    /**
     * The middle of `rebuild(list)`, once `self` is visited: its right is set
     * from its span size, and the walk goes down to the first child not on
     * the list, if any; otherwise it leaves the node.
     */
    method Descend(self: Id, list: seq<Id>, ghost t: Tree) returns (out: seq<Id>)
      requires WalkReq(links, props, list, self, t) && self in list
      modifies this
      ensures links == old(links) && next == old(next)
      ensures (props, out) == Arena.Descend(links, old(props), list, self, t)
      decreases Elems(Pre(t)) - Elems(list), Level(t, self), Following(links, self), 1
    {
      SizeReady(links, props, list, self, t);
      var size := GetSize(self, Sub(t, self));
      var down: Option<Id> := None;
      if !IsLeaf(links, props, self) {
        down := FirstUnvisited(links[self].children, list);
      }
      ghost var n := props;
      props := props[self := props[self].(right := props[self].left + size - 1)];
      assert n[self := n[self].(right := n[self].left + SpanSize(Sub(t, self)) - 1)] == props;
      if down.Some? {
        DescendDown(links, n, list, self, t, props, down.value);
        out := Rebuild(down.value, list, t);
      } else {
        DescendStay(links, n, list, self, t, props);
        out := Leave(self, list, t);
      }
    }

    /**
     * The end of `rebuild(list)`, once `self` is visited, its right is set and
     * nothing is left to go down to: a root ends the walk and returns the
     * list; any other node hands on to its next sibling, or else its parent.
     */
    method Leave(self: Id, list: seq<Id>, ghost t: Tree) returns (out: seq<Id>)
      requires WalkReq(links, props, list, self, t) && self in list
      modifies this
      ensures links == old(links) && next == old(next)
      ensures (props, out) == Arena.Leave(links, old(props), list, self, t)
      decreases Elems(Pre(t)) - Elems(list), Level(t, self), Following(links, self), 0
    {
      assert self in links by { KidsInTree(links, t, self); }
      if IsRoot(links, self) {
        out := list;
      } else {
        LeaveStep(links, props, list, self, t);
        var sibling := NextSibling(links, self);
        match sibling {
          case Some(s) =>
            SiblingHop(links, t, self);
            out := Rebuild(s, list, t);
          case None =>
            EnvParent(links, t, self);
            out := Rebuild(links[self].parent.value, list, t);
        }
      }
    }

    /**
     * `append(node)`: `node` gets `self` as its parent and one more than its
     * depth, goes to the end of `self`'s children, and the tree is renumbered
     * by a rebuild started at `self`.  From a numbered tree the result is the
     * numbered grown tree; nodes of other trees keep their props.
     */
    method Append(self: Id, node: Id, ghost t: Tree, ghost s: Tree)
      requires Valid()
      requires Rooted(links, t) && self in Pre(t)
      requires Rooted(links, s) && s.id == node && Disjoint(Pre(t), Pre(s))
      modifies this
      ensures Valid() && next == old(next)
      ensures Appended(old(links), old(props), t, self, s, links, props)
    {
      ghost var r := AppendTree(t, self, s);
      AppendReady(links, props, t, self, s);
      ghost var links0, n0 := links, props;
      links := AppendLinks(links, self, node);
      props := Deepen(props, self, node);
      var _ := Rebuild(self, [], r);
      AppendDone(links0, n0, t, self, s, links, props);
    }

    /**
     * `prepend(node)`: as `append`, but `node` goes to the front of `self`'s
     * children.
     */
    method Prepend(self: Id, node: Id, ghost t: Tree, ghost s: Tree)
      requires Valid()
      requires Rooted(links, t) && self in Pre(t)
      requires Rooted(links, s) && s.id == node && Disjoint(Pre(t), Pre(s))
      modifies this
      ensures Valid() && next == old(next)
      ensures Prepended(old(links), old(props), t, self, s, links, props)
    {
      ghost var r := PrependTree(t, self, s);
      PrependReady(links, props, t, self, s);
      ghost var links0, n0 := links, props;
      links := PrependLinks(links, self, node);
      props := Deepen(props, self, node);
      var _ := Rebuild(self, [], r);
      PrependDone(links0, n0, t, self, s, links, props);
    }

    /**
     * `removeChild(child)`: nothing happens unless `child` is among `self`'s
     * children; otherwise it is spliced out of them, loses its parent, and the
     * rest of the tree is renumbered by a rebuild started at `self`.  The
     * detached subtree is a whole tree of its own and keeps its props.
     */
    method RemoveChild(self: Id, child: Id, ghost t: Tree)
      requires Valid()
      requires Rooted(links, t) && self in Pre(t)
      modifies this
      ensures self in old(links)
      ensures child !in old(links)[self].children ==> links == old(links) && props == old(props)
      ensures child in old(links)[self].children ==> Removed(old(links), old(props), t, self, child, links, props)
      ensures Valid() && next == old(next)
    {
      assert self in links by { Env(links, t, self); }
      var idx := IndexOf(links[self].children, child);
      if idx > -1 {
        KidIndex(links, t, self, child);
        RemoveReady(links, props, t, self, idx);
        ghost var links0, n0 := links, props;
        links := RemoveLinks(links, self, idx, child);
        var _ := Rebuild(self, [], RemoveTree(t, self, idx));
        RemoveDone(links0, n0, t, self, child, idx, links, props);
      }
    }

    /** `flat()`: the walk from `self`, each visited node projected to its record, in visiting order. */
    method Flat(self: Id, ghost t: Tree) returns (records: seq<Record>)
      requires WalkReq(links, props, [], self, t)
      modifies this
      ensures links == old(links) && next == old(next)
      ensures old(Valid()) ==> Valid()
      ensures var w := Walk(links, old(props), [], self, t);
        && props == w.0
        && |records| == |w.1|
        && forall i :: 0 <= i < |records| ==> w.1[i] in props && records[i] == ToRecord(props[w.1[i]])
    {
      WalkKeeps(links, props, [], self, t);
      var list := Rebuild(self, [], t);
      var table := props;
      records := seq(|list|, i requires 0 <= i < |list| && list[i] in table => ToRecord(table[list[i]]));
    }

    /** A step of `toNested` for a document keyed `root`: its new node stays a root of its own. */
    method PlaceTop(docs: seq<Record>, i: nat, ghost hs: seq<Hang>, ghost made: seq<Id>, ghost trees: seq<Tree>,
                    ghost owner: seq<nat>, nested: map<string, Id>, ghost links0: Links, ghost n0: Table)
      returns (x: Id, stored: map<string, Id>, ghost trees': seq<Tree>, ghost owner': seq<nat>)
      requires Valid() && i == |made| < |docs|
      requires Building(docs, hs, made, trees, owner, nested, links0, n0, links, props)
      requires hs[i] == Top
      modifies this
      ensures Valid()
      ensures trees' == trees + [Tree(x, [])] && owner' == owner + [|trees|]
      ensures stored == nested[TagKey(docs[i].tag) := x]
      ensures Building(docs, hs, made + [x], trees', owner', stored, links0, n0, links, props)
    {
      ghost var linksA, nA := links, props;
      x := NewNode(docs[i].title, 0, 1, 0);
      stored, trees', owner' := nested[TagKey(docs[i].tag) := x], trees + [Tree(x, [])], owner + [|trees|];
      TopStep(docs, hs, made, trees, owner, nested, links0, n0, linksA, nA, x, links, props, trees', owner', stored);
    }

    /** A step of `toNested` for a document planned under document `s`: its new node is appended to `p`, the node of `s`. */
    method PlaceUnder(docs: seq<Record>, i: nat, ghost hs: seq<Hang>, ghost made: seq<Id>, ghost trees: seq<Tree>,
                      ghost owner: seq<nat>, nested: map<string, Id>, ghost links0: Links, ghost n0: Table,
                      p: Id, ghost s: nat)
      returns (x: Id, stored: map<string, Id>, ghost trees': seq<Tree>, ghost owner': seq<nat>)
      requires Valid() && i == |made| < |docs|
      requires Building(docs, hs, made, trees, owner, nested, links0, n0, links, props)
      requires hs[i] == Under(s) && s < i && p == made[s]
      modifies this
      ensures Valid() && owner[s] < |trees|
      ensures trees' == trees[owner[s] := AppendTree(trees[owner[s]], p, Tree(x, []))] && owner' == owner + [owner[s]]
      ensures stored == nested[TagKey(docs[i].tag) := x]
      ensures Building(docs, hs, made + [x], trees', owner', stored, links0, n0, links, props)
    {
      ghost var linksA, nA := links, props;
      x := NewNode(docs[i].title, 0, 1, 0);
      UnderReady(docs, hs, made, trees, owner, nested, links0, n0, linksA, nA, x, links, props, s);
      ghost var linksB, nB := links, props;
      Append(p, x, trees[owner[s]], Tree(x, []));
      stored, trees', owner' := nested[TagKey(docs[i].tag) := x], trees[owner[s] := AppendTree(trees[owner[s]], p, Tree(x, []))], owner + [owner[s]];
      UnderStep(docs, hs, made, trees, owner, nested, links0, n0, linksA, nA, x, linksB, nB, s, links, props, trees', owner', stored);
    }

    /**
     * One document of `toNested`: its node is made and stored under its key,
     * then appended below the node stored under its parent key, unless the
     * document is keyed `root`.  The lookup finds the document's own node
     * exactly when the parent key is its own key, since that node was stored
     * just before.  The step fails exactly where `HangOf` says the document
     * is broken, and otherwise the loop state grows by the node.
     */
    method PlaceNext(docs: seq<Record>, i: nat, ghost hs: seq<Hang>, nested: map<string, Id>,
                     ghost made: seq<Id>, ghost trees: seq<Tree>, ghost owner: seq<nat>, ghost links0: Links, ghost n0: Table)
      returns (err: Option<NestError>, stored: map<string, Id>, x: Id, ghost trees': seq<Tree>, ghost owner': seq<nat>)
      requires Valid() && i == |made| < |docs| && i < |hs|
      requires Building(docs, hs, made, trees, owner, nested, links0, n0, links, props)
      requires Decides(TagKey(docs[i].tag), ParentKey(docs, docs[i]), nested, made, hs[i])
      modifies this
      ensures Valid()
      ensures err.Some? <==> hs[i].Broken?
      ensures err.Some? ==> hs[i] == Broken(err.value)
      ensures err.None? ==> Building(docs, hs, made + [x], trees', owner', stored, links0, n0, links, props)
    {
      var key := TagKey(docs[i].tag);
      var pk := ParentKey(docs, docs[i]);
      trees', owner' := trees, owner;
      if key == "root" {
        x, stored, trees', owner' := PlaceTop(docs, i, hs, made, trees, owner, nested, links0, n0);
        err := None;
      } else if pk == key || pk !in nested {
        x := NewNode(docs[i].title, 0, 1, 0);
        err, stored := Some(if pk == key then OntoItself else MissingParent), nested[key := x];
      } else {
        var p := nested[pk];
        ghost var s := DecidedUnder(key, pk, nested, made, hs[i]);
        x, stored, trees', owner' := PlaceUnder(docs, i, hs, made, trees, owner, nested, links0, n0, p, s);
        err := None;
      }
    }

    /**
     * `toNested(documents)`: one fresh node per document, stored under the
     * document's tag and appended below the node stored under its parent's
     * key.  It stops at the first document whose parent key holds no node,
     * or holds the document's own node.  When it gets through, the new nodes
     * are linked exactly as `Plan(docs)` says, the key map holds the latest
     * node per key, the nodes form whole numbered trees beside the old arena,
     * and every new node passes `validate()`.
     */
    method ToNested(docs: seq<Record>) returns (outcome: Nested, ghost made: seq<Id>, ghost trees: seq<Tree>, ghost owner: seq<nat>)
      requires Valid()
      modifies this
      ensures Valid()
      ensures outcome.Failed? ==>
        && outcome.at < |docs| && HangOf(docs, outcome.at) == Broken(outcome.error)
        && forall i :: 0 <= i < outcome.at ==> !HangOf(docs, i).Broken?
      ensures outcome.Built? ==>
        && (forall i :: 0 <= i < |docs| ==> !HangOf(docs, i).Broken?)
        && Reconstructed(docs, made, trees, owner, outcome.nested, old(links), old(props), links, props)
    {
      ghost var hs := Plan(docs);
      ghost var links0, n0 := links, props;
      var nested: map<string, Id> := map[];
      made, trees, owner := [], [], [];
      Start(docs, links, props);
      var i := 0;
      while i < |docs|
        invariant Valid()
        invariant i <= |docs| && |made| == i
        invariant forall k :: 0 <= k < i ==> !hs[k].Broken?
        invariant Building(docs, hs, made, trees, owner, nested, links0, n0, links, props)
      {
        var err, stored, x;
        ghost var trees', owner';
        PlanAt(docs, |docs|, i);
        HangFromKeys(docs, made);
        err, stored, x, trees', owner' := PlaceNext(docs, i, hs, nested, made, trees, owner, links0, n0);
        if err.Some? {
          outcome := Failed(i, err.value);
          PlanUnbroken(docs, i);
          return;
        }
        forall k | 0 <= k < i + 1 ensures !hs[k].Broken? {
          if k < i {
            assert !hs[k].Broken?;
          } else {
            assert k == i;
          }
        }
        nested, made, trees, owner := stored, made + [x], trees', owner';
        i := i + 1;
      }
      PlanUnbroken(docs, |docs|);
      Finished(docs, made, trees, owner, nested, links0, n0, links, props);
      outcome := Built(nested);
    }
  }
}
