/**
 * The shape of a nested-set tree.
 *
 * Nodes live in an arena and refer to each other by `Id`.  The structural
 * half of a node (its parent reference and its ordered children) is a `Link`.
 * A `Tree` value is a ghost witness that the links reachable from one node form
 * a finite, acyclic tree: it lists the same ids in the same child order, and
 * gives every recursive definition and every proof a well-founded measure.
 */
module Shape {

  type Id = nat

  datatype Option<T> = None | Some(value: T)

  /** A node's parent reference (`null` in the source is `None`) and its children in order. */
  datatype Link = Link(parent: Option<Id>, children: seq<Id>)

  type Links = map<Id, Link>

  datatype Tree = Tree(id: Id, kids: seq<Tree>)

  /** The ids of a sequence of sibling trees, in order. */
  function Roots(ts: seq<Tree>): (r: seq<Id>)
    ensures |r| == |ts|
    ensures forall i :: 0 <= i < |ts| ==> r[i] == ts[i].id
  {
    if ts == [] then [] else [ts[0].id] + Roots(ts[1..])
  }

  /** Pre-order listing of the ids of a tree: the node, then each child's subtree in order. */
  function Pre(t: Tree): seq<Id>
    decreases t, 1
  {
    [t.id] + PreAll(t.kids)
  }

  function PreAll(ts: seq<Tree>): seq<Id>
    decreases ts, 0
  {
    if ts == [] then [] else Pre(ts[0]) + PreAll(ts[1..])
  }

  function Elems(s: seq<Id>): set<Id>
  {
    set x | x in s
  }

  predicate Distinct(s: seq<Id>)
  {
    forall i, j :: 0 <= i < j < |s| ==> s[i] != s[j]
  }

  predicate Disjoint(a: seq<Id>, b: seq<Id>)
  {
    forall x :: x in a ==> x !in b
  }

  /**
   * The links agree with the tree `t` below its top node: every node of `t`
   * is in the arena, its children are exactly the roots of its subtrees, and
   * each child points back at it.  (The top node's own parent is not constrained.)
   */
  ghost predicate Shaped(links: Links, t: Tree)
    decreases t
  {
    && t.id in links
    && links[t.id].children == Roots(t.kids)
    && forall i :: 0 <= i < |t.kids| ==>
         && t.kids[i].id in links
         && links[t.kids[i].id].parent == Some(t.id)
         && Shaped(links, t.kids[i])
  }

  /** `t` is a whole tree of the arena: shaped, parentless at the top, and with no id repeated. */
  ghost predicate Rooted(links: Links, t: Tree)
  {
    Shaped(links, t) && links[t.id].parent == None && Distinct(Pre(t))
  }

  /** Span size as the source computes it: 2, plus the sizes of all children. */
  function SpanSize(t: Tree): nat
    decreases t, 1
  {
    2 + SpanSum(t.kids)
  }

  function SpanSum(ts: seq<Tree>): nat
    decreases ts, 0
  {
    if ts == [] then 0 else SpanSize(ts[0]) + SpanSum(ts[1..])
  }

  /** Index of the first sibling subtree that contains `x`. */
  function KidWith(ts: seq<Tree>, x: Id): (i: nat)
    requires x in PreAll(ts)
    ensures i < |ts| && x in Pre(ts[i])
    ensures forall j :: 0 <= j < i ==> x !in Pre(ts[j])
  {
    if x in Pre(ts[0]) then 0 else 1 + KidWith(ts[1..], x)
  }

  /** The subtree of `t` whose top node is `x`. */
  function Sub(t: Tree, x: Id): (s: Tree)
    requires x in Pre(t)
    ensures s.id == x
    decreases t
  {
    if t.id == x then t else Sub(t.kids[KidWith(t.kids, x)], x)
  }

  /** Number of proper ancestors of `x` in `t`. */
  function Level(t: Tree, x: Id): nat
    requires x in Pre(t)
    decreases t
  {
    if t.id == x then 0 else 1 + Level(t.kids[KidWith(t.kids, x)], x)
  }

  // ---------------------------------------------------------------------------
  // Sequences of ids

  /** The two spellings of a prefix and of a suffix of `s` are the same sequence. */
  lemma Slices<T>(s: seq<T>, i: nat)
    requires i <= |s|
    ensures s[0..i] == s[..i] && s[i..|s|] == s[i..] && s[0..|s|] == s
  {
  }

  lemma Assoc(x: seq<Id>, y: seq<Id>, z: seq<Id>)
    ensures x + (y + z) == x + y + z
  {
  }

  lemma DistinctConcat(a: seq<Id>, b: seq<Id>)
    ensures Distinct(a + b) <==> Distinct(a) && Distinct(b) && Disjoint(a, b)
  {
    var c := a + b;
    if Distinct(c) {
      forall i, j | 0 <= i < j < |a| ensures a[i] != a[j] {
        assert c[i] == a[i] && c[j] == a[j];
      }
      forall i, j | 0 <= i < j < |b| ensures b[i] != b[j] {
        assert c[|a| + i] == b[i] && c[|a| + j] == b[j];
      }
      forall i, j | 0 <= i < |a| && 0 <= j < |b| ensures a[i] != b[j] {
        assert c[i] == a[i] && c[|a| + j] == b[j];
      }
    }
    if Distinct(a) && Distinct(b) && Disjoint(a, b) {
      forall i, j | 0 <= i < j < |c| ensures c[i] != c[j] {
        if j < |a| {
        } else if i >= |a| {
          assert c[i] == b[i - |a|] && c[j] == b[j - |a|];
        } else {
          assert c[i] in a && c[j] == b[j - |a|];
        }
      }
    }
  }

  lemma {:induction false} InPreAll(ts: seq<Tree>, i: nat)
    requires i < |ts|
    ensures forall x :: x in Pre(ts[i]) ==> x in PreAll(ts)
    decreases i
  {
    if i > 0 {
      InPreAll(ts[1..], i - 1);
      assert ts[1..][i - 1] == ts[i];
    }
  }

  lemma {:induction false} RootsInPreAll(ts: seq<Tree>)
    ensures forall x :: x in Roots(ts) ==> x in PreAll(ts)
  {
    forall x | x in Roots(ts) ensures x in PreAll(ts) {
      var i :| 0 <= i < |ts| && Roots(ts)[i] == x;
      InPreAll(ts, i);
    }
  }

  /** With no id repeated, the sibling subtrees are pairwise disjoint and each has no repeats. */
  lemma {:induction false} DistinctPreAll(ts: seq<Tree>)
    requires Distinct(PreAll(ts))
    ensures forall i :: 0 <= i < |ts| ==> Distinct(Pre(ts[i]))
    ensures forall i, j, x :: 0 <= i < |ts| && 0 <= j < |ts| && i != j && x in Pre(ts[i]) ==> x !in Pre(ts[j])
  {
    if ts != [] {
      DistinctConcat(Pre(ts[0]), PreAll(ts[1..]));
      DistinctPreAll(ts[1..]);
      forall i | 1 <= i < |ts| ensures forall x :: x in Pre(ts[i]) ==> x in PreAll(ts[1..]) {
        InPreAll(ts[1..], i - 1);
        assert ts[1..][i - 1] == ts[i];
      }
      forall i | 1 <= i < |ts| ensures Distinct(Pre(ts[i])) {
        assert ts[1..][i - 1] == ts[i];
      }
      forall i, j, x | 0 <= i < |ts| && 0 <= j < |ts| && i != j && x in Pre(ts[i])
        ensures x !in Pre(ts[j])
      {
        if i > 0 && j > 0 {
          assert ts[1..][i - 1] == ts[i] && ts[1..][j - 1] == ts[j];
        }
      }
    }
  }

  /** The facts about a tree's top node and its children that follow from `Distinct(Pre(t))`. */
  lemma DistinctTop(t: Tree)
    requires Distinct(Pre(t))
    ensures Distinct(PreAll(t.kids))
    ensures t.id !in PreAll(t.kids)
    ensures forall i :: 0 <= i < |t.kids| ==> Distinct(Pre(t.kids[i])) && t.id !in Pre(t.kids[i])
    ensures forall i, j, x :: 0 <= i < |t.kids| && 0 <= j < |t.kids| && i != j && x in Pre(t.kids[i]) ==> x !in Pre(t.kids[j])
    ensures Distinct(Roots(t.kids))
  {
    DistinctConcat([t.id], PreAll(t.kids));
    DistinctPreAll(t.kids);
    forall i | 0 <= i < |t.kids| ensures t.id !in Pre(t.kids[i]) {
      InPreAll(t.kids, i);
    }
    var r := Roots(t.kids);
    forall i, j | 0 <= i < j < |r| ensures r[i] != r[j] {
      assert r[i] in Pre(t.kids[i]);
    }
  }

  // ---------------------------------------------------------------------------
  // Subtrees

  lemma {:induction false} SubPre(t: Tree, x: Id)
    requires x in Pre(t)
    ensures forall y :: y in Pre(Sub(t, x)) ==> y in Pre(t)
    decreases t
  {
    if t.id != x {
      var j := KidWith(t.kids, x);
      SubPre(t.kids[j], x);
      InPreAll(t.kids, j);
    }
  }

  /** One step down: for an id inside kid `j`, `Sub` and `Level` go through kid `j`. */
  lemma SubInKid(t: Tree, j: nat, y: Id)
    requires Distinct(Pre(t))
    requires j < |t.kids| && y in Pre(t.kids[j])
    ensures y in Pre(t) && y != t.id
    ensures KidWith(t.kids, y) == j
    ensures Sub(t, y) == Sub(t.kids[j], y)
    ensures Level(t, y) == 1 + Level(t.kids[j], y)
  {
    DistinctTop(t);
    InPreAll(t.kids, j);
    var k := KidWith(t.kids, y);
    assert k == j;
  }

  lemma {:induction false} SubDistinct(t: Tree, x: Id)
    requires Distinct(Pre(t)) && x in Pre(t)
    ensures Distinct(Pre(Sub(t, x)))
    decreases t
  {
    if t.id != x {
      DistinctTop(t);
      SubDistinct(t.kids[KidWith(t.kids, x)], x);
    }
  }

  lemma {:induction false} SubShaped(links: Links, t: Tree, x: Id)
    requires Shaped(links, t) && x in Pre(t)
    ensures Shaped(links, Sub(t, x))
    decreases t
  {
    if t.id != x {
      SubShaped(links, t.kids[KidWith(t.kids, x)], x);
    }
  }

  /** The subtrees of a subtree are the subtrees of the whole tree, one level further down. */
  lemma {:induction false} SubKid(t: Tree, x: Id, i: nat)
    requires Distinct(Pre(t)) && x in Pre(t)
    requires i < |Sub(t, x).kids|
    ensures Sub(t, x).kids[i].id in Pre(t)
    ensures Sub(t, Sub(t, x).kids[i].id) == Sub(t, x).kids[i]
    ensures Level(t, Sub(t, x).kids[i].id) == Level(t, x) + 1
    decreases t
  {
    var k := Sub(t, x).kids[i];
    if t.id == x {
      SubInKid(t, i, k.id);
    } else {
      var j := KidWith(t.kids, x);
      DistinctTop(t);
      SubKid(t.kids[j], x, i);
      SubPre(t.kids[j], k.id);
      SubInKid(t, j, k.id);
      SubInKid(t, j, x);
    }
  }

  /** Every non-top node of a shaped tree points at a parent in the same tree, one level up. */
  lemma {:induction false} ParentOf(links: Links, t: Tree, x: Id) returns (p: Id, i: nat)
    requires Shaped(links, t) && Distinct(Pre(t))
    requires x in Pre(t) && x != t.id
    ensures p in Pre(t) && i < |Sub(t, p).kids|
    ensures Sub(t, p).kids[i] == Sub(t, x)
    ensures x in links && links[x].parent == Some(p)
    ensures Level(t, p) + 1 == Level(t, x)
    decreases t
  {
    var j := KidWith(t.kids, x);
    var k := t.kids[j];
    SubShaped(links, t, x);
    DistinctTop(t);
    SubInKid(t, j, x);
    if k.id == x {
      p, i := t.id, j;
    } else {
      p, i := ParentOf(links, k, x);
      SubPre(k, p);
      SubInKid(t, j, p);
    }
  }

  /** The children of a node of `t` are the roots of its subtrees. */
  lemma ChildrenAre(links: Links, t: Tree, x: Id)
    requires Rooted(links, t) && x in Pre(t)
    ensures x in links && links[x].children == Roots(Sub(t, x).kids)
  {
    Env(links, t, x);
  }

  /**
   * The local view of node `x` inside a whole tree `t`: it is in the arena,
   * it is parentless exactly when it is the top, its children are the roots of
   * its subtree, each child lies in `t` one level down and points back at `x`.
   */
  lemma Env(links: Links, t: Tree, x: Id)
    requires Rooted(links, t) && x in Pre(t)
    ensures x in links
    ensures Shaped(links, Sub(t, x)) && Distinct(Pre(Sub(t, x)))
    ensures links[x].children == Roots(Sub(t, x).kids)
    ensures Distinct(links[x].children)
    ensures links[x].parent.None? <==> x == t.id
    ensures links[x].parent.Some? ==>
              && links[x].parent.value in Pre(t)
              && Level(t, links[x].parent.value) + 1 == Level(t, x)
              && links[x].parent.value in links
              && x in links[links[x].parent.value].children
    ensures forall c :: c in links[x].children ==>
              && c in Pre(t) && c in links
              && Level(t, c) == Level(t, x) + 1
              && links[c].parent == Some(x)
  {
    SubShaped(links, t, x);
    SubDistinct(t, x);
    DistinctTop(Sub(t, x));
    var s := Sub(t, x);
    forall c | c in links[x].children
      ensures c in Pre(t) && c in links && Level(t, c) == Level(t, x) + 1 && links[c].parent == Some(x)
    {
      var i :| 0 <= i < |s.kids| && Roots(s.kids)[i] == c;
      SubKid(t, x, i);
    }
    if x != t.id {
      var p, i := ParentOf(links, t, x);
      SubShaped(links, t, p);
      assert links[p].children[i] == x;
    }
  }

  // ---------------------------------------------------------------------------
  // Span sizes

  /** The span size of a subtree is twice its number of nodes. */
  lemma {:induction false} SpanIsTwiceCount(t: Tree)
    ensures SpanSize(t) == 2 * |Pre(t)|
    decreases t, 1
  {
    SpanSumIsTwiceCount(t.kids);
  }

  lemma {:induction false} SpanSumIsTwiceCount(ts: seq<Tree>)
    ensures SpanSum(ts) == 2 * |PreAll(ts)|
    decreases ts, 0
  {
    if ts != [] {
      SpanIsTwiceCount(ts[0]);
      SpanSumIsTwiceCount(ts[1..]);
    }
  }

  /** Summing sibling spans one child more. */
  lemma {:induction false} SpanSumSnoc(ts: seq<Tree>, i: nat)
    requires i < |ts|
    ensures SpanSum(ts[..i + 1]) == SpanSum(ts[..i]) + SpanSize(ts[i])
    decreases i
  {
    if i > 0 {
      SpanSumSnoc(ts[1..], i - 1);
      assert ts[1..][..i] == ts[..i + 1][1..];
      assert ts[1..][..i - 1] == ts[..i][1..];
    } else {
      assert ts[..1][1..] == [];
    }
  }
}
