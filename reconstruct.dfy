/**
 * `toNested(documents)`: rebuilding nodes from persisted records.  Each
 * document gets a fresh node stored under its tag; its parent is the first
 * document whose span strictly contains it one level up (or the key `root`
 * when there is none), and every document whose key is not `root` is
 * appended to the node stored under its parent's key at that moment.
 *
 * This module holds the reference side, written on the documents alone:
 * where each document hangs (`HangOf`), the children every node ends up with
 * (`KidsUpTo`), and the key map (`Latest`), together with the step lemmas the
 * `Forest.ToNested` loop is proved with.
 */
module Reconstruct {
  import opened Shape
  import opened Numbering
  import opened Arena
  import opened Records
  import opened WalkProof
  import opened Graft
  import opened Relink
  import opened Mutations
  import opened Validation

  /** The array key `nestedObjects[doc.tag]` uses: an unset tag becomes the string "undefined". */
  function TagKey(tag: Option<string>): string
  {
    match tag
    case None => "undefined"
    case Some(s) => s
  }

  /** The test `documents.find` applies: `outer`'s span strictly contains `inner`'s, one level up. */
  predicate Contains(outer: Record, inner: Record)
  {
    inner.left > outer.left && inner.right < outer.right && outer.depth == inner.depth - 1
  }

  /** `documents.find`: the index of the first document that contains `doc`, if any. */
  function Find(docs: seq<Record>, doc: Record): (r: Option<nat>)
    ensures r.Some? ==> r.value < |docs| && Contains(docs[r.value], doc)
    ensures forall k :: 0 <= k < |docs| && (r.None? || k < r.value) ==> !Contains(docs[k], doc)
  {
    if docs == [] then None
    else if Contains(docs[0], doc) then Some(0)
    else match Find(docs[1..], doc)
      case None => None
      case Some(j) => Some(j + 1)
  }

  /** The key of the parent of `doc`: the found document's tag, or `root`. */
  function ParentKey(docs: seq<Record>, doc: Record): string
  {
    match Find(docs, doc)
    case None => "root"
    case Some(j) => TagKey(docs[j].tag)
  }

  /** The last document of `ds` stored under `key`: the one `nestedObjects[key]` holds after `ds`. */
  function Latest(ds: seq<Record>, key: string): (r: Option<nat>)
    ensures r.Some? ==> r.value < |ds| && TagKey(ds[r.value].tag) == key
    ensures forall k :: 0 <= k < |ds| && (r.None? || r.value < k) ==> TagKey(ds[k].tag) != key
  {
    if ds == [] then None
    else if TagKey(ds[|ds| - 1].tag) == key then Some(|ds| - 1)
    else Latest(ds[..|ds| - 1], key)
  }

  /** Why `toNested` stops at a document. */
  datatype NestError =
    | MissingParent  // no node is stored under the parent key: the source reads a property of `undefined`
    | OntoItself     // the parent key names the document's own node: the self-append recurses until the stack overflows

  /** Where the node of one document goes. */
  datatype Hang = Top | Under(slot: nat) | Broken(error: NestError)

  /**
   * Where the node of document `i` goes: it stays a root when its key is
   * `root`; otherwise it is appended to the node of the latest document up
   * to and including `i` stored under its parent key, and that lookup fails
   * or finds the node itself.
   */
  function HangOf(docs: seq<Record>, i: nat): (h: Hang)
    requires i < |docs|
    ensures h.Under? ==> h.slot < i
  {
    if TagKey(docs[i].tag) == "root" then Top
    else match Latest(docs[..i + 1], ParentKey(docs, docs[i]))
      case None => Broken(MissingParent)
      case Some(j) => if j == i then Broken(OntoItself) else Under(j)
  }

  /**
   * The cases of `HangOf` in terms of the documents: a document stays a root
   * exactly when its key is `root`; it goes under the latest earlier document
   * carrying its parent key; the lookup fails exactly when no document up to
   * it carries that key, and finds the node itself exactly when the parent
   * key is its own key.
   */
  lemma HangMeaning(docs: seq<Record>, i: nat)
    requires i < |docs|
    ensures var h := HangOf(docs, i); var pk := ParentKey(docs, docs[i]);
      && (h.Top? <==> TagKey(docs[i].tag) == "root")
      && (h.Under? ==> h.slot < i && TagKey(docs[h.slot].tag) == pk && TagKey(docs[i].tag) != pk)
      && (h.Under? ==> forall k :: h.slot < k <= i ==> TagKey(docs[k].tag) != pk)
      && (h == Broken(MissingParent) <==> TagKey(docs[i].tag) != "root" && forall k :: 0 <= k <= i ==> TagKey(docs[k].tag) != pk)
      && (h == Broken(OntoItself) <==> TagKey(docs[i].tag) != "root" && pk == TagKey(docs[i].tag))
  {
    var ds := docs[..i + 1];
    assert forall k :: 0 <= k <= i ==> ds[k] == docs[k];
    assert ds[i] == docs[i];
  }

  /**
   * Records as `flat()` writes them carry no tag, so `toNested` stops at
   * every one of them: each key is "undefined", so a document with a
   * container names itself as parent, and one without names `root`, which
   * is never stored.
   */
  lemma UntaggedBroken(docs: seq<Record>, i: nat)
    requires i < |docs| && forall k :: 0 <= k < |docs| ==> docs[k].tag == None
    ensures HangOf(docs, i).Broken?
  {
    var h := HangOf(docs, i);
    if Find(docs, docs[i]).None? {
      assert forall k :: 0 <= k <= i ==> TagKey(docs[k].tag) != ParentKey(docs, docs[i]);
    }
  }

  /** Every document hung under another is hung under an earlier one. */
  predicate Backward(hs: seq<Hang>)
  {
    forall i :: 0 <= i < |hs| && hs[i].Under? ==> hs[i].slot < i
  }

  /** Where every document goes, in document order. */
  function Plan(docs: seq<Record>): (hs: seq<Hang>)
    ensures |hs| == |docs| && Backward(hs)
  {
    PlanUpTo(docs, |docs|)
  }

  /** Where each of the first `m` documents goes. */
  function PlanUpTo(docs: seq<Record>, m: nat): (hs: seq<Hang>)
    requires m <= |docs|
    ensures |hs| == m && Backward(hs)
  {
    if m == 0 then [] else PlanUpTo(docs, m - 1) + [HangOf(docs, m - 1)]
  }

  /** The plan holds, at every index, where that document goes. */
  lemma {:induction false} PlanAt(docs: seq<Record>, m: nat, i: nat)
    requires i < m <= |docs|
    ensures PlanUpTo(docs, m)[i] == HangOf(docs, i)
  {
    var prev := PlanUpTo(docs, m - 1);
    assert PlanUpTo(docs, m) == prev + [HangOf(docs, m - 1)];
    if i < m - 1 {
      PlanAt(docs, m - 1, i);
      assert (prev + [HangOf(docs, m - 1)])[i] == prev[i];
    }
  }

  /** No document of a prefix of the plan is broken exactly when none of them is broken by `HangOf`. */
  lemma PlanUnbroken(docs: seq<Record>, m: nat)
    requires m <= |docs|
    ensures (forall k :: 0 <= k < m ==> !Plan(docs)[k].Broken?) <==> (forall k :: 0 <= k < m ==> !HangOf(docs, k).Broken?)
  {
    forall k | 0 <= k < m ensures Plan(docs)[k] == HangOf(docs, k) {
      PlanAt(docs, |docs|, k);
    }
  }

  /** The indices below `m` of the documents that go under document `j`, in order. */
  function KidsUpTo(hs: seq<Hang>, j: nat, m: nat): (ks: seq<nat>)
    requires m <= |hs|
    ensures forall k :: 0 <= k < |ks| ==> ks[k] < m && hs[ks[k]] == Under(j)
  {
    if m == 0 then []
    else KidsUpTo(hs, j, m - 1) + (if hs[m - 1] == Under(j) then [m - 1] else [])
  }

  /** The indices grow along `ks`. */
  predicate Increasing(ks: seq<nat>)
  {
    forall k, k' :: 0 <= k < k' < |ks| ==> ks[k] < ks[k']
  }

  /** `KidsUpTo` lists its documents in increasing order. */
  lemma {:induction false} KidsOrdered(hs: seq<Hang>, j: nat, m: nat)
    requires m <= |hs|
    ensures Increasing(KidsUpTo(hs, j, m))
  {
    if m > 0 {
      KidsOrdered(hs, j, m - 1);
      var prev := KidsUpTo(hs, j, m - 1);
      if hs[m - 1] == Under(j) {
        var ks := prev + [m - 1];
        assert KidsUpTo(hs, j, m) == ks;
        forall k, k' | 0 <= k < k' < |ks| ensures ks[k] < ks[k'] {
          assert ks[k] == prev[k];
          if k' < |prev| {
            assert ks[k'] == prev[k'];
          }
        }
      }
    }
  }

  /** `KidsUpTo` misses no document below `m` that goes under document `j`. */
  lemma {:induction false} KidsComplete(hs: seq<Hang>, j: nat, m: nat)
    requires m <= |hs|
    ensures var ks := KidsUpTo(hs, j, m); forall i :: 0 <= i < m && hs[i] == Under(j) ==> i in ks
  {
    if m > 0 {
      KidsComplete(hs, j, m - 1);
      var prev := KidsUpTo(hs, j, m - 1);
      var ks := KidsUpTo(hs, j, m);
      if hs[m - 1] == Under(j) {
        assert ks == prev + [m - 1];
        assert forall i :: i in prev ==> i in ks;
        assert m - 1 in ks;
      } else {
        assert ks == prev;
      }
    }
  }

  /** Under a backward plan, no document below `m` goes under document `j` when `m` does not pass `j`. */
  lemma KidsNone(hs: seq<Hang>, j: nat, m: nat)
    requires m <= |hs| && Backward(hs) && m <= j + 1
    ensures KidsUpTo(hs, j, m) == []
  {
  }

  /** The nodes made for the documents at indices `ks`. */
  function Pick(made: seq<Id>, ks: seq<nat>): (r: seq<Id>)
    requires forall k :: 0 <= k < |ks| ==> ks[k] < |made|
    ensures |r| == |ks| && forall k :: 0 <= k < |ks| ==> r[k] == made[ks[k]]
  {
    seq(|ks|, k requires 0 <= k < |ks| => made[ks[k]])
  }

  /** The parent the node of document `j` gets. */
  function Hook(hs: seq<Hang>, made: seq<Id>, j: nat): Option<Id>
    requires j < |hs| && (hs[j].Under? ==> hs[j].slot < |made|)
  {
    match hs[j]
    case Under(s) => Some(made[s])
    case _ => None
  }

  /** What `toNested` returns: the key map of the nodes, or the document it stopped at and why. */
  datatype Nested = Built(nested: map<string, Id>) | Failed(at: nat, error: NestError)

  // ---------------------------------------------------------------------------
  // The state of the loop

  /** `u` is a whole tree of the arena, numbered and with right depths. */
  ghost predicate Whole(links: Links, n: Table, u: Tree)
  {
    Rooted(links, u) && Numbered(n, u) && DepthsOk(links, n, u)
  }

  /** The trees built so far: each whole, and no two sharing a node. */
  ghost predicate Grown(links: Links, n: Table, trees: seq<Tree>)
  {
    && (forall k :: 0 <= k < |trees| ==> Whole(links, n, trees[k]))
    && (forall k, k' :: 0 <= k < |trees| && 0 <= k' < |trees| && k != k' ==> Disjoint(Pre(trees[k]), Pre(trees[k'])))
  }

  /** The node made for document `j` lies in tree `owner[j]`, and every node of a tree was made. */
  ghost predicate Owned(made: seq<Id>, trees: seq<Tree>, owner: seq<nat>)
  {
    && |owner| == |made|
    && (forall j :: 0 <= j < |made| ==> owner[j] < |trees| && made[j] in Pre(trees[owner[j]]))
    && (forall k, z :: 0 <= k < |trees| && z in Pre(trees[k]) ==> z in made)
  }

  /**
   * The nodes made for the first `|made|` documents are new and distinct and
   * carry their document's title, the arena gained exactly them, and every
   * node that was there before is untouched.
   */
  ghost predicate Made(docs: seq<Record>, made: seq<Id>, links0: Links, n0: Table, links: Links, n: Table)
  {
    && |made| <= |docs| && Distinct(made)
    && (forall j :: 0 <= j < |made| ==>
          made[j] !in links0 && made[j] !in n0 && made[j] in links && made[j] in n && n[made[j]].title == docs[j].title)
    && (forall z :: z in links <==> z in links0 || z in made)
    && (forall z :: z in links0 ==> z in links && links[z] == links0[z])
    && (forall z :: z in n0 ==> z in n && n[z] == n0[z])
  }

  /**
   * The node of document `j` hangs where the plan `hs` says, and has as
   * children the nodes of the documents planned under it, in order.
   */
  ghost predicate LinkedAt(hs: seq<Hang>, made: seq<Id>, links: Links, j: nat)
  {
    && j < |made| <= |hs|
    && made[j] in links
    && (hs[j].Top? || (hs[j].Under? && hs[j].slot < j))
    && links[made[j]].parent == Hook(hs, made, j)
    && links[made[j]].children == Pick(made, KidsUpTo(hs, j, |made|))
  }

  /** Every made node is linked as the plan says. */
  ghost predicate Linked(hs: seq<Hang>, made: seq<Id>, links: Links)
  {
    |made| <= |hs| && forall j :: 0 <= j < |made| ==> LinkedAt(hs, made, links, j)
  }

  /** The key map holds, for every key used so far, the node of the latest document stored under it. */
  ghost predicate Keyed(docs: seq<Record>, made: seq<Id>, nested: map<string, Id>)
  {
    && |made| <= |docs|
    && forall k ::
         && (k in nested <==> Latest(docs[..|made|], k).Some?)
         && (k in nested ==> Latest(docs[..|made|], k).value < |made| && nested[k] == made[Latest(docs[..|made|], k).value])
  }

  /** The key map after the node `made[j]` is stored under the key of document `j`, for each `j` in turn. */
  function KeyMap(docs: seq<Record>, made: seq<Id>): map<string, Id>
    requires |made| <= |docs|
  {
    if made == [] then map[]
    else KeyMap(docs, made[..|made| - 1])[TagKey(docs[|made| - 1].tag) := made[|made| - 1]]
  }

  /** Storing one more node extends the key map by its document's key. */
  lemma KeyMapSnoc(docs: seq<Record>, made: seq<Id>, x: Id)
    requires |made| < |docs|
    ensures KeyMap(docs, made + [x]) == KeyMap(docs, made)[TagKey(docs[|made|].tag) := x]
  {
    assert (made + [x])[..|made|] == made;
  }

  /** The key map holds, for every key used so far, the node of the latest document stored under it, and no other key. */
  lemma {:induction false} KeyMapLatest(docs: seq<Record>, made: seq<Id>)
    requires |made| <= |docs|
    ensures Keyed(docs, made, KeyMap(docs, made))
  {
    if made != [] {
      var init, x := made[..|made| - 1], made[|made| - 1];
      KeyMapLatest(docs, init);
      KeyedStep(docs, init, KeyMap(docs, init), x);
      assert init + [x] == made;
    } else {
      assert docs[..0] == [];
    }
  }

  /**
   * The state of `toNested` after the first `|made|` documents: the nodes are
   * made, linked as the plan `hs` says, grouped into whole trees, and stored
   * in the key map.
   */
  ghost predicate Building(docs: seq<Record>, hs: seq<Hang>, made: seq<Id>, trees: seq<Tree>, owner: seq<nat>,
                           nested: map<string, Id>, links0: Links, n0: Table, links: Links, n: Table)
  {
    Placed(docs, hs, made, links0, n0, links, n) && Grouped(made, trees, owner, links, n) && nested == KeyMap(docs, made)
  }

  /** The nodes made so far are fresh, titled after their documents, and linked as the plan `hs` says. */
  ghost predicate Placed(docs: seq<Record>, hs: seq<Hang>, made: seq<Id>, links0: Links, n0: Table, links: Links, n: Table)
  {
    |hs| == |docs| && Backward(hs) && Made(docs, made, links0, n0, links, n) && Linked(hs, made, links)
  }

  /** The nodes made so far form the whole trees `trees`, node `j` lying in tree `owner[j]`. */
  ghost predicate Grouped(made: seq<Id>, trees: seq<Tree>, owner: seq<nat>, links: Links, n: Table)
  {
    Grown(links, n, trees) && Owned(made, trees, owner)
  }

  // ---------------------------------------------------------------------------
  // Step lemmas

  /** A tree whose nodes keep their links and props stays whole, numbered and with right depths. */
  lemma TreeKept(links: Links, n: Table, links': Links, n': Table, u: Tree)
    requires Rooted(links, u) && Numbered(n, u) && DepthsOk(links, n, u)
    requires forall z :: z in Pre(u) ==> z in links' && links'[z] == links[z] && z in n' && n'[z] == n[z]
    ensures Rooted(links', u) && Numbered(n', u) && DepthsOk(links', n', u)
  {
    InLinks(links, u);
    assert forall z :: z in PreAll(u.kids) ==> z in Pre(u);
    ShapedFrame(links, links', u);
    assert u.id in Pre(u);
    forall z | z in Pre(u) ensures DepthOk(links', n', z) && Agrees(n', Number(u, 0), z) {
      Env(links, u, z);
      assert Agrees(n, Number(u, 0), z);
    }
  }

  /** Links that agree on the made nodes keep them linked. */
  lemma LinkedFrame(hs: seq<Hang>, made: seq<Id>, links: Links, links': Links)
    requires Linked(hs, made, links)
    requires forall j :: 0 <= j < |made| ==> made[j] in links && made[j] in links' && links'[made[j]] == links[made[j]]
    ensures Linked(hs, made, links')
  {
    forall j | 0 <= j < |made| ensures LinkedAt(hs, made, links', j) {
      assert LinkedAt(hs, made, links, j);
    }
  }

  /** Adding a node outside the arena keeps the trees grown. */
  lemma GrownFresh(links: Links, n: Table, trees: seq<Tree>, x: Id, l: Link, v: Props)
    requires Grown(links, n, trees) && x !in links
    ensures Grown(links[x := l], n[x := v], trees)
  {
    forall k | 0 <= k < |trees| ensures Whole(links[x := l], n[x := v], trees[k]) {
      InLinks(links, trees[k]);
      assert forall z :: z in Pre(trees[k]) ==> Agrees(n, Number(trees[k], 0), z);
      TreeKept(links, n, links[x := l], n[x := v], trees[k]);
    }
  }

  /** Making a node for the next document adds it to the made nodes. */
  lemma MadeFresh(docs: seq<Record>, made: seq<Id>, links0: Links, n0: Table, links: Links, n: Table, x: Id, links1: Links, n1: Table)
    requires Made(docs, made, links0, n0, links, n)
    requires |made| < |docs| && x !in links && x !in n
    requires links1 == links[x := Link(None, [])] && n1 == n[x := Props(docs[|made|].title, 0, 1, 0)]
    ensures Made(docs, made + [x], links0, n0, links1, n1)
  {
    var made' := made + [x];
    assert forall j :: 0 <= j < |made| ==> made'[j] == made[j];
    assert forall z :: z in made' <==> z in made || z == x;
    assert x !in made;
    forall a, b | 0 <= a < b < |made'| ensures made'[a] != made'[b] {
      if b == |made| {
        assert made'[a] in made;
      }
    }
  }

  /** The state after the node of the next document is made, before it is hung anywhere. */
  lemma MadeNext(docs: seq<Record>, hs: seq<Hang>, made: seq<Id>, trees: seq<Tree>, owner: seq<nat>,
              links0: Links, n0: Table, links: Links, n: Table, x: Id, links1: Links, n1: Table)
    requires Grown(links, n, trees) && Owned(made, trees, owner)
    requires Made(docs, made, links0, n0, links, n) && Linked(hs, made, links)
    requires |made| < |docs| && x !in links && x !in n
    requires links1 == links[x := Link(None, [])] && n1 == n[x := Props(docs[|made|].title, 0, 1, 0)]
    ensures Grown(links1, n1, trees) && Linked(hs, made, links1)
    ensures Made(docs, made + [x], links0, n0, links1, n1)
    ensures Whole(links1, n1, Tree(x, []))
    ensures forall k :: 0 <= k < |trees| ==> Disjoint(Pre(trees[k]), Pre(Tree(x, [])))
  {
    assert Whole(links1, n1, Tree(x, [])) by {
      FreshRoot(links1, n1, x, docs[|made|].title);
    }
    assert forall k :: 0 <= k < |trees| ==> Disjoint(Pre(trees[k]), Pre(Tree(x, []))) by {
      assert Pre(Tree(x, [])) == [x];
      assert forall z :: z in made ==> z in links;
    }
    assert Grown(links1, n1, trees) by {
      GrownFresh(links, n, trees, x, Link(None, []), Props(docs[|made|].title, 0, 1, 0));
    }
    assert Linked(hs, made, links1) by {
      LinkedFrame(hs, made, links, links1);
    }
    MadeFresh(docs, made, links0, n0, links, n, x, links1, n1);
  }

  /** After a document is stored: the key map gains its key, now holding its node. */
  lemma KeyedStep(docs: seq<Record>, made: seq<Id>, nested: map<string, Id>, x: Id)
    requires Keyed(docs, made, nested) && |made| < |docs|
    ensures Keyed(docs, made + [x], nested[TagKey(docs[|made|].tag) := x])
  {
    var i := |made|;
    assert docs[..i + 1][..i] == docs[..i];
  }

  lemma PickSnoc(made: seq<Id>, x: Id, ks: seq<nat>)
    requires forall k :: 0 <= k < |ks| ==> ks[k] < |made|
    ensures Pick(made + [x], ks) == Pick(made, ks)
    ensures Pick(made + [x], ks + [|made|]) == Pick(made, ks) + [x]
  {
  }

  /** A new whole tree sharing no node with the others keeps them grown. */
  lemma GrownTop(links: Links, n: Table, trees: seq<Tree>, u: Tree)
    requires Grown(links, n, trees) && Whole(links, n, u)
    requires forall k :: 0 <= k < |trees| ==> Disjoint(Pre(trees[k]), Pre(u))
    ensures Grown(links, n, trees + [u])
  {
    var trees' := trees + [u];
    forall k | 0 <= k < |trees'| ensures Whole(links, n, trees'[k]) {
      if k < |trees| {
        assert trees'[k] == trees[k];
      }
    }
    forall k, k' | 0 <= k < |trees'| && 0 <= k' < |trees'| && k != k'
      ensures Disjoint(Pre(trees'[k]), Pre(trees'[k']))
    {
      if k < |trees| && k' < |trees| {
        assert trees'[k] == trees[k] && trees'[k'] == trees[k'];
      } else if k < |trees| {
        assert trees'[k] == trees[k] && trees'[k'] == u;
      } else {
        assert trees'[k] == u && trees'[k'] == trees[k'];
        assert Disjoint(Pre(trees[k']), Pre(u));
      }
    }
  }

  /** The node of the next document, as a tree of its own, is owned by a new last tree. */
  lemma OwnedTop(made: seq<Id>, trees: seq<Tree>, owner: seq<nat>, x: Id)
    requires Owned(made, trees, owner)
    ensures Owned(made + [x], trees + [Tree(x, [])], owner + [|trees|])
  {
    var made', trees', owner' := made + [x], trees + [Tree(x, [])], owner + [|trees|];
    assert Pre(Tree(x, [])) == [x];
    forall j | 0 <= j < |made'| ensures owner'[j] < |trees'| && made'[j] in Pre(trees'[owner'[j]]) {
      if j < |made| {
        assert made'[j] == made[j] && owner'[j] == owner[j] && trees'[owner[j]] == trees[owner[j]];
      }
    }
    forall k, z | 0 <= k < |trees'| && z in Pre(trees'[k]) ensures z in made' {
      if k < |trees| {
        assert trees'[k] == trees[k];
      }
    }
  }

  /** A new parentless, childless node planned as a root keeps every made node linked. */
  lemma LinkedTop(hs: seq<Hang>, made: seq<Id>, links: Links, x: Id)
    requires Linked(hs, made, links) && Backward(hs)
    requires |made| < |hs| && hs[|made|] == Top
    requires x in links && links[x] == Link(None, [])
    ensures Linked(hs, made + [x], links)
  {
    var i := |made|;
    var made' := made + [x];
    forall j | 0 <= j < |made'| ensures LinkedAt(hs, made', links, j) {
      if j < i {
        assert LinkedAt(hs, made, links, j);
        PickSnoc(made, x, KidsUpTo(hs, j, i));
        assert KidsUpTo(hs, j, i + 1) == KidsUpTo(hs, j, i);
      } else {
        KidsNone(hs, i, i + 1);
      }
    }
  }

  /** The node of a `root`-keyed document starts a tree of its own. */
  lemma StepTop(hs: seq<Hang>, made: seq<Id>, trees: seq<Tree>, owner: seq<nat>, links: Links, n: Table, x: Id)
    requires Grown(links, n, trees) && Owned(made, trees, owner) && Linked(hs, made, links) && Backward(hs)
    requires |made| < |hs| && hs[|made|] == Top
    requires x in links && links[x] == Link(None, [])
    requires Whole(links, n, Tree(x, []))
    requires forall k :: 0 <= k < |trees| ==> Disjoint(Pre(trees[k]), Pre(Tree(x, [])))
    ensures Grown(links, n, trees + [Tree(x, [])])
    ensures Owned(made + [x], trees + [Tree(x, [])], owner + [|trees|])
    ensures Linked(hs, made + [x], links)
  {
    GrownTop(links, n, trees, Tree(x, []));
    OwnedTop(made, trees, owner, x);
    LinkedTop(hs, made, links, x);
  }

  /** Hanging the single node `u` below `p` in tree `o` keeps the trees grown. */
  lemma GrownAppend(links1: Links, n1: Table, trees: seq<Tree>, o: nat, p: Id, u: Tree, links2: Links, n2: Table)
    requires Grown(links1, n1, trees) && o < |trees| && Whole(links1, n1, u) && u.kids == []
    requires forall k :: 0 <= k < |trees| ==> Disjoint(Pre(trees[k]), Pre(u))
    requires Appended(links1, n1, trees[o], p, u, links2, n2)
    ensures Grown(links2, n2, trees[o := AppendTree(trees[o], p, u)])
  {
    var t := trees[o];
    var r := AppendTree(t, p, u);
    var trees' := trees[o := r];
    assert u.id in Pre(u);
    assert Whole(links2, n2, r) by {
      AppendDepths(links1, n1, t, p, u, links2, n2);
    }
    forall k | 0 <= k < |trees| && k != o ensures Whole(links2, n2, trees[k]) {
      assert Disjoint(Pre(trees[k]), Pre(t));
      assert p !in Pre(trees[k]);
      InLinks(links1, trees[k]);
      TreeKept(links1, n1, links2, n2, trees[k]);
    }
    forall k | 0 <= k < |trees'| ensures Whole(links2, n2, trees'[k]) {
      if k != o {
        assert trees'[k] == trees[k];
      }
    }
    forall k, k' | 0 <= k < |trees'| && 0 <= k' < |trees'| && k != k'
      ensures Disjoint(Pre(trees'[k]), Pre(trees'[k']))
    {
      assert Disjoint(Pre(trees[k]), Pre(trees[k']));
      if k == o {
        assert Disjoint(Pre(trees[k']), Pre(u));
      } else if k' == o {
        assert Disjoint(Pre(trees[k]), Pre(u));
      }
    }
  }

  /** Hanging the next document's node into tree `o` keeps every node owned. */
  lemma OwnedAppend(made: seq<Id>, trees: seq<Tree>, owner: seq<nat>, o: nat, x: Id, r: Tree)
    requires Owned(made, trees, owner) && o < |trees|
    requires forall z :: z in Pre(r) <==> z in Pre(trees[o]) || z == x
    ensures Owned(made + [x], trees[o := r], owner + [o])
  {
    var made', trees', owner' := made + [x], trees[o := r], owner + [o];
    forall j | 0 <= j < |made'| ensures owner'[j] < |trees'| && made'[j] in Pre(trees'[owner'[j]]) {
      if j < |made| {
        assert made'[j] == made[j] && owner'[j] == owner[j];
      }
    }
    forall k, z | 0 <= k < |trees'| && z in Pre(trees'[k]) ensures z in made' {
      if k != o {
        assert trees'[k] == trees[k];
      }
    }
  }

  /** The append leaves every node the loop did not make untouched. */
  lemma MadeAppend(docs: seq<Record>, made: seq<Id>, links0: Links, n0: Table, links1: Links, n1: Table,
                   t: Tree, p: Id, u: Tree, links2: Links, n2: Table)
    requires Made(docs, made, links0, n0, links1, n1)
    requires Appended(links1, n1, t, p, u, links2, n2)
    requires forall z :: z in Pre(t) || z in Pre(u) ==> z in made
    ensures Made(docs, made, links0, n0, links2, n2)
  {
    var n1' := Deepen(n1, p, u.id);
    assert u.id in Pre(u);
    assert p in made && u.id in made;
    forall j | 0 <= j < |made| ensures made[j] in links2 && made[j] in n2 && n2[made[j]].title == docs[j].title {
      assert n2[made[j]].title == n1'[made[j]].title;
    }
    forall z | z in links0 ensures z in links2 && links2[z] == links0[z] {
      assert z !in made;
    }
    forall z | z in n0 ensures z in n2 && n2[z] == n0[z] {
      assert z !in made;
    }
  }

  /** The links after the append stay as they were except at the new parent and the new child. */
  lemma LinkedUnder(hs: seq<Hang>, made: seq<Id>, links1: Links, links2: Links, x: Id, s: nat)
    requires Linked(hs, made, links1) && Backward(hs) && Distinct(made) && x !in made
    requires |made| < |hs| && hs[|made|] == Under(s) && made[s] in links1
    requires x in links1 && links1[x] == Link(None, [])
    requires links2 == AppendLinks(links1, made[s], x)
    ensures Linked(hs, made + [x], links2)
  {
    var i := |made|;
    var p := made[s];
    var made' := made + [x];
    forall j | 0 <= j < |made'| ensures LinkedAt(hs, made', links2, j) {
      if j < i {
        assert LinkedAt(hs, made, links1, j);
        var ks := KidsUpTo(hs, j, i);
        PickSnoc(made, x, ks);
        if j == s {
          assert KidsUpTo(hs, j, i + 1) == ks + [i];
        } else {
          assert made[j] != p;
          assert KidsUpTo(hs, j, i + 1) == ks;
        }
      } else {
        KidsNone(hs, i, i + 1);
      }
    }
  }

  /** The node of document `s` sits in a whole tree that shares no node with a fresh single node. */
  lemma OwnerTree(made: seq<Id>, trees: seq<Tree>, owner: seq<nat>, links: Links, n: Table, s: nat, x: Id)
    requires Grown(links, n, trees) && Owned(made, trees, owner) && s < |made|
    requires Whole(links, n, Tree(x, [])) && forall k :: 0 <= k < |trees| ==> Disjoint(Pre(trees[k]), Pre(Tree(x, [])))
    ensures owner[s] < |trees| && made[s] in Pre(trees[owner[s]])
    ensures Rooted(links, trees[owner[s]]) && Rooted(links, Tree(x, []))
    ensures Disjoint(Pre(trees[owner[s]]), Pre(Tree(x, [])))
  {
    assert Whole(links, n, trees[owner[s]]);
  }

  /** The node of a document planned under the node of document `s` joins that node's tree. */
  lemma StepUnder(docs: seq<Record>, hs: seq<Hang>, made: seq<Id>, trees: seq<Tree>, owner: seq<nat>,
                  links0: Links, n0: Table, links1: Links, n1: Table, links2: Links, n2: Table, x: Id, s: nat)
    requires Grown(links1, n1, trees) && Owned(made, trees, owner) && Linked(hs, made, links1) && Backward(hs)
    requires Made(docs, made + [x], links0, n0, links1, n1)
    requires |made| < |hs| && hs[|made|] == Under(s)
    requires links1[x] == Link(None, []) && Whole(links1, n1, Tree(x, []))
    requires forall k :: 0 <= k < |trees| ==> Disjoint(Pre(trees[k]), Pre(Tree(x, [])))
    requires Appended(links1, n1, trees[owner[s]], made[s], Tree(x, []), links2, n2)
    ensures Grown(links2, n2, trees[owner[s] := AppendTree(trees[owner[s]], made[s], Tree(x, []))])
    ensures Owned(made + [x], trees[owner[s] := AppendTree(trees[owner[s]], made[s], Tree(x, []))], owner + [owner[s]])
    ensures Made(docs, made + [x], links0, n0, links2, n2)
    ensures Linked(hs, made + [x], links2)
  {
    var o, p, u := owner[s], made[s], Tree(x, []);
    var made' := made + [x];
    assert Pre(u) == [x];
    assert x !in made && Distinct(made) by {
      assert made'[|made|] == x;
      assert forall j :: 0 <= j < |made| ==> made'[j] == made[j];
    }
    GrownAppend(links1, n1, trees, o, p, u, links2, n2);
    OwnedAppend(made, trees, owner, o, x, AppendTree(trees[o], p, u));
    assert forall z :: z in made ==> z in made';
    MadeAppend(docs, made', links0, n0, links1, n1, trees[o], p, u, links2, n2);
    LinkedUnder(hs, made, links1, links2, x, s);
  }

  /** The node of a document planned as a root, made and stored, starts a tree of its own. */
  lemma TopStep(docs: seq<Record>, hs: seq<Hang>, made: seq<Id>, trees: seq<Tree>, owner: seq<nat>,
                nested: map<string, Id>, links0: Links, n0: Table, links: Links, n: Table,
                x: Id, links1: Links, n1: Table, trees': seq<Tree>, owner': seq<nat>, nested': map<string, Id>)
    requires Building(docs, hs, made, trees, owner, nested, links0, n0, links, n)
    requires |made| < |docs| && hs[|made|] == Top && x !in links && x !in n
    requires links1 == links[x := Link(None, [])] && n1 == n[x := Props(docs[|made|].title, 0, 1, 0)]
    requires trees' == trees + [Tree(x, [])] && owner' == owner + [|trees|]
    requires nested' == nested[TagKey(docs[|made|].tag) := x]
    ensures Placed(docs, hs, made + [x], links0, n0, links1, n1) && Grouped(made + [x], trees', owner', links1, n1)
    ensures nested' == KeyMap(docs, made + [x])
  {
    MadeNext(docs, hs, made, trees, owner, links0, n0, links, n, x, links1, n1);
    KeyMapSnoc(docs, made, x);
    StepTop(hs, made, trees, owner, links1, n1, x);
  }

  /** Before the node of a document planned under document `s` is appended: what `append` needs. */
  lemma UnderReady(docs: seq<Record>, hs: seq<Hang>, made: seq<Id>, trees: seq<Tree>, owner: seq<nat>,
                   nested: map<string, Id>, links0: Links, n0: Table, links: Links, n: Table,
                   x: Id, links1: Links, n1: Table, s: nat)
    requires Building(docs, hs, made, trees, owner, nested, links0, n0, links, n)
    requires |made| < |docs| && hs[|made|] == Under(s) && x !in links && x !in n
    requires links1 == links[x := Link(None, [])] && n1 == n[x := Props(docs[|made|].title, 0, 1, 0)]
    ensures s < |made| && owner[s] < |trees| && made[s] in Pre(trees[owner[s]])
    ensures Rooted(links1, trees[owner[s]]) && Rooted(links1, Tree(x, []))
    ensures Disjoint(Pre(trees[owner[s]]), Pre(Tree(x, [])))
  {
    MadeNext(docs, hs, made, trees, owner, links0, n0, links, n, x, links1, n1);
    OwnerTree(made, trees, owner, links1, n1, s, x);
  }

  /** After the node of a document planned under document `s` is appended to that node. */
  lemma UnderStep(docs: seq<Record>, hs: seq<Hang>, made: seq<Id>, trees: seq<Tree>, owner: seq<nat>,
                  nested: map<string, Id>, links0: Links, n0: Table, links: Links, n: Table,
                  x: Id, links1: Links, n1: Table, s: nat, links2: Links, n2: Table,
                  trees': seq<Tree>, owner': seq<nat>, nested': map<string, Id>)
    requires Building(docs, hs, made, trees, owner, nested, links0, n0, links, n)
    requires |made| < |docs| && hs[|made|] == Under(s) && x !in links && x !in n
    requires links1 == links[x := Link(None, [])] && n1 == n[x := Props(docs[|made|].title, 0, 1, 0)]
    requires s < |made| && owner[s] < |trees|
    requires Appended(links1, n1, trees[owner[s]], made[s], Tree(x, []), links2, n2)
    requires trees' == trees[owner[s] := AppendTree(trees[owner[s]], made[s], Tree(x, []))] && owner' == owner + [owner[s]]
    requires nested' == nested[TagKey(docs[|made|].tag) := x]
    ensures Placed(docs, hs, made + [x], links0, n0, links2, n2) && Grouped(made + [x], trees', owner', links2, n2)
    ensures nested' == KeyMap(docs, made + [x])
  {
    MadeNext(docs, hs, made, trees, owner, links0, n0, links, n, x, links1, n1);
    KeyMapSnoc(docs, made, x);
    StepUnder(docs, hs, made, trees, owner, links0, n0, links1, n1, links2, n2, x, s);
  }

  /**
   * How `toNested` decides where the node of the next document goes, from
   * its key, its parent key and the key map of the documents before it: a
   * root for the key `root`; otherwise broken onto itself when the parent key
   * is its own key (its own node is stored under it just before the lookup),
   * broken for want of a parent when no node is stored under the parent key,
   * and under the document whose node is stored there otherwise.
   */
  predicate Decides(key: string, pk: string, nested: map<string, Id>, made: seq<Id>, h: Hang)
  {
    && (h == Top <==> key == "root")
    && (h == Broken(OntoItself) <==> key != "root" && pk == key)
    && (h == Broken(MissingParent) <==> key != "root" && pk != key && pk !in nested)
    && (h.Under? ==> h.slot < |made| && pk in nested && nested[pk] == made[h.slot])
  }

  /** Past the two broken cases, a decision hangs the document under a node already made. */
  lemma DecidedUnder(key: string, pk: string, nested: map<string, Id>, made: seq<Id>, h: Hang) returns (s: nat)
    requires Decides(key, pk, nested, made, h) && key != "root" && pk != key && pk in nested
    ensures h == Under(s) && s < |made| && nested[pk] == made[s]
  {
    match h
    case Under(slot) => s := slot;
    case Top => assert false;
    case Broken(e) =>
      match e
      case OntoItself => assert false;
      case MissingParent => assert false;
  }

  /** The key map decides where each document goes just as `HangOf` says. */
  lemma HangFromKeys(docs: seq<Record>, made: seq<Id>)
    requires |made| < |docs|
    ensures Decides(TagKey(docs[|made|].tag), ParentKey(docs, docs[|made|]), KeyMap(docs, made), made, HangOf(docs, |made|))
  {
    var i := |made|;
    KeyMapLatest(docs, made);
    assert docs[..i + 1][..i] == docs[..i];
  }

  /**
   * What `toNested` leaves behind when it gets through: one new node per
   * document, linked exactly as `Plan(docs)` says, the key map holding the
   * latest node per key, the new nodes forming whole numbered trees beside
   * the old arena, and every new node passing `validate()`.
   */
  ghost predicate Reconstructed(docs: seq<Record>, made: seq<Id>, trees: seq<Tree>, owner: seq<nat>,
                                nested: map<string, Id>, links0: Links, n0: Table, links: Links, n: Table)
  {
    && |made| == |docs|
    && Made(docs, made, links0, n0, links, n)
    && Linked(Plan(docs), made, links)
    && nested == KeyMap(docs, made) && Keyed(docs, made, nested)
    && Grown(links, n, trees) && Owned(made, trees, owner)
    && (forall j :: 0 <= j < |made| ==> Passes(links, n, made[j]))
  }

  /** Before the first document: nothing made, nothing stored, the arena as it was. */
  lemma Start(docs: seq<Record>, links: Links, n: Table)
    ensures Building(docs, Plan(docs), [], [], [], map[], links, n, links, n)
  {
  }

  /** Once every document is placed, the loop state is a reconstruction. */
  lemma Finished(docs: seq<Record>, made: seq<Id>, trees: seq<Tree>, owner: seq<nat>,
                 nested: map<string, Id>, links0: Links, n0: Table, links: Links, n: Table)
    requires Building(docs, Plan(docs), made, trees, owner, nested, links0, n0, links, n) && |made| == |docs|
    ensures Reconstructed(docs, made, trees, owner, nested, links0, n0, links, n)
  {
    KeyMapLatest(docs, made);
    AllPass(made, trees, owner, links, n);
  }

  /** Every node the loop made passes `validate()`. */
  lemma AllPass(made: seq<Id>, trees: seq<Tree>, owner: seq<nat>, links: Links, n: Table)
    requires Grown(links, n, trees) && Owned(made, trees, owner)
    ensures forall j :: 0 <= j < |made| ==> Passes(links, n, made[j])
  {
    forall j | 0 <= j < |made| ensures Passes(links, n, made[j]) {
      NumberedPasses(links, n, trees[owner[j]], made[j]);
    }
  }

  // ---------------------------------------------------------------------------
  // Well-formed records

  /**
   * Records as an export of one tree would list them: the first is tagged
   * `root`, no two share a tag, and every record comes after each record
   * that contains it.
   */
  predicate WellFormed(docs: seq<Record>)
  {
    && |docs| > 0 && TagKey(docs[0].tag) == "root"
    && (forall a, b :: 0 <= a < b < |docs| ==> TagKey(docs[a].tag) != TagKey(docs[b].tag))
    && (forall i, k :: 0 <= i < |docs| && 0 <= k < |docs| && Contains(docs[k], docs[i]) ==> k < i)
  }

  /** The document `docs[i]` belongs under: the first that contains it, or the first document when none does. */
  function Container(docs: seq<Record>, i: nat): nat
    requires i < |docs|
  {
    match Find(docs, docs[i])
    case Some(j) => j
    case None => 0
  }

  /**
   * In well-formed records the first document stays a root and every other
   * document goes under the node of the first document containing it, or
   * under the `root` document when none contains it.
   */
  lemma WellFormedHang(docs: seq<Record>, i: nat)
    requires WellFormed(docs) && i < |docs|
    ensures HangOf(docs, i) == if i == 0 then Top else Under(Container(docs, i))
    ensures 0 < i ==> Container(docs, i) < i
  {
    HangMeaning(docs, i);
    if i > 0 {
      var pk := ParentKey(docs, docs[i]);
      var c := Container(docs, i);
      assert c < i && TagKey(docs[c].tag) == pk by {
        match Find(docs, docs[i])
        case None =>
        case Some(j) => assert Contains(docs[j], docs[i]);
      }
      assert TagKey(docs[0].tag) != TagKey(docs[i].tag);
      assert TagKey(docs[c].tag) != TagKey(docs[i].tag);
      var h := HangOf(docs, i);
      if h.Under? {
        assert c <= h.slot;
      }
    }
  }

  /** Well-formed records never stop `toNested`. */
  lemma WellFormedUnbroken(docs: seq<Record>)
    requires WellFormed(docs)
    ensures forall i :: 0 <= i < |docs| ==> !HangOf(docs, i).Broken?
  {
    forall i | 0 <= i < |docs| ensures !HangOf(docs, i).Broken? {
      WellFormedHang(docs, i);
    }
  }

  /** In a reconstruction from well-formed records, each node's parent is the node of its document's container. */
  lemma ParentsFromRecords(docs: seq<Record>, made: seq<Id>, links: Links, i: nat)
    requires WellFormed(docs) && |made| == |docs| && Linked(Plan(docs), made, links) && i < |docs|
    ensures made[i] in links
    ensures links[made[i]].parent == if i == 0 then None else Some(made[Container(docs, i)])
  {
    assert LinkedAt(Plan(docs), made, links, i);
    PlanAt(docs, |docs|, i);
    WellFormedHang(docs, i);
  }

  /** In a reconstruction from well-formed records, every node lies in the tree of the first node. */
  lemma {:induction false} OneOwner(docs: seq<Record>, made: seq<Id>, trees: seq<Tree>, owner: seq<nat>, links: Links, n: Table, i: nat)
    requires WellFormed(docs) && |made| == |docs| && Linked(Plan(docs), made, links)
    requires Grown(links, n, trees) && Owned(made, trees, owner) && i < |docs|
    ensures owner[i] == owner[0]
    decreases i
  {
    if i > 0 {
      var c := Container(docs, i);
      ParentsFromRecords(docs, made, links, i);
      WellFormedHang(docs, i);
      OneOwner(docs, made, trees, owner, links, n, c);
      var u := trees[owner[i]];
      assert Whole(links, n, u);
      Env(links, u, made[i]);
      assert made[c] in Pre(u) && made[c] in Pre(trees[owner[c]]);
    }
  }

  /** In a reconstruction from well-formed records, each document's tag holds that document's node. */
  lemma KeysFromRecords(docs: seq<Record>, made: seq<Id>, nested: map<string, Id>, i: nat)
    requires WellFormed(docs) && |made| == |docs| && Keyed(docs, made, nested) && i < |docs|
    ensures TagKey(docs[i].tag) in nested && nested[TagKey(docs[i].tag)] == made[i]
  {
    var key := TagKey(docs[i].tag);
    assert docs[..|made|] == docs;
    var l := Latest(docs, key);
    assert l.Some? && l.value >= i;
  }

  /** The nodes made from well-formed records form one whole tree, topped by the first node and shaped by the containers. */
  lemma OneTree(docs: seq<Record>, made: seq<Id>, trees: seq<Tree>, owner: seq<nat>, links: Links, n: Table)
    requires WellFormed(docs) && |made| == |docs| && Linked(Plan(docs), made, links)
    requires Grown(links, n, trees) && Owned(made, trees, owner)
    ensures owner[0] < |trees| && Whole(links, n, trees[owner[0]]) && trees[owner[0]].id == made[0]
    ensures forall z :: z in Pre(trees[owner[0]]) <==> z in made
    ensures links[made[0]].parent == None
    ensures forall i :: 0 < i < |docs| ==> links[made[i]].parent == Some(made[Container(docs, i)])
  {
    var u := trees[owner[0]];
    forall i | 0 <= i < |docs|
      ensures made[i] in Pre(u)
      ensures links[made[i]].parent == if i == 0 then None else Some(made[Container(docs, i)])
    {
      OneOwner(docs, made, trees, owner, links, n, i);
      ParentsFromRecords(docs, made, links, i);
    }
    assert Whole(links, n, u);
    Env(links, u, made[0]);
  }

  /**
   * `toNested` on well-formed records rebuilds one tree: every new node lies
   * in the whole, numbered tree topped by the node of the `root` document,
   * every other node hangs under the node of the first document containing
   * its own, and the key map holds each document's node under its tag.
   */
  lemma WellFormedTree(docs: seq<Record>, made: seq<Id>, trees: seq<Tree>, owner: seq<nat>,
                       nested: map<string, Id>, links0: Links, n0: Table, links: Links, n: Table)
    requires WellFormed(docs) && Reconstructed(docs, made, trees, owner, nested, links0, n0, links, n)
    ensures owner[0] < |trees| && Whole(links, n, trees[owner[0]]) && trees[owner[0]].id == made[0]
    ensures forall z :: z in Pre(trees[owner[0]]) <==> z in made
    ensures links[made[0]].parent == None
    ensures forall i :: 0 < i < |docs| ==> links[made[i]].parent == Some(made[Container(docs, i)])
    ensures forall i :: 0 <= i < |docs| ==> TagKey(docs[i].tag) in nested && nested[TagKey(docs[i].tag)] == made[i]
  {
    OneTree(docs, made, trees, owner, links, n);
    forall i | 0 <= i < |docs| ensures TagKey(docs[i].tag) in nested && nested[TagKey(docs[i].tag)] == made[i] {
      KeysFromRecords(docs, made, nested, i);
    }
  }
}
