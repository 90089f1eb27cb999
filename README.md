# Nested-set tree node, modelled in Dafny

This project models `NestedSetNode`, the tree node of a nested-set hierarchy.
Every node carries a title and a `(left, right, depth)` triple. A tree is
numbered when a pre-order walk hands each node its `left` on the way down and
its `right` on the way up, so that the span of every node encloses the spans
of its descendants. The model covers:

- the constructor, with and without a parent;
- the read-only queries `isLeaf`, `isRoot`, `prevSibling`, `nextSibling`,
  `countNextSiblings` and `getSize`;
- the mutations `append`, `prepend` and `removeChild`, and the renumbering
  walk `rebuild` they end with;
- `toNestedSetProperties` and `flat`, which write a tree out as records;
- `toNested`, which builds nodes back from records;
- `validate`, the check of one node against its parent.

## How the model is laid out

Nodes live in an arena, the class `NestedSetNode.Forest`:

- `links` maps each node id to its parent and its ordered children;
- `props` maps each node id to its title and triple;
- `next` is the next free id.

Object identity in the source is the node id here. The methods of the source
become methods of `Forest` that take the node they run on as `self` and
update `links` and `props` in place. Acyclicity is carried by a ghost `Tree`
value that the arena must match (`Shape.Rooted`).

`rebuild` is a tail-recursive walk. It is written as the method
`Forest.Rebuild`, with `Forest.Visit`, `Forest.Descend` and `Forest.Leave`,
and is proved equal, step by step, to the ghost function `Arena.Walk`. The
walk is then proved to produce the pre-order numbering `Numbering.Number`:

- from the root (`WalkTheorems.WalkFromRoot`);
- from any node of an already numbered tree (`Graft.RebuildIdempotent`);
- from the node whose children a mutation changed (`Graft.Renumbered`).

`toNested` is the loop method `Forest.ToNested`. One step of it is
`Forest.PlaceNext`, with `PlaceTop` and `PlaceUnder`. Its result is
described by `Reconstruct.HangOf` and `Reconstruct.Plan`: for every
document, whether it stays a root, goes under the node of an earlier
document, or stops the loop with an error.

Modules, in dependency order:

- `Shape`: the ghost tree, pre-order, span sizes.
- `Numbering`: the target numbering.
- `Arena`: the arena, the queries and the walk.
- `WalkProof` and `WalkTheorems`: the walk numbers trees.
- `Records`: the persisted record.
- `Graft` and `Relink`: relinking and renumbering after a change.
- `Mutations`: append, prepend, remove.
- `Validation`: `validate` and depths.
- `Queries`: the queries on whole trees.
- `Reconstruct`: `toNested`'s plan and loop state.
- `NestedSetNode`: the `Forest` class.

### Behaviours of the code worth knowing

- **Which documents stay roots.** `toNested` decides only by a document's own
  key: a record with no containing record is not kept as a root; the code
  appends it under the node stored under the key `root`, and fails when no
  node is stored there. Only a document tagged `root` stays a root.
- **`toNested(flat())` does not rebuild the tree**, because `flat()` writes no
  tags: `toNestedSetProperties` copies a `tag` the node never assigns, so
  every record it writes is untagged, and `toNested` stops at the first of
  them (`Reconstruct.UntaggedBroken`). Records that do carry distinct tags,
  with the `root` record first and every containing record before what it
  contains, are rebuilt into one tree (`Reconstruct.WellFormedTree`).
- **Depths in moved subtrees.** `append` and `prepend` set the depth of the
  hung node only, never of its descendants. Hanging a subtree with children
  therefore leaves wrong depths (`Validation.AppendDepths`).
- **The node `removeChild` detaches.** It keeps its old depth and then fails
  `validate()` (`Validation.RemoveDepths`).
- **`rebuild` and `flat` from below the top.** Started at an inner node, the
  walk still lists every node of the tree exactly once, whatever the lefts
  and rights (`Graft.ListAnyTable`). The numbers come out right only when
  the ancestors' lefts already are (`WalkTheorems.WalkFromInner`). Below a
  subtree detached by `removeChild`, whose top keeps its old triple, the
  descendants are numbered from that stale left and the top is renumbered
  from 0 afterwards, so they can land outside its span.

## Verifying

All files are verified together, with a resource limit in place of the
default time limit:

    dafny verify --resource-limit 2000000 --verification-time-limit 0 --warn-contradictory-assumptions *.dfy

Without these options a few of the larger proofs hit the default 30-second
limit.

## Model

| member | source | states |
|---|---|---|
| NestedSetNode.Forest.NewNode | lib/nested-set-node.ts:39-53 | the constructor without a parent adds one fresh id: parentless, childless, with the given title, left, right and depth, and every other node unchanged |
| NestedSetNode.Forest.NewChild | lib/nested-set-node.ts:39-53 | the constructor with a parent is the fresh node followed by `append` to the parent: the arena afterwards is exactly what `Appended` describes for that fresh node |
| Validation.FreshRoot | lib/nested-set-node.ts:39-53 | a node built with the default triple (0, 1, 0) is a whole numbered tree with right depths and passes `validate()` |
| Arena.IsLeaf | lib/nested-set-node.ts:59-61 | `isLeaf()`: positive depth and no children; its meaning on whole trees is stated by `Queries.LeafIff` |
| Arena.IsRoot | lib/nested-set-node.ts:67-69 | `isRoot()`: no parent; its meaning on whole trees is stated by `Queries.RootIff` |
| Arena.PrevSibling | lib/nested-set-node.ts:75-83 | a previous sibling is found only for a node with a parent that lists it, and is another child of that parent; a node missing from its parent's children has none |
| Arena.NextSibling | lib/nested-set-node.ts:89-97 | a next sibling is always a child of the parent; a node missing from its parent's children gets the parent's first child, as `indexOf` returns -1 |
| Queries.LeafIff | lib/nested-set-node.ts:59-61 | in a tree with right depths, `isLeaf` holds exactly for the childless nodes other than the top (a childless root is no leaf) |
| Queries.RootIff | lib/nested-set-node.ts:67-69 | in a whole tree, `isRoot` holds exactly for the top node; the top has no previous or next sibling and 0 next siblings |
| Queries.KidQueries | lib/nested-set-node.ts:75-109 | for the `i`-th child: it is not a root, its previous and next siblings are the children at `i-1` and `i+1` when they exist, and `|kids| - 1 - i` siblings follow it |
| Queries.SiblingsInverse | lib/nested-set-node.ts:75-97 | `y` is the next sibling of `x` if and only if `x` is the previous sibling of `y` |
| Queries.LastIff | lib/nested-set-node.ts:89-109 | a node has no next sibling if and only if `countNextSiblings` is 0 |
| Arena.CountNextSiblings | lib/nested-set-node.ts:103-109 | the count of next siblings is never negative |
| Arena.IndexOf | lib/nested-set-node.ts:77 | `indexOf`: the first index holding the value, or -1 exactly when the value is absent |
| NestedSetNode.Forest.GetSize | lib/nested-set-node.ts:115-126 | the loop returns the span size of the subtree, which is twice its number of nodes |
| Shape.SpanIsTwiceCount | lib/nested-set-node.ts:115-126 | the recursive size formula (2 plus the children's sizes) equals twice the number of nodes |
| Queries.LeafSpan | lib/nested-set-node.ts:115-126 | in a numbered whole tree, `right = left + 2·(nodes in the subtree) - 1`, so a leaf spans exactly two numbers |
| NestedSetNode.Forest.Visit | lib/nested-set-node.ts:158-173 | a node not yet on the list gets its left (0 at a root, parent's left + 1 for a first child, previous sibling's right + 1 otherwise) and is pushed; a listed node changes nothing |
| NestedSetNode.Forest.Rebuild | lib/nested-set-node.ts:157-204 | the method leaves the links alone, keeps the arena closed, and produces exactly the table and list of the walk `Walk` |
| NestedSetNode.Forest.Descend | lib/nested-set-node.ts:175-191 | sets the right from the span size, then descends into the first unvisited child or leaves, exactly as `Arena.Descend` says |
| NestedSetNode.Forest.Leave | lib/nested-set-node.ts:193-203 | a root ends the walk; any other node continues at its next sibling, else at its parent, exactly as `Arena.Leave` says |
| Arena.NewLeft | lib/nested-set-node.ts:158-170 | the left a first visit gives: 0 at a root, the parent's left + 1 for a first child, the previous sibling's right + 1 otherwise, the old left for a node missing from its parent's children; `WalkTheorems.WalkFromRoot` shows the walk built on it numbers trees |
| Arena.Walk | lib/nested-set-node.ts:157-204 | `rebuild()` as a function of the arena, with termination shown on whole trees; `Forest.Rebuild` is proved equal to it and the walk theorems say what it computes |
| Arena.FirstUnvisited | lib/nested-set-node.ts:178-184 | the `reduce` picks a child not on the list such that every earlier child is on it, and finds none only when all children are on the list |
| WalkProof.WalkKeeps | lib/nested-set-node.ts:157-204 | the walk changes only lefts and rights, only of nodes of the tree, and lists only listed nodes or nodes of the tree |
| WalkTheorems.WalkFromRoot | lib/nested-set-node.ts:157-204 | `rebuild()` on a root gives every node of its tree the pre-order span and returns the nodes in pre-order |
| WalkTheorems.WalkFromInner | lib/nested-set-node.ts:157-204 | started at an inner node whose ancestors already have correct lefts, the walk gives the same table as from the root and visits every node exactly once; without that condition the list is still every node once (`Graft.ListAnyTable`) |
| WalkProof.WalkList | lib/nested-set-node.ts:157-204 | the list the walk returns depends only on the links, the start and the list it is given, never on the lefts and rights in the table |
| Graft.ListAnyTable | lib/nested-set-node.ts:157-204 | started at any node of a whole tree, whatever the table holds, the walk lists every node of the tree exactly once |
| Graft.RebuildIdempotent | lib/nested-set-node.ts:157-204 | on a numbered tree, `rebuild()` from any node changes nothing |
| Graft.Renumbered | lib/nested-set-node.ts:157-204 | after the children of `p` in a numbered tree are relinked, `rebuild()` from `p` numbers the new tree, keeps titles and depths, and leaves nodes outside it alone |
| NestedSetNode.Forest.Append | lib/nested-set-node.ts:133-138 | `append`: the node becomes the last child of `self`, one level deeper than it, and the arena is exactly what `Appended` describes: the grown tree is whole and renumbered, nodes elsewhere are unchanged |
| Relink.AppendLinks | lib/nested-set-node.ts:133-136 | `append`'s relink: the node's parent becomes `p` and it is added after `p`'s other children; no other link changes |
| Relink.Deepen | lib/nested-set-node.ts:135 | only the hung node's depth changes, to one more than the parent's; titles and spans stay |
| Mutations.AppendWalk | lib/nested-set-node.ts:133-138 | after the relink of `append`, the arena stays closed, the grown tree is whole, and the rebuild from `self` numbers it when the old tree was numbered |
| Validation.AppendDepths | lib/nested-set-node.ts:133-138 | after `append`, the depths of the grown tree stay right if and only if the appended node has no children |
| NestedSetNode.Forest.Prepend | lib/nested-set-node.ts:145-150 | `prepend`: as `append`, but the node becomes the first child (`Prepended`) |
| Relink.PrependLinks | lib/nested-set-node.ts:145-148 | `prepend`'s relink: the node's parent becomes `p` and it is added before `p`'s other children; no other link changes |
| Mutations.PrependWalk | lib/nested-set-node.ts:145-150 | after the relink of `prepend`, the arena stays closed, the grown tree is whole, and the rebuild numbers it when the old tree was numbered |
| Validation.PrependDepths | lib/nested-set-node.ts:145-150 | after `prepend`, the depths stay right if and only if the prepended node has no children |
| NestedSetNode.Forest.RemoveChild | lib/nested-set-node.ts:270-278 | a node not among the children changes nothing; otherwise it is spliced out and loses its parent, the rest is renumbered, and the detached subtree is whole and keeps its props (`Removed`) |
| Relink.RemoveLinks | lib/nested-set-node.ts:271-275 | `removeChild`'s relink: the child at the found index is spliced out of `p`'s children and loses its parent; no other link changes |
| Mutations.RemoveWalk | lib/nested-set-node.ts:270-278 | after the splice, both the remaining tree and the detached subtree are whole, their nodes split the old tree, and the rebuild numbers the remaining tree |
| Validation.RemoveDepths | lib/nested-set-node.ts:270-278 | the remaining tree keeps right depths; the detached child fails `validate()` with the missing-parent error |
| NestedSetNode.Forest.Flat | lib/nested-set-node.ts:233-235 | `flat()` runs the walk and returns one record per visited node, in visiting order, each projected from the node's final props; the arena stays closed, and from any node of a whole tree there is one record per node (`Graft.ListAnyTable`) |
| Records.ToRecord | lib/nested-set-node.ts:210-227 | `toNestedSetProperties()` copies the title and the triple and leaves the tag unset, as the node never assigns one |
| Validation.Validate | lib/nested-set-node.ts:283-299 | `validate()` passes exactly when the span lies strictly inside the parent's and the depth is right; the missing-parent error occurs exactly for a parentless node with non-zero depth; every other error needs a parent, and with a parent the errors come in the source's order: the left check fails exactly when the parent's left is not below the node's, the right check exactly when the left passes and the parent's right is not above the node's, the depth check exactly when both spans pass and the depth is not one more than the parent's |
| Validation.NumberedPasses | lib/nested-set-node.ts:283-299 | in a numbered whole tree, a node passes `validate()` if and only if its depth is right |
| Validation.NumberedAllPass | lib/nested-set-node.ts:283-299 | in a numbered whole tree, every node passes if and only if every depth is right |
| Validation.DepthsOkIffLevels | lib/nested-set-node.ts:295-297 | in a whole tree, the depths are right if and only if every depth equals the node's level |
| Validation.DepthIsLevel | lib/nested-set-node.ts:295-297 | with right depths, a node's depth is its level in the tree |
| Reconstruct.Find | lib/nested-set-node.ts:250-252 | `documents.find`: the found document contains `doc` one level up, and no earlier document does; none is found only if no document does |
| Reconstruct.Latest | lib/nested-set-node.ts:246-248 | the latest document stored under a key carries that key, and no later one does |
| Reconstruct.TagKey | lib/nested-set-node.ts:246-247 | the key a document is stored under: its tag, or "undefined" when it has none |
| Reconstruct.Contains | lib/nested-set-node.ts:250-252 | the test `documents.find` applies: strictly inside the other's span and one level below it; `Reconstruct.Find` states what the search returns |
| Reconstruct.ParentKey | lib/nested-set-node.ts:254-257 | the parent key: the found document's tag, or `root` when none contains the document; `Reconstruct.HangMeaning` states how it decides |
| Reconstruct.HangOf | lib/nested-set-node.ts:242-264 | a document goes under an earlier document, never under itself or a later one |
| Reconstruct.HangMeaning | lib/nested-set-node.ts:242-264 | where each document goes, in terms of the documents: a root exactly for the key `root`; otherwise under the latest earlier document with its parent key; missing parent exactly when no document up to it has that key; onto itself exactly when its parent key is its own key |
| Reconstruct.UntaggedBroken | lib/nested-set-node.ts:242-264 | with every tag unset (as `flat()` writes records), every document stops the loop |
| Reconstruct.PlanAt | lib/nested-set-node.ts:244-261 | the plan built document by document holds `HangOf` for each document |
| Reconstruct.PlanUnbroken | lib/nested-set-node.ts:244-261 | a prefix of the plan has no error if and only if no document in it stops the loop |
| Reconstruct.Plan | lib/nested-set-node.ts:244-261 | where every document goes, one entry per document, each under an earlier document if under any |
| Reconstruct.KidsOrdered | lib/nested-set-node.ts:259 | the documents planned under a node are listed in increasing document order, the order of the appends |
| Reconstruct.KidsComplete | lib/nested-set-node.ts:259 | every document planned under a node is among that node's listed children |
| Reconstruct.KeyMapSnoc | lib/nested-set-node.ts:246-248 | storing the next node updates the key map at that document's key and nowhere else |
| Reconstruct.KeyMap | lib/nested-set-node.ts:246-248 | the array used as a dictionary, as the stores leave it; `Reconstruct.KeyMapLatest` states what it holds |
| Reconstruct.KeyMapLatest | lib/nested-set-node.ts:246-248 | the key map holds, for each key, the node of the latest document stored under it, and holds no other key |
| Reconstruct.HangFromKeys | lib/nested-set-node.ts:254-260 | the lookup of the parent key in the key map decides root, missing parent, onto itself or the node to append under, exactly as `HangOf` says |
| Reconstruct.Finished | lib/nested-set-node.ts:242-264 | once every document is placed, the loop state is a full reconstruction (`Reconstructed`) |
| Reconstruct.AllPass | lib/nested-set-node.ts:283-299 | every node the loop made passes `validate()` |
| Reconstruct.WellFormedHang | lib/nested-set-node.ts:242-264 | with distinct tags, the `root` record first and every containing record before what it contains, the first document stays a root and every other goes under the first document containing it, or under the first document when none does |
| Reconstruct.WellFormedUnbroken | lib/nested-set-node.ts:242-264 | such records never stop the loop, so by `Forest.ToNested`'s contract the call on them is `Built` |
| Reconstruct.WellFormedTree | lib/nested-set-node.ts:242-264 | after `toNested` on such records, the new nodes form exactly one whole, numbered tree with right depths, topped by the node of the `root` record; every other node's parent is the node of the first record containing its own; the key map holds each record's node under its tag |
| NestedSetNode.Forest.PlaceTop | lib/nested-set-node.ts:247-258 | a document keyed `root` gets a fresh node that stays a tree of its own, and the loop state grows by it |
| NestedSetNode.Forest.PlaceUnder | lib/nested-set-node.ts:247-259 | a document planned under an earlier one gets a fresh node appended to that document's node, whose tree grows by it |
| NestedSetNode.Forest.PlaceNext | lib/nested-set-node.ts:245-260 | one document: the step fails exactly when `HangOf` says the document stops the loop, with that error; otherwise the loop state grows by the new node |
| NestedSetNode.Forest.ToNested | lib/nested-set-node.ts:242-264 | `toNested` fails at the first document that stops the loop, with its error; otherwise it makes one fresh node per document, linked exactly as the plan says, with the key map holding the latest node per key, the new nodes forming whole numbered trees beside the untouched old nodes, and every new node passing `validate()` |

## Left out

- `toNested` is `async` and returns a promise. The model returns its result
  directly, and a thrown error is the `Failed` outcome.
- The identity and audit fields (`uuid`, `org_uuid`, the `created_*`,
  `updated_*` and `deleted_*` fields) and `type` are never stored in a
  node. A node never assigns its `tag` either, so records written by
  `toNestedSetProperties` (`Records.ToRecord`) leave all of these unset.
- `null` and `undefined` are not told apart: an unset tag is the key
  `"undefined"`, as JavaScript's property-key coercion makes it.
- Node objects are arena ids, and the children array is a sequence in the
  arena. Aliasing beyond that is not modelled.
- The structural methods take the tree they run in as a ghost argument and
  require the arena to match it, so the tree is acyclic.
  - NestedSetNode.Forest.Append and NestedSetNode.Forest.Prepend require the
    hung node to be the top of a tree disjoint from `self`'s tree. In the
    source, appending a node that still has a parent leaves it listed under
    both parents, and appending an ancestor makes a cycle, on which the
    recursion of `rebuild` and `getSize` overflows the stack.
  - NestedSetNode.Forest.Rebuild requires the walk's preconditions
    (`WalkReq`). Outside them the source may still finish, with numbers the
    model does not describe: a node missing from its parent's children keeps
    its left, and `nextSibling` then hops to the parent's first child.
- WalkTheorems.WalkFromInner: the numbering half is stated only when the
  ancestors' lefts are already correct. The model has no lemma showing the
  wrong numbering produced below stale ancestors; only the list half is
  proved for every table (`Graft.ListAnyTable`).
- NestedSetNode.Forest.ToNested: a parent key that names the document's own
  node makes the source append the node to itself. `rebuild` then reaches
  `getSize`, which calls itself on the same node through its children until
  the stack overflows, so the call throws. The model reports this as the
  `OntoItself` error; the error's kind (a `RangeError`) is not modelled.
- NestedSetNode.Forest.ToNested: the source stores nodes in a JavaScript
  array used as a dictionary; the model uses a map from strings to ids.
  Keys with a meaning on arrays are not modelled: a document tagged
  `length` makes the source throw at the store, while the model stores it,
  and a parent key naming an array method (such as `push`) that no
  document is stored under fails in the source because a function has no
  `append`, not because the key is missing, as `MissingParent` says.
- NestedSetNode.Forest.ToNested: for well-formed records the model proves
  that the nodes form one whole numbered tree shaped by the containing
  records (`Reconstruct.WellFormedTree`). It does not prove that the
  rebuilt lefts, rights and depths equal the records' own when the records
  list a numbered tree in pre-order: that needs a renaming argument between
  the two trees, which is not carried out.
- NestedSetNode.Forest.ToNested: after a failure, the nodes made so far
  stay in the arena as they are. Their state is not described.
- NestedSetNode.Forest.ToNested decides where a document goes before it makes
  the node, while the source makes and stores the node first. The two orders
  reach the same state, because the decision reads only the documents and the
  key map.
- NestedSetNode.Forest.RemoveChild: the detached subtree keeps its stale
  lefts, rights and depths. The source does not renumber it, and the model
  states only that its props are unchanged.
- Numbers are unbounded integers. JavaScript's floating-point numbers are not
  modelled.
