# disjoint-hash-set, modelled in Dafny

`DisjointHashSet<T>` is a union-find structure keyed by arbitrary hashable values. It has two parts:

- a table from each value to a dense id;
- a vector of nodes indexed by id, each holding a parent id (its own id for a class root) and a size (meaningful at roots).

Operations:

- `find` walks from an id to its root, halving the path as it goes.
- `union` links two roots by size.
- `split` takes one value out of its class.
- `insert_set`, `split_into` and `split_into_set` combine these.

The model has two modules:

- `Forest` (`forest.dfy`) describes the node vector as a value.
  - `Root`, `PathSplit` (path halving), `Link` (`union_inner`), `Detach`/`SplitForest` (`split_inner`/`split` as written), `SplitFixed` (`split` as documented), `Grow` (a new singleton).
  - Lemmas state what each of these keeps and what it changes.
  - A ghost `rank` sequence witnesses that the parent links are acyclic. It grows strictly along every link, so every chain ends at a root.
- `DisjointSets` (`disjoint_hash_set.dfy`) holds the class `DisjointHashSet<T>`.
  - Its fields are `table: map<T, nat>`, `data: seq<Node>` and the ghost `rank`.
  - Its methods change them in place, following the Rust functions.
  - Each method's postcondition ties the new state to a function of the old state:
    - `PathSplit` and `Link` from `Forest`;
    - `Resolve` (`find_or_insert`), `JoinStep`/`InsertAll` (`insert_set`), `Merge` (`union`), `Separate` (the corrected `split`), `SplitJoin`/`SplitJoinId` (`split_into`/`split_into_set` on top of the corrected split).
  - Lemmas prove what those functions mean for classes: which ids end in one class, and which keep their root.

`Valid()` is the structure's invariant:

- the parent links are ranked;
- the table hands out the ids `0 .. |data|-1`, each to exactly one value.

Every method of the class keeps `Valid()`. `split_into` and `split_into_set` as written do not: they can leave a cycle (`SplitIntoCycle`).

Where the code and its documentation disagree, the model follows the code:

- `connected` on two values that were never inserted answers `true`, because `None == None`.
- The five defects under "## Findings" are modelled as written, and each also has a corrected version.
- The class members `WithValues` (first-occurrence ids), `InsertChecked`, `SplitApart`, `SplitInto` and `SplitIntoSet` are the corrected versions; `Insert` and `Split` are the class methods as written.
- The as-written `with_values`, `split_into` and `split_into_set` are modelled only as the functions `CollectIds`, `SplitIntoAsWritten` and `SplitIntoSetAsWritten`, not as class members.

## Model

| member | source | states |
|---|---|---|
| Forest.NewNode | src/disjoint_hash_set.rs:15-17 | a new node is a singleton root of size 1 (used by the constructors and `Grow`) |
| Forest.Root | src/disjoint_hash_set.rs:201-210 | following parent links from an id ends at a node that is its own parent |
| Forest.RootUnique | src/disjoint_hash_set.rs:201-210 | the root map is the only map that fixes roots and is constant along parent links; every "roots after an operation" lemma rests on it |
| Forest.Grow | src/disjoint_hash_set.rs:127-131 | the vector after `insert_inner` pushes `Node::new` for the next id (its properties are stated by `GrowSpec`) |
| Forest.GrowSpec | src/disjoint_hash_set.rs:127-131 | pushing a singleton node for the next id keeps the ranking, keeps every old root, and makes the new id its own root |
| Forest.Shortcut | src/disjoint_hash_set.rs:205 | one step of path halving: node `k` takes its grandparent as parent, keeps its size, and every other node is unchanged |
| Forest.ShortcutSpec | src/disjoint_hash_set.rs:205 | re-pointing one node to its grandparent keeps the ranking and every root |
| Forest.PathSplit | src/disjoint_hash_set.rs:201-210 | the vector after `compress_path(k)`: each node on the walk from `k` takes its grandparent, as read when the walk reaches it (its properties are stated by `PathSplitSpec`) |
| Forest.PathSplitSpec | src/disjoint_hash_set.rs:201-210 | path halving from any id changes only parent fields, keeps the ranking, keeps every size, and keeps every node's root |
| Forest.Survivor | src/disjoint_hash_set.rs:254 | the root that stays a root in `union_inner`: one of the two, of the smaller size, and the second on a tie |
| Forest.Link | src/disjoint_hash_set.rs:247-261 | `union_inner` on the vector: no change when the two nodes are equal, otherwise the survivor's size becomes the sum of both sizes, and the length is kept |
| Forest.LinkShape | src/disjoint_hash_set.rs:247-261 | on two roots, equal nodes means equal ids and the link is then a no-op; otherwise the smaller-size root survives (the second on a tie), the other root points at it, the survivor's size is the sum, and no other node changes |
| Forest.LinkRanked | src/disjoint_hash_set.rs:247-261 | after linking two roots the ranking is valid again |
| Forest.LinkRoots | src/disjoint_hash_set.rs:247-261 | after linking roots `a` and `b`, every id whose root was `a` or `b` has the survivor as root, and every other id keeps its root |
| Forest.RootListLink | src/disjoint_hash_set.rs:247-261 | the same, stated on the list of all roots: the labels `a` and `b` are merged under the survivor |
| Forest.LinkClasses | src/disjoint_hash_set.rs:221-226 | linking two roots of a forest that kept an older forest's roots: both end in one class, and an old id joins it exactly when its old root was one of the two |
| Forest.FirstChild | src/disjoint_hash_set.rs:327-330 | `position`: the first index whose parent is the root `id`, with no earlier such index |
| Forest.Repoint | src/disjoint_hash_set.rs:335-337 | the filter loop of `split_inner`: every node at or after `start` whose parent is `id` now points at `target`; every other node and every size is unchanged |
| Forest.Detach | src/disjoint_hash_set.rs:320-339 | `split_inner` after the id is known: a node of size 1 is left as it is; otherwise `id` gets size 1 and no other size changes |
| Forest.SplitForest | src/disjoint_hash_set.rs:275-278 | `split` as written: after `Detach`, `id` is its own parent with size 1 and no other size changes |
| Forest.SplitShape | src/disjoint_hash_set.rs:320-340 | after `split_inner` then `split`, `id` is a root of size 1, no other size changes, and the new ranking is valid |
| Forest.SplitSingleton | src/disjoint_hash_set.rs:324-326 | splitting a node of size 1 only makes it its own parent; it becomes the root of every node whose chain passed through it, and every other node keeps its root |
| Forest.MemberShape | src/disjoint_hash_set.rs:331-338 | splitting a non-root of size > 1 moves its children to its parent and leaves no node pointing at it |
| Forest.SplitMember | src/disjoint_hash_set.rs:331-338 | splitting a non-root of size > 1 makes it a root of its own while every other id keeps its root |
| Forest.SplitClassRoot | src/disjoint_hash_set.rs:327-338 | as written, splitting a class root of size > 1 keeps every id's root, so the class stays whole |
| Forest.SplitOthers | src/disjoint_hash_set.rs:275-278 | in every case a split leaves `id` a root and leaves every other class as it was |
| Forest.FirstOtherChild | src/disjoint_hash_set.rs:327-330 | the first index other than `id` whose parent is `id`, with no earlier such index, or the vector length when there is none |
| Forest.ChildOnChain | src/disjoint_hash_set.rs:327-330 | a root with another id in its class has a child other than itself |
| Forest.Heir | src/disjoint_hash_set.rs:327-334 | the new parent for the children of `id` in the corrected split: the parent of a non-root; for a root, a child of it other than itself, or `id` itself only when no other node points at it |
| Forest.FixedHeir | src/disjoint_hash_set.rs:327-334 | the heir of a root with company in its class is a child of it other than itself |
| Forest.FixedLinks | src/disjoint_hash_set.rs:263-278 | after the corrected split, the expected root (`FixedRoot`: the heir for the rest of the class of the root `id`, the old root otherwise) is the same along every parent link |
| Forest.FixedFixes | src/disjoint_hash_set.rs:263-278 | after the corrected split, every node that is its own parent is its own expected root |
| Forest.SplitFixed | src/disjoint_hash_set.rs:263-278 | the corrected split on the vector: `id` becomes a root of size 1 and no other node points at it any more |
| Forest.SplitFixedShape | src/disjoint_hash_set.rs:263-278 | corrected split: `id` is a root of size 1, every other node that pointed at `id` points at the heir, and the new ranking is valid |
| Forest.SplitFixedRoots | src/disjoint_hash_set.rs:263-278 | corrected split: ids of the class of the root `id` move to the promoted heir, and every other id keeps its root |
| Forest.SplitFixedApart | src/disjoint_hash_set.rs:263-278 | corrected split: `id` ends alone in its class, and two other ids share a class afterwards if and only if they did before |
| Forest.AloneSplitAgrees | src/disjoint_hash_set.rs:320-339 | on a root alone in its class, `split_inner` as written and the corrected split both only reset its size to 1, with the ranking unchanged |
| DisjointSets.TableInsert | src/disjoint_hash_set.rs:124-133 | giving an unseen value the next id keeps the table a bijection onto `0 .. n` |
| DisjointSets.TableResolve | src/disjoint_hash_set.rs:124-133 | resolving any value, present or not, keeps the table a bijection onto the (possibly one more) ids |
| DisjointSets.IdInKeeps | src/disjoint_hash_set.rs:124-133 | resolving a value adds exactly that value to the keys and keeps every existing entry |
| DisjointSets.CollectIds | src/disjoint_hash_set.rs:57-61 | the `with_values` table as written: its keys are exactly the values, and each value maps to a position where it occurs, at or after every position where it occurs (its last occurrence) |
| DisjointSets.FirstIds | src/disjoint_hash_set.rs:53-63 | the corrected `with_values` table: each value in turn gets its old id or the next one, as successive `insert`s would (its properties are stated by `FirstIdsOk` and `FirstIdsPositions`) |
| DisjointSets.FirstIdsOk | src/disjoint_hash_set.rs:53-63 | the corrected `with_values` table gives ids `0 .. m-1` to exactly the given values, one id per distinct value |
| DisjointSets.CollectAgrees | src/disjoint_hash_set.rs:57-61 | on distinct values the as-written table equals the corrected one |
| DisjointSets.FirstIdsPositions | src/disjoint_hash_set.rs:57-61 | on distinct values the table has one entry per value and gives each value its position |
| DisjointSets.CollectRepeat | src/disjoint_hash_set.rs:57-62 | as written, `with_values(['x','x'])` maps 'x' to 1 with a single node, so the table is not valid for its vector |
| DisjointSets.InsertReport | src/disjoint_hash_set.rs:120-122 | `insert` as written answers false for every new value, and true exactly for a present value whose id is not the last |
| DisjointSets.InsertReportInverted | src/disjoint_hash_set.rs:107-122 | inserting 'x' into an empty structure answers false, and re-inserting 'x' after 'y' answers true, the opposite of the documented result |
| DisjointSets.Extend | src/disjoint_hash_set.rs:124-133 | `insert_inner` on the snapshot: the store stays valid, the value gets its old id or the next one, which becomes the running id, and the vector grows by one exactly for a new value |
| DisjointSets.Resolve | src/disjoint_hash_set.rs:196-199 | `find_or_insert` on the snapshot: the store stays valid, the value is added with its old or the next id, the vector grows by one exactly for a new value, and the result is the root of the value's id |
| DisjointSets.ResolveEnd | src/disjoint_hash_set.rs:196-199 | the root `find_or_insert` returns is the old root of a present value, or the next id for a new one |
| DisjointSets.ResolveKeeps | src/disjoint_hash_set.rs:196-199 | resolving a value keeps the root of every older id, and a new value's id is its own root |
| DisjointSets.ResolveLabels | src/disjoint_hash_set.rs:196-199 | resolving leaves the list of roots unchanged, or appends the new id as its own root |
| DisjointSets.ResolveRoot | src/disjoint_hash_set.rs:196-199 | the result of resolving is the root label of the value's id, and is itself a root |
| DisjointSets.ResolveIgnoresK | src/disjoint_hash_set.rs:196-199 | resolving does not depend on the running id |
| DisjointSets.JoinStep | src/disjoint_hash_set.rs:155-159 | one pass of the `insert_set` loop keeps the store valid and adds the value to the table |
| DisjointSets.JoinStepLabels | src/disjoint_hash_set.rs:155-159 | a pass moves the running id to its root and merges its class with the value's class under one of the two roots |
| DisjointSets.FoldAdvance | src/disjoint_hash_set.rs:155-159 | a pass keeps the loop invariant: earlier values joined with the running id, old classes kept, new ids in the joined class, unrelated old ids untouched |
| DisjointSets.JoinAll | src/disjoint_hash_set.rs:155-159 | the `for_each` passes of `insert_set` over the remaining values, one `JoinStep` per value in order; the store stays valid and the running id in range |
| DisjointSets.JoinAllInv | src/disjoint_hash_set.rs:150-159 | after the first `n` values the loop invariant holds |
| DisjointSets.JoinAllKeys | src/disjoint_hash_set.rs:155-159 | the passes add exactly the values to the table |
| DisjointSets.InsertAll | src/disjoint_hash_set.rs:146-160 | `insert_set` on a non-empty sequence keeps the store valid |
| DisjointSets.InsertAllTable | src/disjoint_hash_set.rs:146-160 | `insert_set` adds exactly the values to the table, keeps every old entry, and only grows the vector |
| DisjointSets.InsertAllJoined | src/disjoint_hash_set.rs:146-160 | after `insert_set`, every value is present and all of them share one root |
| DisjointSets.InsertAllKept | src/disjoint_hash_set.rs:146-160 | `insert_set` never separates two ids of one class |
| DisjointSets.InsertAllApart | src/disjoint_hash_set.rs:146-160 | an old id whose class held none of the values keeps its root |
| DisjointSets.InsertTwo | src/disjoint_hash_set.rs:146-160 | `insert_set(['a','b'])` from empty gives 'a' id 0 under the root 'b' with id 1 |
| DisjointSets.InsertThree | src/disjoint_hash_set.rs:146-160 | `insert_set(['a','b','c'])` from empty gives the chain 0 -> 1 -> 2 |
| DisjointSets.Separate | src/disjoint_hash_set.rs:263-278 | corrected `split` on the snapshot: the store stays valid, the value is present with its old or the next id, and that id is a root of size 1 |
| DisjointSets.SeparateRoots | src/disjoint_hash_set.rs:263-278 | after the corrected split the value's id is its own root and alone in its class, and two other old ids share a class exactly when they did before |
| DisjointSets.Merge | src/disjoint_hash_set.rs:221-226 | `union` on the snapshot keeps the store valid |
| DisjointSets.MergeTable | src/disjoint_hash_set.rs:221-226 | after `union` both values are present, old entries keep their ids, and the vector only grows |
| DisjointSets.MergeEnds | src/disjoint_hash_set.rs:221-226 | the two roots `union` links are the old roots of present values or fresh ids, and resolving the second keeps every older root |
| DisjointSets.MergeRoots | src/disjoint_hash_set.rs:221-226 | after `union` the two values share a root, and an old id moves to it exactly when it was in the class of either value; all others keep their root |
| DisjointSets.LinkAfter | src/disjoint_hash_set.rs:247-261 | linking a root with a root found after it (which kept every older root) keeps the store valid and the table |
| DisjointSets.LinkAlone | src/disjoint_hash_set.rs:247-261 | linking a root `s.k` that is alone in its class with the later root `h.k`: the two share a root, two other old ids share a class exactly when they did, and another old id joins `s.k` exactly when its root was `h.k` |
| DisjointSets.SplitJoin | src/disjoint_hash_set.rs:280-298 | corrected `split_into` on the snapshot keeps the store valid |
| DisjointSets.SplitJoinTable | src/disjoint_hash_set.rs:294-298 | after `split_into` both values are present, old entries keep their ids, and the vector only grows |
| DisjointSets.IntoRoot | src/disjoint_hash_set.rs:294-296 | after the split, `into` resolves to a root `h.k`; an old id other than the split one has root `h.k` exactly when it was in the class of `into`, a different value already present |
| DisjointSets.JoinMeets | src/disjoint_hash_set.rs:294-298 | after the corrected `split_into`, the split id and the id of `into` share a root |
| DisjointSets.JoinOthers | src/disjoint_hash_set.rs:294-298 | after the corrected `split_into`, two old ids other than the split one share a class exactly when they did before |
| DisjointSets.JoinClass | src/disjoint_hash_set.rs:294-298 | after the corrected `split_into`, an old id joins the split id exactly when it was in the class of `into`, a different value already present |
| DisjointSets.SplitJoinSpec | src/disjoint_hash_set.rs:280-298 | corrected `split_into`: both values are present; `value` ends in the class of `into`; two other old ids share a class exactly when they did before; and an old id is in the class of `value` exactly when it was in the class of `into`, a different value already present |
| DisjointSets.SplitJoinId | src/disjoint_hash_set.rs:314-318 | corrected `split_into_set` on the snapshot keeps the store valid |
| DisjointSets.SplitJoinIdSpec | src/disjoint_hash_set.rs:300-318 | corrected `split_into_set`: only `value` is added to the table; `value` ends in the class of id `into`; two other old ids share a class exactly when they did before; and an old id is in the class of `value` exactly when it was in the class of `into`, when `into` is not the id of `value` |
| DisjointSets.SplitIntoAsWritten | src/disjoint_hash_set.rs:294-298 | `split_into` as written: never shorter than before; its content is stated by `SplitIntoAgrees`, `SplitIntoDoc` and `SplitIntoCycle` |
| DisjointSets.SplitIntoSetAsWritten | src/disjoint_hash_set.rs:314-318 | `split_into_set` as written: never shorter than before; its content is stated by `SplitIntoSetAgrees` and `SplitIntoSetCycle` |
| DisjointSets.SeparateAlone | src/disjoint_hash_set.rs:320-339 | when the value is absent, or its id is a root alone in its class, `split_inner` as written stays ranked and gives exactly the snapshot of the corrected split |
| DisjointSets.SplitIntoAgrees | src/disjoint_hash_set.rs:294-298 | on that domain `split_into` as written computes the same vector as the corrected `SplitJoin` |
| DisjointSets.SplitIntoSetAgrees | src/disjoint_hash_set.rs:314-318 | on that domain `split_into_set` as written computes the same vector as the corrected `SplitJoinId` |
| DisjointSets.ResolveAtRoot | src/disjoint_hash_set.rs:196-208 | `find_or_insert` of a present value whose id is a root returns that id and leaves the vector as it is |
| DisjointSets.SplitIntoDoc | src/disjoint_hash_set.rs:287-292 | the documented example as written: with 'a', 'b' from `insert_set` and 'c' inserted, `split_into('a','c')` gives `[Node(1,2), Node(2,1), Node(2,2)]` |
| DisjointSets.SeparateDoc | src/disjoint_hash_set.rs:287-296 | in that example the corrected split gives node 0 its own parent, and 'c' then resolves to the root 2 with no change |
| DisjointSets.SplitJoinDoc | src/disjoint_hash_set.rs:287-292 | in that example the corrected `SplitJoin` gives the same vector, where 'a' shares a root with 'c' and not with 'b', as the example asserts |
| DisjointSets.SplitIntoCycle | src/disjoint_hash_set.rs:294-298 | as written, `split_into('a','c')` after `insert_set(['a','b','c'])` gives `[Node(4,1), Node(2,2), Node(3,1)]`, which no ranking fits (1 and 2 point at each other) |
| DisjointSets.SplitIntoSetCycle | src/disjoint_hash_set.rs:314-318 | as written, `split_into_set('a', 2)` on the same store makes the same cycle |
| DisjointSets.CycleHalved | src/disjoint_hash_set.rs:201-210 | `find('b')` on that cycle: path halving from id 1 breaks it, the vector is ranked again, and 'a', 'b' and 'c' all have the root 1, so 'a' was never split off from 'b' |
| DisjointSets.SplitRootStays | src/disjoint_hash_set.rs:320-340 | as written, `split('b')` after `insert_set(['a','b'])` leaves 'a' and 'b' with one root; the corrected split gives `[Node(1,0), Node(1,1)]` |
| DisjointSets.DisjointHashSet.constructor | src/disjoint_hash_set.rs:28-33 | `new` gives a valid, empty structure |
| DisjointSets.DisjointHashSet.WithCapacity | src/disjoint_hash_set.rs:36-41 | `with_capacity` gives a valid, empty structure |
| DisjointSets.DisjointHashSet.WithValues | src/disjoint_hash_set.rs:53-63 | corrected `with_values`: a valid structure whose keys are exactly the values, one singleton root per id, and, for distinct values, each value's id is its position |
| DisjointSets.DisjointHashSet.TableOf | src/disjoint_hash_set.rs:57-61 | the loop building the table computes the corrected first-occurrence table |
| DisjointSets.DisjointHashSet.Singletons | src/disjoint_hash_set.rs:62 | `n` singleton roots, node `k` with parent `k` |
| DisjointSets.DisjointHashSet.Size | src/disjoint_hash_set.rs:76-78 | the number of ids equals the number of values in the table |
| DisjointSets.DisjointHashSet.Contains | src/disjoint_hash_set.rs:89-91 | true exactly for values in the table, whose ids are then in range |
| DisjointSets.DisjointHashSet.Get | src/disjoint_hash_set.rs:162-164 | the node of an id has an in-range parent in the same class |
| DisjointSets.DisjointHashSet.InsertInner | src/disjoint_hash_set.rs:124-133 | returns the existing id, or the next id with a singleton root pushed; the table gains only that entry, and every old root is kept |
| DisjointSets.DisjointHashSet.Insert | src/disjoint_hash_set.rs:120-122 | `insert` as written: the state is that of `insert_inner`, and the answer is `InsertReport` of the old state |
| DisjointSets.DisjointHashSet.InsertChecked | src/disjoint_hash_set.rs:107-122 | corrected `insert`: the same state, and the answer is true exactly when the value was new |
| DisjointSets.DisjointHashSet.CompressPath | src/disjoint_hash_set.rs:201-210 | the loop leaves `PathSplit` of the old vector and returns the old root of `id`; sizes and all roots are unchanged |
| DisjointSets.DisjointHashSet.Find | src/disjoint_hash_set.rs:182-185 | `None` with no change for an absent value; otherwise `Some` of its root, after path halving from its id; all roots are kept |
| DisjointSets.DisjointHashSet.FindOrInsert | src/disjoint_hash_set.rs:196-199 | the value is present afterwards; the result is its root (the old root, or the next id when new); the new state is `Resolve` of the old |
| DisjointSets.DisjointHashSet.UnionInner | src/disjoint_hash_set.rs:247-261 | on two roots the vector becomes `Link` of the old one; both ids then have the survivor as root, and all other roots follow `LinkedRoot` |
| DisjointSets.DisjointHashSet.UnionSets | src/disjoint_hash_set.rs:239-244 | the two ids end in one class; every id's root follows the link of the two old roots |
| DisjointSets.DisjointHashSet.Union | src/disjoint_hash_set.rs:221-226 | the new state is `Merge` of the old one, so both values share a class (`MergeRoots`) |
| DisjointSets.DisjointHashSet.JoinPass | src/disjoint_hash_set.rs:155-159 | one loop pass takes the state to `JoinStep` of the old state |
| DisjointSets.DisjointHashSet.InsertSet | src/disjoint_hash_set.rs:146-160 | an empty sequence changes nothing; otherwise the new state is `InsertAll` of the old one |
| DisjointSets.DisjointHashSet.SplitInner | src/disjoint_hash_set.rs:320-340 | the value is inserted if needed, and the vector becomes `Detach` of the extended vector at its id |
| DisjointSets.DisjointHashSet.FirstChildOf | src/disjoint_hash_set.rs:327-330 | the `position` loop finds `FirstChild` |
| DisjointSets.DisjointHashSet.RepointFrom | src/disjoint_hash_set.rs:335-337 | the filter loop re-points to `target` exactly the nodes at or after `start` whose parent is `id` |
| DisjointSets.DisjointHashSet.Split | src/disjoint_hash_set.rs:275-278 | the value's id becomes a root of size 1; a new value is a singleton; a non-root of size > 1 leaves its class, which stays together; a class root of size > 1 keeps its whole class; a node of size 1 takes its subtree along |
| DisjointSets.DisjointHashSet.SplitOff | src/disjoint_hash_set.rs:263-278 | the corrected split in place: the value's id is its own parent and the new state is `Separate` of the old |
| DisjointSets.DisjointHashSet.SplitApart | src/disjoint_hash_set.rs:263-278 | corrected `split`: the value ends alone in its class, and two other ids share a class afterwards if and only if they did before |
| DisjointSets.DisjointHashSet.DetachFixed | src/disjoint_hash_set.rs:327-338 | the in-place steps of the corrected split leave `SplitFixed` of the old vector |
| DisjointSets.DisjointHashSet.FirstOtherChildOf | src/disjoint_hash_set.rs:327-330 | the search loop finds `FirstOtherChild` |
| DisjointSets.DisjointHashSet.SplitInto | src/disjoint_hash_set.rs:280-298 | corrected `split_into` (corrected split, then link with the root of `into`): the new state is `SplitJoin` of the old one (see `SplitJoinSpec`) |
| DisjointSets.DisjointHashSet.SplitIntoSet | src/disjoint_hash_set.rs:300-318 | corrected `split_into_set` (corrected split, then link with the root of id `into`): the new state is `SplitJoinId` of the old one (see `SplitJoinIdSpec`) |
| DisjointSets.DisjointHashSet.Connected | src/disjoint_hash_set.rs:103-105 | changes no root; for two present values, true exactly when they shared a root; false when only one is present; true when neither is |
| DisjointSets.DisjointHashSet.FindOrInsertTwice | src/disjoint_hash_set.rs:192-194 | two `find_or_insert` calls on one value answer the same id |
| DisjointSets.DisjointHashSet.InsertThenFind | src/disjoint_hash_set.rs:177-180 | after `insert`, `find` answers `Some` |
| DisjointSets.DisjointHashSet.UnionThenConnected | src/disjoint_hash_set.rs:98-101 | after `union(a, b)`, `connected(a, b)` is true |

## Left out

- Hashing: the `HashMap` is a Dafny `map`. The `Hash`/`Eq` laws, iteration order and capacity are not modelled.
- `Id` and `usize`: both are `nat`. Overflow of `size += ...` and the length limit of `Vec` are not modelled. The `size() - 1` in `insert` cannot underflow there, because `insert_inner` has just made the size positive.
- `get_mut`: modelled as updates of `data` at one index inside the methods that call it, not as a separate member.
- The `IntoIterator` arguments of `with_values` and `insert_set` are sequences.
- The derived `Debug`/`Clone`/`PartialEq` impls are not modelled. `PartialEq` on nodes is Dafny's datatype equality.
- Balance and complexity (union by size, path halving) are not proved.
- The size fields are not tied to class sizes.
  - A root's size equals its class size only until a split: `split` does not decrease the root's size.
  - The model proves connectivity facts only.
- DisjointSets.DisjointHashSet.UnionInner: requires both ids to be roots, as the comment at line 246 says callers guarantee.
- DisjointSets.DisjointHashSet.UnionSets: requires ids below `Size()`. The source would panic on an id it never issued. That panic is not modelled.
- DisjointSets.DisjointHashSet.SplitIntoSet: requires `into` below `Size()`. The source would panic on an id it never issued.
- DisjointSets.DisjointHashSet.SplitInner: its postcondition does not include `Valid()`. As written, splitting a class root re-points the root to its first child for a moment. `split` then restores it as its own parent.
- Forest.SplitFixed: the corrected split moves the children of `id` to its heir without consulting the size field, and a promoted heir gets the old root size less one (at least 1). Sizes stay unrelated to class sizes, as in the source.
- DisjointSets.SplitIntoAsWritten: defined only where the detached vector is still ranked, so that path halving in it terminates. Its content is stated in general only where the value is absent or its id is a root alone in its class (`SplitIntoAgrees`); elsewhere only by the examples `SplitIntoDoc` and `SplitIntoCycle`. Walks over a vector with a cycle are stated only for that example (`CycleHalved`).
- DisjointSets.SplitIntoSetAsWritten: the same restrictions as `SplitIntoAsWritten`, with `SplitIntoSetAgrees` and `SplitIntoSetCycle`.

## Findings

| source | as written | input that shows it | evidently intended | confidence | as-written member | corrected member |
|---|---|---|---|---|---|---|
| src/disjoint_hash_set.rs:294-298 | `split_into` calls `union_inner` on the id from `split_inner`, which has not been made its own parent, so a non-root is linked as if it were a root | `insert_set(['a','b','c'])` from empty, then `split_into('a','c')`: the vector becomes `[Node(4,1), Node(2,2), Node(3,1)]`, where 1 and 2 point at each other, and a later `find('b')` breaks the cycle with every id under the root 1 (`CycleHalved`): 'a' stays in the class of 'b', contrary to the documented example (lines 290-291) | split `value` off as documented (the corrected split of the last row), then link its id, now a root alone in its class, with the root of `into` | not executed | DisjointSets.SplitIntoCycle | DisjointSets.DisjointHashSet.SplitInto |
| src/disjoint_hash_set.rs:314-318 | `split_into_set` has the same defect as `split_into` | the same store, then `split_into_set('a', 2)`: the same cycle, and 'a' again stays with 'b', contrary to the documented example (line 311) | split off as documented, then link with the root of id `into` | not executed | DisjointSets.SplitIntoSetCycle | DisjointSets.DisjointHashSet.SplitIntoSet |
| src/disjoint_hash_set.rs:57-62 | `with_values` collects `(value, position)` pairs into the map, so a repeated value keeps its last position, but it creates one node per map entry | `with_values(['x','x'])`: 'x' maps to id 1 while the vector has the single node 0 | give ids in order of first occurrence, so every id is below the node count | not executed | DisjointSets.CollectRepeat | DisjointSets.DisjointHashSet.WithValues |
| src/disjoint_hash_set.rs:120-122 | `insert` answers `id != size() - 1` after inserting, which is false for every new value | `insert('x')` on an empty structure answers false; the doc comment (lines 109-110) promises true | answer whether the value was absent before | not executed | DisjointSets.InsertReportInverted | DisjointSets.DisjointHashSet.InsertChecked |
| src/disjoint_hash_set.rs:327-338 | for a class root, `position` consumes the first child without re-pointing it, and the filter re-points the later children to it and the root itself; `split` then makes the root its own parent again, so the whole class stays under it | `insert_set(['a','b'])` from empty (root 'b'), then `split('b')`: the vector becomes `[Node(1,1), Node(1,1)]`, so 'a' and 'b' stay connected, contrary to the doc comment (line 263) | promote the first other child to root of the rest of the class and take `id` out alone | not executed | DisjointSets.SplitRootStays | DisjointSets.DisjointHashSet.SplitApart |
