/**
 The forest layer of the disjoint hash set: nodes stored densely by id, each
 holding a parent id (itself for a root) and a size (meaningful at roots).

 The functions here are value-level descriptions of what the operations of
 `DisjointSets.DisjointHashSet` do to the node vector in place; the lemmas
 state what those operations preserve. A ghost `rank` sequence, strictly
 increasing along every parent link, witnesses that the parent graph is
 acyclic, so that every chain ends at a root.
 */
module Forest {

  /** One entry of the node vector. */
  datatype Node = Node(size: nat, parent: nat)

  /** A singleton root with the given id. */
  function NewNode(id: nat): Node
  {
    Node(1, id)
  }

  /** Every parent is in range and ranks grow strictly along non-root links. */
  ghost predicate Ranked(data: seq<Node>, rank: seq<nat>)
  {
    && |rank| == |data|
    && (forall i :: 0 <= i < |data| ==> data[i].parent < |data|)
    && (forall i :: 0 <= i < |data| && data[i].parent != i ==> rank[i] < rank[data[i].parent])
  }

  /** An upper bound of all ranks, used as the termination measure of chains. */
  ghost function MaxRank(rank: seq<nat>): (m: nat)
    ensures forall i :: 0 <= i < |rank| ==> rank[i] <= m
  {
    if rank == [] then 0
    else
      var m := MaxRank(rank[1..]);
      if rank[0] > m then rank[0] else m
  }

  /** The root reached from `k` by following parent links. */
  ghost function Root(data: seq<Node>, rank: seq<nat>, k: nat): (r: nat)
    requires Ranked(data, rank) && k < |data|
    ensures r < |data| && data[r].parent == r
    decreases MaxRank(rank) - rank[k]
  {
    var p := data[k].parent;
    if p == k then k else Root(data, rank, p)
  }

  /** `x` lies on the chain from `k` to its root. */
  ghost predicate OnPath(data: seq<Node>, rank: seq<nat>, k: nat, x: nat)
    requires Ranked(data, rank) && k < |data|
    decreases MaxRank(rank) - rank[k]
  {
    k == x || (data[k].parent != k && OnPath(data, rank, data[k].parent, x))
  }

  /**
   Root is characterised by two local facts: a root is its own root, and a
   node has the same root as its parent. Any `f` with both properties is Root.
   */
  lemma {:induction false} RootUnique(data: seq<Node>, rank: seq<nat>, f: nat -> nat, k: nat)
    requires Ranked(data, rank) && k < |data|
    requires forall i :: 0 <= i < |data| && data[i].parent == i ==> f(i) == i
    requires forall i :: 0 <= i < |data| && data[i].parent != i ==> f(data[i].parent) == f(i)
    ensures Root(data, rank, k) == f(k)
    decreases MaxRank(rank) - rank[k]
  {
    if data[k].parent != k {
      RootUnique(data, rank, f, data[k].parent);
    }
  }

  /** The root of each of the first `n` ids, in id order. */
  ghost function RootList(data: seq<Node>, rank: seq<nat>, n: nat): (c: seq<nat>)
    requires Ranked(data, rank) && n <= |data|
    ensures |c| == n
  {
    if n == 0 then [] else RootList(data, rank, n - 1) + [Root(data, rank, n - 1)]
  }

  /** Entry `k` of the root list is the root of `k`. */
  lemma {:induction false} RootListAt(data: seq<Node>, rank: seq<nat>, n: nat, k: nat)
    requires Ranked(data, rank) && k < n <= |data|
    ensures RootList(data, rank, n)[k] == Root(data, rank, k)
  {
    if k < n - 1 {
      RootListAt(data, rank, n - 1, k);
    }
  }

  /** The full root list holds the root of every id. */
  lemma RootListAll(data: seq<Node>, rank: seq<nat>)
    requires Ranked(data, rank)
    ensures forall k :: 0 <= k < |data| ==> RootList(data, rank, |data|)[k] == Root(data, rank, k)
  {
    forall k | 0 <= k < |data|
      ensures RootList(data, rank, |data|)[k] == Root(data, rank, k)
    {
      RootListAt(data, rank, |data|, k);
    }
  }

  // ---------------------------------------------------------------------
  // Growing the vector (insert_inner)
  // ---------------------------------------------------------------------

  /** The vector after pushing a singleton root for the next id. */
  function Grow(data: seq<Node>): seq<Node>
  {
    data + [NewNode(|data|)]
  }

  /** Pushing a singleton root keeps every existing root and adds one class. */
  lemma GrowSpec(data: seq<Node>, rank: seq<nat>)
    requires Ranked(data, rank)
    ensures Ranked(Grow(data), rank + [0])
    ensures Root(Grow(data), rank + [0], |data|) == |data|
    ensures forall k :: 0 <= k < |data| ==> Root(Grow(data), rank + [0], k) == Root(data, rank, k)
  {
    var d, r := Grow(data), rank + [0];
    assert forall i :: 0 <= i < |data| ==> d[i] == data[i];
    var f := (i: nat) => if i < |data| then Root(data, rank, i) else i;
    forall k | 0 <= k < |data|
      ensures Root(d, r, k) == Root(data, rank, k)
    {
      RootUnique(d, r, f, k);
    }
  }

  // ---------------------------------------------------------------------
  // Path splitting (compress_path)
  // ---------------------------------------------------------------------

  /** Re-point `k` to its grandparent. */
  function Shortcut(data: seq<Node>, k: nat): (d: seq<Node>)
    requires k < |data| && data[k].parent < |data|
    ensures |d| == |data| && d[k].size == data[k].size && d[k].parent == data[data[k].parent].parent
    ensures d[..k] == data[..k] && d[k + 1..] == data[k + 1..]
  {
    data[k := data[k].(parent := data[data[k].parent].parent)]
  }

  /** One shortcut keeps the ranking and every node's root. */
  lemma ShortcutSpec(data: seq<Node>, rank: seq<nat>, k: nat)
    requires Ranked(data, rank) && k < |data|
    ensures Ranked(Shortcut(data, k), rank)
    ensures forall i :: 0 <= i < |data| ==> Root(Shortcut(data, k), rank, i) == Root(data, rank, i)
  {
    var d := Shortcut(data, k);
    var f := (i: nat) => if i < |data| then Root(data, rank, i) else i;
    forall i | 0 <= i < |data| && d[i].parent != i
      ensures f(d[i].parent) == f(i)
    {
      if i == k {
        var p := data[k].parent;
        assert Root(data, rank, k) == Root(data, rank, p);
      }
    }
    forall i | 0 <= i < |data|
      ensures Root(d, rank, i) == Root(data, rank, i)
    {
      RootUnique(d, rank, f, i);
    }
  }

  /**
   The vector after `compress_path(k)`: every node on the chain from `k` is
   re-pointed to its grandparent (as read when the walk reaches it).
   */
  ghost function PathSplit(data: seq<Node>, rank: seq<nat>, k: nat): seq<Node>
    requires Ranked(data, rank) && k < |data|
    decreases MaxRank(rank) - rank[k]
  {
    var p := data[k].parent;
    if p == k then data
    else
      ShortcutSpec(data, rank, k);
      PathSplit(Shortcut(data, k), rank, p)
  }

  /**
   Path splitting changes only parent fields, keeps the ranking, and leaves
   every node's root unchanged.
   */
  lemma {:induction false} PathSplitSpec(data: seq<Node>, rank: seq<nat>, k: nat)
    requires Ranked(data, rank) && k < |data|
    ensures |PathSplit(data, rank, k)| == |data|
    ensures Ranked(PathSplit(data, rank, k), rank)
    ensures forall i :: 0 <= i < |data| ==> PathSplit(data, rank, k)[i].size == data[i].size
    ensures forall i :: 0 <= i < |data| ==> Root(PathSplit(data, rank, k), rank, i) == Root(data, rank, i)
    decreases MaxRank(rank) - rank[k]
  {
    var p := data[k].parent;
    if p != k {
      ShortcutSpec(data, rank, k);
      PathSplitSpec(Shortcut(data, k), rank, p);
    }
  }

  // ---------------------------------------------------------------------
  // Linking two roots (union_inner)
  // ---------------------------------------------------------------------

  /** The root that stays a root when `a` and `b` are linked. */
  function Survivor(data: seq<Node>, a: nat, b: nat): (s: nat)
    requires a < |data| && b < |data|
    ensures s == a || s == b
    ensures data[s].size <= data[a].size && data[s].size <= data[b].size
    ensures data[a].size == data[b].size ==> s == b
  {
    if data[a].size < data[b].size then a else b
  }

  /**
   `union_inner(a, b)`: equal nodes are left alone; otherwise `b` goes under
   `a` when `a` is strictly smaller, else `a` goes under `b`, and the
   surviving root's size grows by the other's.
   */
  function Link(data: seq<Node>, a: nat, b: nat): (d: seq<Node>)
    requires a < |data| && b < |data|
    ensures |d| == |data|
    ensures data[a] == data[b] ==> d == data
    ensures data[a] != data[b] ==> d[Survivor(data, a, b)].size == data[a].size + data[b].size
  {
    var value, other := data[a], data[b];
    if value == other then data
    else if value.size < other.size then
      var d := data[b := other.(parent := value.parent)];
      d[a := d[a].(size := d[a].size + other.size)]
    else
      var d := data[a := value.(parent := other.parent)];
      d[b := d[b].(size := d[b].size + value.size)]
  }

  /** The ranking after a link: the survivor's rank is raised above the other's. */
  ghost function LinkRank(data: seq<Node>, rank: seq<nat>, a: nat, b: nat): seq<nat>
    requires |rank| == |data| && a < |data| && b < |data|
  {
    if data[a] == data[b] then rank
    else
      var s := Survivor(data, a, b);
      var c := if s == a then b else a;
      rank[s := if rank[s] > rank[c] then rank[s] else rank[c] + 1]
  }

  /**
   Linking two roots: the node comparison is an id comparison; equal roots
   are a no-op; otherwise exactly one root is re-pointed to the other, the
   survivor's size becomes the sum, and nothing else changes.
   */
  lemma LinkShape(data: seq<Node>, rank: seq<nat>, a: nat, b: nat)
    requires Ranked(data, rank) && a < |data| && b < |data|
    requires data[a].parent == a && data[b].parent == b
    ensures (data[a] == data[b]) == (a == b)
    ensures a == b ==> Link(data, a, b) == data
    ensures a != b ==>
      var s := Survivor(data, a, b);
      var c := if s == a then b else a;
      && (s == a <==> data[a].size < data[b].size)
      && Link(data, a, b)[c] == Node(data[c].size, s)
      && Link(data, a, b)[s] == Node(data[a].size + data[b].size, s)
    ensures |Link(data, a, b)| == |data|
    ensures forall k :: 0 <= k < |data| && k != a && k != b ==> Link(data, a, b)[k] == data[k]
  {
  }

  /** After linking two roots the ranking is valid again. */
  lemma LinkRanked(data: seq<Node>, rank: seq<nat>, a: nat, b: nat)
    requires Ranked(data, rank) && a < |data| && b < |data|
    requires data[a].parent == a && data[b].parent == b
    ensures Ranked(Link(data, a, b), LinkRank(data, rank, a, b))
  {
    LinkShape(data, rank, a, b);
    var d, rk := Link(data, a, b), LinkRank(data, rank, a, b);
    if a != b {
      forall i | 0 <= i < |data| && d[i].parent != i
        ensures rk[i] < rk[d[i].parent]
      {
      }
    }
  }

  /** The root of `i` after linking roots `a` and `b`, in terms of the roots before. */
  ghost function LinkedRoot(data: seq<Node>, rank: seq<nat>, a: nat, b: nat, i: nat): nat
    requires Ranked(data, rank) && a < |data| && b < |data|
  {
    if i < |data| then
      var r := Root(data, rank, i);
      if r == a || r == b then Survivor(data, a, b) else r
    else i
  }

  /**
   After linking two roots every node whose root was `a` or `b` has the
   survivor as root; every other node keeps its root.
   */
  lemma LinkRoots(data: seq<Node>, rank: seq<nat>, a: nat, b: nat)
    requires Ranked(data, rank) && a < |data| && b < |data|
    requires data[a].parent == a && data[b].parent == b
    ensures Ranked(Link(data, a, b), LinkRank(data, rank, a, b))
    ensures forall k :: 0 <= k < |data| ==>
      Root(Link(data, a, b), LinkRank(data, rank, a, b), k) == LinkedRoot(data, rank, a, b, k)
  {
    LinkShape(data, rank, a, b);
    LinkRanked(data, rank, a, b);
    var d, rk := Link(data, a, b), LinkRank(data, rank, a, b);
    var f := (i: nat) => LinkedRoot(data, rank, a, b, i);
    forall i | 0 <= i < |data| && d[i].parent != i
      ensures f(d[i].parent) == f(i)
    {
      if d[i] == data[i] {
        assert Root(data, rank, i) == Root(data, rank, data[i].parent);
      }
    }
    forall k | 0 <= k < |data|
      ensures Root(d, rk, k) == f(k)
    {
      RootUnique(d, rk, f, k);
    }
  }

  /** Root lists are equal when every id has the same root in both forests. */
  lemma RootListSame(data: seq<Node>, rank: seq<nat>, data': seq<Node>, rank': seq<nat>)
    requires Ranked(data, rank) && Ranked(data', rank') && |data'| == |data|
    requires forall k :: 0 <= k < |data| ==> Root(data', rank', k) == Root(data, rank, k)
    ensures RootList(data', rank', |data'|) == RootList(data, rank, |data|)
  {
    RootListAll(data, rank);
    RootListAll(data', rank');
  }

  /** Class labels after the classes labelled `a` and `b` are merged under `s`. */
  ghost function Relabel(c: seq<nat>, a: nat, b: nat, s: nat): (r: seq<nat>)
    ensures |r| == |c|
    ensures forall x :: 0 <= x < |c| && (c[x] == a || c[x] == b) ==> r[x] == s
    ensures forall x :: 0 <= x < |c| && c[x] != a && c[x] != b ==> r[x] == c[x]
  {
    seq(|c|, x requires 0 <= x < |c| => if c[x] == a || c[x] == b then s else c[x])
  }

  /** Linking two roots merges their two labels in the root list under the survivor. */
  lemma RootListLink(data: seq<Node>, rank: seq<nat>, a: nat, b: nat)
    requires Ranked(data, rank) && a < |data| && b < |data|
    requires data[a].parent == a && data[b].parent == b
    ensures Ranked(Link(data, a, b), LinkRank(data, rank, a, b))
    ensures RootList(Link(data, a, b), LinkRank(data, rank, a, b), |data|)
         == Relabel(RootList(data, rank, |data|), a, b, Survivor(data, a, b))
  {
    LinkRoots(data, rank, a, b);
    LinkShape(data, rank, a, b);
    RootListAll(data, rank);
    RootListAll(Link(data, a, b), LinkRank(data, rank, a, b));
  }

  // ---------------------------------------------------------------------
  // Splitting one id off its class (split_inner, split)
  // ---------------------------------------------------------------------

  /** The first index at or after `from` whose parent is `id` (`position`). */
  function FirstChild(data: seq<Node>, id: nat, from: nat): (j: nat)
    requires id < |data| && data[id].parent == id && from <= id
    ensures from <= j <= id && data[j].parent == id
    ensures forall k :: from <= k < j ==> data[k].parent != id
    decreases id - from
  {
    if data[from].parent == id then from else FirstChild(data, id, from + 1)
  }

  /** Re-point every node at index `start` or later whose parent is `id` to `target`. */
  function Repoint(data: seq<Node>, id: nat, target: nat, start: nat): (d: seq<Node>)
    ensures |d| == |data| && forall k :: 0 <= k < |data| ==> d[k].size == data[k].size
    ensures forall k :: start <= k < |data| && data[k].parent == id ==> d[k].parent == target
    ensures forall k :: 0 <= k < |data| && !(start <= k && data[k].parent == id) ==> d[k] == data[k]
  {
    seq(|data|, k requires 0 <= k < |data| =>
      if start <= k && data[k].parent == id then data[k].(parent := target) else data[k])
  }

  /**
   `split_inner` after the id is known: a node of size 1 is returned as is;
   otherwise the former children of `id` are re-pointed (to its parent, or,
   when `id` is a root, to the first child, which itself is skipped) and
   `id`'s size is reset to 1.
   */
  function Detach(data: seq<Node>, id: nat): (d: seq<Node>)
    requires id < |data|
    ensures |d| == |data| && d[id].size == 1
    ensures forall k :: 0 <= k < |data| && k != id ==> d[k].size == data[k].size
    ensures data[id].size == 1 ==> d == data
  {
    var node := data[id];
    if node.size == 1 then data
    else
      var isRoot := node.parent == id;
      var j := if isRoot then FirstChild(data, id, 0) else 0;
      var target := if isRoot then j else node.parent;
      var start := if isRoot then j + 1 else 0;
      var moved := Repoint(data, id, target, start);
      moved[id := moved[id].(size := 1)]
  }

  /** `split`: detach, then make `id` its own parent. */
  function SplitForest(data: seq<Node>, id: nat): (d: seq<Node>)
    requires id < |data|
    ensures |d| == |data| && d[id] == Node(1, id)
    ensures forall k :: 0 <= k < |data| && k != id ==> d[k].size == data[k].size
  {
    var d := Detach(data, id);
    d[id := d[id].(parent := id)]
  }

  /** The ranking after a split: only a class root of size > 1 needs new ranks. */
  ghost function SplitRank(data: seq<Node>, rank: seq<nat>, id: nat): seq<nat>
    requires |rank| == |data| && id < |data|
  {
    if data[id].size != 1 && data[id].parent == id then
      var j := FirstChild(data, id, 0);
      if j == id then rank else rank[j := rank[id]][id := rank[id] + 1]
    else rank
  }

  /**
   Common shape of every split: `id` ends as a root of size 1, no other size
   changes, and the new ranking is valid.
   */
  lemma SplitShape(data: seq<Node>, rank: seq<nat>, id: nat)
    requires Ranked(data, rank) && id < |data|
    ensures |SplitForest(data, id)| == |data|
    ensures SplitForest(data, id)[id] == Node(1, id)
    ensures forall k :: 0 <= k < |data| && k != id ==> SplitForest(data, id)[k].size == data[k].size
    ensures Ranked(SplitForest(data, id), SplitRank(data, rank, id))
  {
    var d, rk := SplitForest(data, id), SplitRank(data, rank, id);
    var node := data[id];
    if node.size != 1 && node.parent == id {
      var j := FirstChild(data, id, 0);
      forall i | 0 <= i < |data| && d[i].parent != i
        ensures rk[i] < rk[d[i].parent]
      {
        if data[i].parent == id && i > j {
          assert d[i].parent == j;
        }
      }
    }
  }

  /**
   Splitting a node whose size is 1 only makes it its own parent; it becomes
   the root of every node whose chain passed through it, and every other
   node keeps its root.
   */
  lemma SplitSingleton(data: seq<Node>, rank: seq<nat>, id: nat)
    requires Ranked(data, rank) && id < |data| && data[id].size == 1
    ensures SplitForest(data, id) == data[id := Node(1, id)]
    ensures SplitRank(data, rank, id) == rank
    ensures forall k :: 0 <= k < |data| ==>
      Root(SplitForest(data, id), rank, k) == if OnPath(data, rank, k, id) then id else Root(data, rank, k)
  {
    SplitShape(data, rank, id);
    var d := SplitForest(data, id);
    var f := (i: nat) =>
      if i < |data| then (if OnPath(data, rank, i, id) then id else Root(data, rank, i)) else i;
    forall i | 0 <= i < |data| && d[i].parent != i
      ensures f(d[i].parent) == f(i)
    {
      assert Root(data, rank, i) == Root(data, rank, data[i].parent);
    }
    forall k | 0 <= k < |data|
      ensures Root(d, rank, k) == f(k)
    {
      RootUnique(d, rank, f, k);
    }
  }

  /**
   Splitting a non-root node of size > 1: every node that pointed at it now
   points at its former parent, no other node points at it, and every other
   node keeps its root while `id` becomes a root of its own.
   */
  lemma SplitMember(data: seq<Node>, rank: seq<nat>, id: nat)
    requires Ranked(data, rank) && id < |data|
    requires data[id].size != 1 && data[id].parent != id
    ensures SplitRank(data, rank, id) == rank && Ranked(SplitForest(data, id), rank)
    ensures forall k :: 0 <= k < |data| && k != id ==>
      SplitForest(data, id)[k].parent == if data[k].parent == id then data[id].parent else data[k].parent
    ensures forall k :: 0 <= k < |data| && k != id ==> SplitForest(data, id)[k].parent != id
    ensures Root(SplitForest(data, id), rank, id) == id
    ensures forall k :: 0 <= k < |data| && k != id ==> Root(SplitForest(data, id), rank, k) == Root(data, rank, k)
  {
    MemberShape(data, rank, id);
    var d := SplitForest(data, id);
    var p := data[id].parent;
    var f := (i: nat) => if i < |data| && i != id then Root(data, rank, i) else i;
    forall i | 0 <= i < |data| && d[i].parent != i
      ensures f(d[i].parent) == f(i)
    {
      assert Root(data, rank, i) == Root(data, rank, data[i].parent);
      if data[i].parent == id {
        assert Root(data, rank, id) == Root(data, rank, p);
      }
    }
    forall k | 0 <= k < |data|
      ensures Root(d, rank, k) == f(k)
    {
      RootUnique(d, rank, f, k);
    }
  }

  /** The shape of a split of a non-root of size > 1: its children move to its parent. */
  lemma MemberShape(data: seq<Node>, rank: seq<nat>, id: nat)
    requires Ranked(data, rank) && id < |data|
    requires data[id].size != 1 && data[id].parent != id
    ensures SplitRank(data, rank, id) == rank && Ranked(SplitForest(data, id), rank)
    ensures forall k :: 0 <= k < |data| && k != id ==>
      SplitForest(data, id)[k].parent == if data[k].parent == id then data[id].parent else data[k].parent
    ensures forall k :: 0 <= k < |data| && k != id ==> SplitForest(data, id)[k].parent != id
    ensures SplitForest(data, id)[id].parent == id
  {
    SplitShape(data, rank, id);
  }

  /**
   Splitting a class root of size > 1 as written: the first child found is
   left pointing at `id`, the later children are re-pointed to it, and `id`
   stays the root of the whole class; only its size is reset.
   */
  lemma SplitClassRoot(data: seq<Node>, rank: seq<nat>, id: nat)
    requires Ranked(data, rank) && id < |data|
    requires data[id].size != 1 && data[id].parent == id
    ensures forall k :: 0 <= k < |data| ==>
      Root(SplitForest(data, id), SplitRank(data, rank, id), k) == Root(data, rank, k)
  {
    SplitShape(data, rank, id);
    var d, rk := SplitForest(data, id), SplitRank(data, rank, id);
    var j := FirstChild(data, id, 0);
    var f := (i: nat) => if i < |data| then Root(data, rank, i) else i;
    forall i | 0 <= i < |data| && d[i].parent != i
      ensures f(d[i].parent) == f(i)
    {
      assert Root(data, rank, i) == Root(data, rank, data[i].parent);
      if data[i].parent == id && i > j {
        assert Root(data, rank, j) == Root(data, rank, id);
      }
    }
    forall k | 0 <= k < |data|
      ensures Root(d, rk, k) == f(k)
    {
      RootUnique(d, rk, f, k);
    }
  }

  /** A node whose chain passes through `x` has the root of `x`. */
  lemma {:induction false} OnPathRoot(data: seq<Node>, rank: seq<nat>, k: nat, x: nat)
    requires Ranked(data, rank) && k < |data| && x < |data| && OnPath(data, rank, k, x)
    ensures Root(data, rank, k) == Root(data, rank, x)
    decreases MaxRank(rank) - rank[k]
  {
    if k != x {
      OnPathRoot(data, rank, data[k].parent, x);
    }
  }

  /**
   Whatever the case, a split leaves `id` a root and leaves every class other
   than that of `id` as it was.
   */
  lemma SplitOthers(data: seq<Node>, rank: seq<nat>, id: nat)
    requires Ranked(data, rank) && id < |data|
    ensures Ranked(SplitForest(data, id), SplitRank(data, rank, id))
    ensures Root(SplitForest(data, id), SplitRank(data, rank, id), id) == id
    ensures forall k :: 0 <= k < |data| && Root(data, rank, k) != Root(data, rank, id) ==>
      Root(SplitForest(data, id), SplitRank(data, rank, id), k) == Root(data, rank, k)
    ensures forall k :: 0 <= k < |data| && Root(data, rank, k) == Root(data, rank, id) ==>
      Root(SplitForest(data, id), SplitRank(data, rank, id), k) in {id, Root(data, rank, id)}
  {
    SplitShape(data, rank, id);
    if data[id].size == 1 {
      SplitSingleton(data, rank, id);
      forall k | 0 <= k < |data| && OnPath(data, rank, k, id)
        ensures Root(data, rank, k) == Root(data, rank, id)
      {
        OnPathRoot(data, rank, k, id);
      }
    } else if data[id].parent != id {
      SplitMember(data, rank, id);
    } else {
      SplitClassRoot(data, rank, id);
    }
  }

  /** No id other than `id` is in the class of `id`. */
  ghost predicate Alone(data: seq<Node>, rank: seq<nat>, id: nat)
    requires Ranked(data, rank) && id < |data|
  {
    forall k :: 0 <= k < |data| && k != id ==> Root(data, rank, k) != Root(data, rank, id)
  }

  /**
   Linking two roots `a` and `b` of a forest that kept the roots of an
   older forest `d0`: both end in one class, and an old id joins it exactly
   when its old root was `a` or `b`.
   */
  lemma LinkClasses(d0: seq<Node>, r0: seq<nat>, d: seq<Node>, r: seq<nat>, a: nat, b: nat)
    requires Ranked(d0, r0) && Ranked(d, r) && |d0| <= |d| && a < |d| && b < |d|
    requires d[a].parent == a && d[b].parent == b
    requires forall x :: 0 <= x < |d0| ==> Root(d, r, x) == Root(d0, r0, x)
    ensures Ranked(Link(d, a, b), LinkRank(d, r, a, b))
    ensures Root(Link(d, a, b), LinkRank(d, r, a, b), a) == Root(Link(d, a, b), LinkRank(d, r, a, b), b)
    ensures Root(Link(d, a, b), LinkRank(d, r, a, b), a) in {a, b}
    ensures forall k :: 0 <= k < |d0| ==>
      Root(Link(d, a, b), LinkRank(d, r, a, b), k) ==
        if Root(d0, r0, k) == a || Root(d0, r0, k) == b then Root(Link(d, a, b), LinkRank(d, r, a, b), a)
        else Root(d0, r0, k)
  {
    LinkRoots(d, r, a, b);
    assert Root(d, r, a) == a && Root(d, r, b) == b;
    forall k | 0 <= k < |d0|
      ensures Root(Link(d, a, b), LinkRank(d, r, a, b), k) ==
        if Root(d0, r0, k) == a || Root(d0, r0, k) == b then Root(Link(d, a, b), LinkRank(d, r, a, b), a)
        else Root(d0, r0, k)
    {
      assert Root(d, r, k) == Root(d0, r0, k);
    }
  }

  // ---------------------------------------------------------------------
  // Splitting with a new root for the rest of the class (corrected split)
  // ---------------------------------------------------------------------

  /** The first index at or after `from`, other than `id`, whose parent is `id`; `|data|` if none. */
  function FirstOtherChild(data: seq<Node>, id: nat, from: nat): (j: nat)
    requires from <= |data|
    ensures from <= j <= |data|
    ensures j < |data| ==> j != id && data[j].parent == id
    ensures forall k :: from <= k < j ==> k == id || data[k].parent != id
    decreases |data| - from
  {
    if from == |data| then from
    else if from != id && data[from].parent == id then from
    else FirstOtherChild(data, id, from + 1)
  }

  /**
   Where the children of `id` go when it is split off: to its parent, or,
   when `id` is a class root, to its first other child, which becomes the
   root of the rest of the class (`id` itself when it has no other child).
   */
  function Heir(data: seq<Node>, id: nat): (t: nat)
    requires id < |data| && data[id].parent < |data|
    ensures t < |data|
    ensures data[id].parent != id ==> t == data[id].parent
    ensures data[id].parent == id && t != id ==> data[t].parent == id
    ensures data[id].parent == id && t == id ==> forall k :: 0 <= k < |data| && k != id ==> data[k].parent != id
  {
    if data[id].parent != id then data[id].parent
    else
      var j := FirstOtherChild(data, id, 0);
      if j < |data| then j else id
  }

  /**
   `split` as its documentation describes it: every child of `id` moves to
   the heir; an heir promoted from child to root takes over the class size
   less one; `id` becomes a root of size 1. The size field is not consulted
   to decide whether `id` has children.
   */
  function SplitFixed(data: seq<Node>, id: nat): (d: seq<Node>)
    requires id < |data| && data[id].parent < |data|
    ensures |d| == |data| && d[id] == Node(1, id)
    ensures forall k :: 0 <= k < |data| && k != id ==> d[k].parent != id
  {
    var t := Heir(data, id);
    var moved := Repoint(data, id, t, 0);
    var promoted :=
      if t != data[id].parent then moved[t := Node(if data[id].size > 1 then data[id].size - 1 else 1, t)]
      else moved;
    promoted[id := Node(1, id)]
  }

  /** The ranking after the corrected split: a promoted heir takes the rank of `id`. */
  ghost function FixedRank(data: seq<Node>, rank: seq<nat>, id: nat): seq<nat>
    requires |rank| == |data| && id < |data| && data[id].parent < |data|
  {
    var t := Heir(data, id);
    if t != data[id].parent then rank[t := rank[id]] else rank
  }

  /** A node other than the root `id` in the class of `id` has a chain through a child of `id`. */
  lemma {:induction false} ChildOnChain(data: seq<Node>, rank: seq<nat>, k: nat, id: nat)
    requires Ranked(data, rank) && k < |data| && id < |data| && data[id].parent == id
    requires k != id && Root(data, rank, k) == id
    ensures FirstOtherChild(data, id, 0) < |data|
    decreases MaxRank(rank) - rank[k]
  {
    var p := data[k].parent;
    if p != id {
      ChildOnChain(data, rank, p, id);
    }
  }

  /**
   The shape of the corrected split: `id` is a root of size 1, every other
   node that pointed at `id` points at the heir, a promoted heir is a root,
   and the ranking is valid.
   */
  lemma SplitFixedShape(data: seq<Node>, rank: seq<nat>, id: nat)
    requires Ranked(data, rank) && id < |data|
    ensures Ranked(SplitFixed(data, id), FixedRank(data, rank, id))
    ensures SplitFixed(data, id)[id] == Node(1, id)
    ensures SplitFixed(data, id)[Heir(data, id)].parent == Heir(data, id) <==> data[Heir(data, id)].parent == Heir(data, id) || data[id].parent == id
    ensures forall k :: 0 <= k < |data| && k != id && k != Heir(data, id) ==>
      SplitFixed(data, id)[k].parent == if data[k].parent == id then Heir(data, id) else data[k].parent
    ensures Heir(data, id) != data[id].parent ==> Heir(data, id) != id && data[Heir(data, id)].parent == id
  {
    var d, rk, t := SplitFixed(data, id), FixedRank(data, rank, id), Heir(data, id);
    forall i | 0 <= i < |data| && d[i].parent != i
      ensures rk[i] < rk[d[i].parent]
    {
      if data[i].parent == id {
        assert d[i].parent == t;
      }
    }
  }

  /** The root an id has after the corrected split, in terms of the roots before. */
  ghost function FixedRoot(data: seq<Node>, rank: seq<nat>, id: nat, i: nat): nat
    requires Ranked(data, rank) && id < |data|
  {
    if i < |data| && i != id then (if Root(data, rank, i) == id then Heir(data, id) else Root(data, rank, i)) else i
  }

  /** When the root `id` has company in its class, its heir is a child other than itself. */
  lemma FixedHeir(data: seq<Node>, rank: seq<nat>, id: nat)
    requires Ranked(data, rank) && id < |data|
    ensures forall k :: 0 <= k < |data| && k != id && Root(data, rank, k) == id ==>
      Heir(data, id) != id && data[Heir(data, id)].parent == id
  {
    forall k | 0 <= k < |data| && k != id && Root(data, rank, k) == id
      ensures Heir(data, id) != id && data[Heir(data, id)].parent == id
    {
      ChildOnChain(data, rank, k, id);
    }
  }

  /** `FixedRoot` is the same along every link of the split forest. */
  lemma FixedLinks(data: seq<Node>, rank: seq<nat>, id: nat)
    requires Ranked(data, rank) && id < |data|
    ensures forall i :: 0 <= i < |data| && SplitFixed(data, id)[i].parent != i ==>
      SplitFixed(data, id)[i].parent < |data| &&
      FixedRoot(data, rank, id, SplitFixed(data, id)[i].parent) == FixedRoot(data, rank, id, i)
  {
    SplitFixedShape(data, rank, id);
    FixedHeir(data, rank, id);
    var d, t := SplitFixed(data, id), Heir(data, id);
    forall i | 0 <= i < |data| && d[i].parent != i
      ensures FixedRoot(data, rank, id, d[i].parent) == FixedRoot(data, rank, id, i)
    {
      assert Root(data, rank, i) == Root(data, rank, data[i].parent);
      if data[i].parent == id && i != t {
        assert Root(data, rank, t) == Root(data, rank, id);
      }
    }
  }

  /** `FixedRoot` fixes every root of the split forest. */
  lemma FixedFixes(data: seq<Node>, rank: seq<nat>, id: nat)
    requires Ranked(data, rank) && id < |data|
    ensures forall i :: 0 <= i < |data| && SplitFixed(data, id)[i].parent == i ==> FixedRoot(data, rank, id, i) == i
  {
    SplitFixedShape(data, rank, id);
    var d, t := SplitFixed(data, id), Heir(data, id);
    forall i | 0 <= i < |data| && d[i].parent == i
      ensures FixedRoot(data, rank, id, i) == i
    {
      if i != id && i != t {
        assert data[i].parent == i;
      } else if i == t && t != id && data[id].parent == id {
        assert Root(data, rank, t) == Root(data, rank, id);
      }
    }
  }

  /**
   The corrected split, in roots: `id` becomes a root, an id of the class
   of the root `id` moves to the heir, and every other id keeps its root.
   */
  lemma SplitFixedRoots(data: seq<Node>, rank: seq<nat>, id: nat)
    requires Ranked(data, rank) && id < |data|
    ensures Ranked(SplitFixed(data, id), FixedRank(data, rank, id))
    ensures forall k :: 0 <= k < |data| ==>
      Root(SplitFixed(data, id), FixedRank(data, rank, id), k) == FixedRoot(data, rank, id, k)
  {
    SplitFixedShape(data, rank, id);
    FixedLinks(data, rank, id);
    FixedFixes(data, rank, id);
    var d, rk := SplitFixed(data, id), FixedRank(data, rank, id);
    var f := (i: nat) => FixedRoot(data, rank, id, i);
    forall k | 0 <= k < |data|
      ensures Root(d, rk, k) == f(k)
    {
      RootUnique(d, rk, f, k);
    }
  }

  /**
   What the corrected split promises: `id` ends alone in its class, and
   any two other ids share a class afterwards exactly when they did before.
   */
  lemma SplitFixedApart(data: seq<Node>, rank: seq<nat>, id: nat)
    requires Ranked(data, rank) && id < |data|
    ensures Ranked(SplitFixed(data, id), FixedRank(data, rank, id))
    ensures Root(SplitFixed(data, id), FixedRank(data, rank, id), id) == id
    ensures Alone(SplitFixed(data, id), FixedRank(data, rank, id), id)
    ensures forall x, y :: 0 <= x < |data| && 0 <= y < |data| && x != id && y != id ==>
      (Root(SplitFixed(data, id), FixedRank(data, rank, id), x) == Root(SplitFixed(data, id), FixedRank(data, rank, id), y)
       <==> Root(data, rank, x) == Root(data, rank, y))
  {
    SplitFixedRoots(data, rank, id);
    FixedHeir(data, rank, id);
    var d, rk, t := SplitFixed(data, id), FixedRank(data, rank, id), Heir(data, id);
    forall x, y | 0 <= x < |data| && 0 <= y < |data| && x != id && y != id && Root(data, rank, x) == id && Root(data, rank, y) != id
      ensures Root(data, rank, y) != t
    {
      assert data[Root(data, rank, y)].parent == Root(data, rank, y);
    }
  }

  /**
   On a root that is alone in its class the split as written and the
   corrected split agree: no node but `id` points at `id`, so both only
   reset its size to 1, and neither needs new ranks.
   */
  lemma AloneSplitAgrees(data: seq<Node>, rank: seq<nat>, id: nat)
    requires Ranked(data, rank) && id < |data| && data[id].parent == id && Alone(data, rank, id)
    ensures Detach(data, id) == SplitFixed(data, id) == data[id := Node(1, id)]
    ensures SplitRank(data, rank, id) == FixedRank(data, rank, id) == rank
    ensures Ranked(Detach(data, id), SplitRank(data, rank, id))
  {
    forall k | 0 <= k < |data| && k != id
      ensures data[k].parent != id
    {
      assert Root(data, rank, k) != Root(data, rank, id);
    }
    assert Heir(data, id) == id;
    assert Repoint(data, id, id, 0) == data;
    if data[id].size != 1 {
      assert FirstChild(data, id, 0) == id;
      assert Repoint(data, id, id, id + 1) == data;
    }
    SplitFixedShape(data, rank, id);
  }
}
