/**
 A disjoint-set container keyed by arbitrary values: a table from each value
 to a dense id, and a vector of nodes indexed by id forming a forest of
 parent links. Each method changes the table and the vector in place as the
 corresponding operation does; its postcondition ties the new state to the
 value-level functions of module `Forest` and to the roots before the call.
 */
module DisjointSets {
  import opened Forest

  datatype Option<T> = None | Some(value: T)

  /**
   The table hands out the ids `0 .. n-1`, each to exactly one value.
   */
  ghost predicate TableOk<T>(table: map<T, nat>, n: nat)
  {
    && |table| == n
    && (forall v :: v in table ==> table[v] < n)
    && (forall v, w :: v in table && w in table && table[v] == table[w] ==> v == w)
    && (forall i :: 0 <= i < n ==> i in table.Values)
  }

  /** Giving an unseen value the next id keeps the table a bijection onto the ids. */
  lemma TableInsert<T>(table: map<T, nat>, n: nat, value: T)
    requires TableOk(table, n) && value !in table
    ensures TableOk(table[value := n], n + 1)
  {
    var t := table[value := n];
    forall i | 0 <= i < n + 1
      ensures i in t.Values
    {
      if i < n {
        assert i in table.Values;
        var w :| w in table && table[w] == i;
        assert t[w] == i;
      } else {
        assert t[value] == i;
      }
    }
  }

  // ---------------------------------------------------------------------
  // insert_set on plain values
  // ---------------------------------------------------------------------

  /** The id `value` has in `table`, or gets as the next id `n`. */
  function IdIn<T>(table: map<T, nat>, n: nat, value: T): nat
  {
    if value in table then table[value] else n
  }

  /** Resolving a value keeps the table a bijection onto the (possibly one more) ids. */
  lemma TableResolve<T>(table: map<T, nat>, n: nat, value: T)
    requires TableOk(table, n)
    ensures TableOk(table[value := IdIn(table, n, value)], if value in table then n else n + 1)
  {
    if value !in table {
      TableInsert(table, n, value);
    } else {
      assert table[value := table[value]] == table;
    }
  }

  /** Resolving a value adds it to the keys and keeps every entry already there. */
  lemma IdInKeeps<T>(table: map<T, nat>, n: nat, value: T)
    ensures table[value := IdIn(table, n, value)].Keys == table.Keys + {value}
    ensures forall v :: v in table ==> table[value := IdIn(table, n, value)][v] == table[v]
  {
    var t := table[value := IdIn(table, n, value)];
    forall v | v in table
      ensures t[v] == table[v]
    {
      if v == value {
        assert t[v] == IdIn(table, n, value);
      }
    }
  }

  // ---------------------------------------------------------------------
  // with_values
  // ---------------------------------------------------------------------

  /**
   The table `with_values` builds as written: each value is paired with its
   position and the pairs are collected into a map, so a repeated value
   keeps the position of its last occurrence.
   */
  function CollectIds<T>(values: seq<T>): (m: map<T, nat>)
    ensures m.Keys == set i | 0 <= i < |values| :: values[i]
    ensures forall i :: 0 <= i < |values| ==>
      i <= m[values[i]] < |values| && values[m[values[i]]] == values[i]
    decreases |values|
  {
    if values == [] then map[]
    else
      var init := values[..|values| - 1];
      assert forall i :: 0 <= i < |init| ==> init[i] == values[i];
      assert (set i | 0 <= i < |values| :: values[i]) == (set i | 0 <= i < |init| :: init[i]) + {values[|values| - 1]};
      CollectIds(init)[values[|values| - 1] := |values| - 1]
  }

  /**
   The table of the corrected `with_values`: the values are given ids in
   order of first occurrence, as successive `insert`s would.
   */
  function FirstIds<T>(values: seq<T>): (m: map<T, nat>)
    decreases |values|
  {
    if values == [] then map[]
    else
      var m := FirstIds(values[..|values| - 1]);
      m[values[|values| - 1] := IdIn(m, |m|, values[|values| - 1])]
  }

  /** The corrected table hands out the ids `0 .. |m|-1`, one per distinct value. */
  lemma {:induction false} FirstIdsOk<T>(values: seq<T>)
    ensures TableOk(FirstIds(values), |FirstIds(values)|)
    ensures forall v :: v in FirstIds(values) <==> v in values
    decreases |values|
  {
    if values == [] {
      assert TableOk(FirstIds(values), 0);
    } else {
      var init := values[..|values| - 1];
      var v := values[|values| - 1];
      FirstIdsOk(init);
      var m := FirstIds(init);
      TableResolve(m, |m|, v);
      IdInKeeps(m, |m|, v);
      assert values == init + [v];
    }
  }

  /**
   On distinct values the two tables agree and give each value its
   position, so the defect below needs a repeated value.
   */
  lemma {:induction false} CollectAgrees<T>(values: seq<T>)
    requires forall i, j :: 0 <= i < j < |values| ==> values[i] != values[j]
    ensures CollectIds(values) == FirstIds(values)
    decreases |values|
  {
    if values != [] {
      var init := values[..|values| - 1];
      var v := values[|values| - 1];
      CollectAgrees(init);
      FirstIdsPositions(init);
      FirstIdsOk(init);
      assert v !in init by {
        forall i | 0 <= i < |init|
          ensures init[i] != v
        {
          assert init[i] == values[i];
        }
      }
      assert IdIn(FirstIds(init), |init|, v) == |init|;
      assert FirstIds(values) == FirstIds(init)[v := |init|];
    }
  }

  /** On distinct values the corrected table gives each value its position. */
  lemma {:induction false} FirstIdsPositions<T>(values: seq<T>)
    requires forall i, j :: 0 <= i < j < |values| ==> values[i] != values[j]
    ensures |FirstIds(values)| == |values|
    ensures forall i :: 0 <= i < |values| ==> values[i] in FirstIds(values) && FirstIds(values)[values[i]] == i
    decreases |values|
  {
    if values != [] {
      var init := values[..|values| - 1];
      var v := values[|values| - 1];
      FirstIdsPositions(init);
      FirstIdsOk(init);
      assert v !in init;
      forall i | 0 <= i < |values|
        ensures values[i] in FirstIds(values) && FirstIds(values)[values[i]] == i
      {
        if i < |values| - 1 {
          assert values[i] == init[i];
        }
      }
    }
  }

  /**
   `with_values(['x', 'x'])` as written: the table maps 'x' to 1 but the
   vector has one node, so the id of 'x' is out of range and the table is
   not a valid one for that vector.
   */
  lemma CollectRepeat()
    ensures CollectIds(['x', 'x']) == map['x' := 1]
    ensures |CollectIds(['x', 'x'])| == 1
    ensures !TableOk(CollectIds(['x', 'x']), |CollectIds(['x', 'x'])|)
  {
    var vs := ['x', 'x'];
    assert vs[..1] == ['x'] && ['x'][..0] == [];
    assert CollectIds(vs) == map['x' := 1];
    assert |map['x' := 1]| == 1;
  }

  // ---------------------------------------------------------------------
  // insert
  // ---------------------------------------------------------------------

  /**
   The answer of `insert` as written on a table with `n` ids: whether the
   id `value` ends with differs from the last id once it is inserted. So it
   is false for every new value, and true exactly for a present value whose
   id is not the last one.
   */
  function InsertReport<T>(table: map<T, nat>, n: nat, value: T): (b: bool)
    ensures value !in table ==> !b
    ensures value in table ==> (b <==> table[value] + 1 != n)
  {
    IdIn(table, n, value) != (if value in table then n else n + 1) - 1
  }

  /**
   Inserting 'x' into an empty structure answers false although 'x' is
   new; inserting 'x' again after 'y' answers true although 'x' was there.
   */
  lemma InsertReportInverted()
    ensures !InsertReport<char>(map[], 0, 'x')
    ensures InsertReport(map['x' := 0, 'y' := 1], 2, 'x')
  {
  }

  /** The table, node vector and ranks of the structure, with the running id `k` of `insert_set`. */
  datatype Snapshot<T> = Snapshot(table: map<T, nat>, data: seq<Node>, rank: seq<nat>, k: nat)

  ghost predicate StoreOk<T>(f: Snapshot<T>)
  {
    Ranked(f.data, f.rank) && TableOk(f.table, |f.data|)
  }

  /** The root of every id of a snapshot, in id order. */
  ghost function Labels<T>(f: Snapshot<T>): (c: seq<nat>)
    requires Ranked(f.data, f.rank)
    ensures |c| == |f.data|
  {
    RootList(f.data, f.rank, |f.data|)
  }

  /**
   The part of `insert_inner(value)` that `find_or_insert` and `split_inner`
   share: the store once `value` is present, with its id as the running id.
   */
  ghost function Extend<T>(f: Snapshot<T>, value: T): (g: Snapshot<T>)
    requires StoreOk(f)
    ensures StoreOk(g) && g.k < |g.data| && g.table == f.table[value := g.k] && g.k == IdIn(f.table, |f.data|, value)
    ensures |g.data| == if value in f.table then |f.data| else |f.data| + 1
  {
    GrowSpec(f.data, f.rank);
    TableResolve(f.table, |f.data|, value);
    if value in f.table then f.(k := f.table[value])
    else Snapshot(f.table[value := |f.data|], Grow(f.data), f.rank + [0], |f.data|)
  }

  /** `find_or_insert(value)` on plain values; the running id becomes the root it returns. */
  ghost function Resolve<T>(f: Snapshot<T>, value: T): (g: Snapshot<T>)
    requires StoreOk(f)
    ensures StoreOk(g) && g.k < |g.data| && g.data[g.k].parent == g.k
    ensures g.table == f.table[value := IdIn(f.table, |f.data|, value)]
    ensures |g.data| == if value in f.table then |f.data| else |f.data| + 1
    ensures g.k == Root(g.data, g.rank, g.table[value])
  {
    var e := Extend(f, value);
    PathSplitSpec(e.data, e.rank, e.k);
    Snapshot(e.table, PathSplit(e.data, e.rank, e.k), e.rank, Root(PathSplit(e.data, e.rank, e.k), e.rank, e.k))
  }

  /**
   One pass of the `insert_set` loop on plain values: resolve `value` to its
   root `v`, re-resolve the running id to its root by `compress_path`, and
   link the two roots by `union_inner`; that root becomes the running id.
   */
  ghost function JoinStep<T>(f: Snapshot<T>, value: T): (g: Snapshot<T>)
    requires StoreOk(f) && f.k < |f.data|
    ensures StoreOk(g) && g.k < |g.data|
    ensures g.table == f.table[value := IdIn(f.table, |f.data|, value)]
  {
    var h := Resolve(f, value);
    PathSplitSpec(h.data, h.rank, f.k);
    var d := PathSplit(h.data, h.rank, f.k);
    var r := Root(h.data, h.rank, f.k);
    assert Root(d, h.rank, r) == r && Root(d, h.rank, h.k) == h.k;
    LinkRoots(d, h.rank, r, h.k);
    Snapshot(h.table, Link(d, r, h.k), LinkRank(d, h.rank, r, h.k), r)
  }

  /** The passes of the `insert_set` loop over `values`, in order. */
  ghost function JoinAll<T>(f: Snapshot<T>, values: seq<T>): (g: Snapshot<T>)
    requires StoreOk(f) && f.k < |f.data|
    ensures StoreOk(g) && g.k < |g.data|
    decreases |values|
  {
    if values == [] then f
    else JoinStep(JoinAll(f, values[..|values| - 1]), values[|values| - 1])
  }

  /** `insert_set(values)` on plain values, for non-empty `values`. */
  ghost function InsertAll<T>(table: map<T, nat>, data: seq<Node>, rank: seq<nat>, values: seq<T>): (g: Snapshot<T>)
    requires StoreOk(Snapshot(table, data, rank, 0)) && values != []
    ensures StoreOk(g)
  {
    JoinAll(Resolve(Snapshot(table, data, rank, 0), values[0]), values[1..|values|])
  }

  /** Id `x` was, before the fold, in the class of one of the first `i` values. */
  ghost predicate Related<T>(c0: seq<nat>, t0: map<T, nat>, values: seq<T>, i: nat, x: nat)
    requires x < |c0| && i <= |values|
  {
    exists j :: 0 <= j < i && values[j] in t0 && t0[values[j]] < |c0| && c0[x] == c0[t0[values[j]]]
  }

  /** Table facts of the `insert_set` fold: old entries kept, new ones are fresh ids. */
  ghost predicate FoldTable<T>(c0: seq<nat>, t0: map<T, nat>, c: seq<nat>, t: map<T, nat>)
  {
    && |c0| <= |c|
    && (forall x :: 0 <= x < |c0| ==> c0[x] < |c0|)
    && (forall v :: v in t0 ==> t0[v] < |c0|)
    && (forall v :: v in t ==> t[v] < |c|)
    && (forall v :: v in t0 ==> v in t && t[v] == t0[v])
    && (forall v :: v in t && v !in t0 ==> |c0| <= t[v])
  }

  /** The first `i` values are present and share the class label of `k`. */
  ghost predicate FoldJoined<T>(values: seq<T>, i: nat, c: seq<nat>, t: map<T, nat>, k: nat)
    requires i <= |values| && k < |c|
    requires forall v :: v in t ==> t[v] < |c|
  {
    forall j :: 0 <= j < i ==> values[j] in t && c[t[values[j]]] == c[k]
  }

  /** Ids that shared a label before the fold still share one. */
  ghost predicate FoldKept(c0: seq<nat>, c: seq<nat>)
    requires |c0| <= |c|
  {
    forall x, y :: 0 <= x < |c0| && 0 <= y < |c0| && c0[x] == c0[y] ==> c[x] == c[y]
  }

  /** Ids created by the fold carry the label of `k`. */
  ghost predicate FoldNew(c0: seq<nat>, c: seq<nat>, k: nat)
    requires k < |c|
  {
    forall x :: |c0| <= x < |c| ==> c[x] == c[k]
  }

  /** Old ids unrelated to the first `i` values keep their label, which is not that of `k`. */
  ghost predicate FoldApart<T>(c0: seq<nat>, t0: map<T, nat>, values: seq<T>, i: nat, c: seq<nat>, k: nat)
    requires i <= |values| && |c0| <= |c| && k < |c|
  {
    forall x :: 0 <= x < |c0| && !Related(c0, t0, values, i, x) ==> c[x] == c0[x] && c[x] != c[k]
  }

  /**
   The invariant of the `insert_set` fold after `i` values, over the class
   labels `c` (the root of each id) and table `t`, with `k` the running id;
   `c0` and `t0` are the labels and the table before the fold.
   */
  ghost predicate FoldInv<T>(c0: seq<nat>, t0: map<T, nat>, values: seq<T>, i: nat, c: seq<nat>, t: map<T, nat>, k: nat)
  {
    && i <= |values| && k < |c|
    && FoldTable(c0, t0, c, t)
    && FoldJoined(values, i, c, t, k)
    && FoldKept(c0, c)
    && FoldNew(c0, c, k)
    && FoldApart(c0, t0, values, i, c, k)
  }

  /** The fold invariant holds once the first value has been resolved to root `k`. */
  lemma FoldStart<T>(c0: seq<nat>, t0: map<T, nat>, values: seq<T>, c: seq<nat>, t: map<T, nat>, k: nat)
    requires |values| > 0
    requires forall x :: 0 <= x < |c0| ==> c0[x] < |c0|
    requires forall v :: v in t0 ==> t0[v] < |c0|
    requires t == t0[values[0] := if values[0] in t0 then t0[values[0]] else |c0|]
    requires values[0] in t0 ==> c == c0
    requires values[0] !in t0 ==> c == c0 + [|c0|]
    requires k < |c| && k == c[t[values[0]]] && c[k] == k
    ensures FoldInv(c0, t0, values, 1, c, t, k)
  {
    forall x | 0 <= x < |c0| && !Related(c0, t0, values, 1, x)
      ensures c[x] == c0[x] && c[x] != c[k]
    {
      if values[0] in t0 {
        assert !(c0[x] == c0[t0[values[0]]]);
      }
    }
  }

  /** The requirements shared by the step lemmas of the fold. */
  ghost predicate FoldStepPre<T>(c0: seq<nat>, t0: map<T, nat>, values: seq<T>, i: nat, c: seq<nat>, t: map<T, nat>, k: nat,
                                 c1: seq<nat>, t1: map<T, nat>, v: nat)
  {
    && FoldInv(c0, t0, values, i, c, t, k) && i < |values|
    && t1 == t[values[i] := if values[i] in t then t[values[i]] else |c|]
    && (values[i] in t ==> c1 == c)
    && (values[i] !in t ==> c1 == c + [|c|])
    && k < |c1| && c1[k] < |c1| && c1[c1[k]] == c1[k]
    && t1[values[i]] < |c1| && v == c1[t1[values[i]]]
  }

  lemma FoldStepTable<T>(c0: seq<nat>, t0: map<T, nat>, values: seq<T>, i: nat, c: seq<nat>, t: map<T, nat>, k: nat,
                         c1: seq<nat>, t1: map<T, nat>, v: nat, s: nat)
    requires FoldStepPre(c0, t0, values, i, c, t, k, c1, t1, v)
    ensures FoldTable(c0, t0, Relabel(c1, c1[k], v, s), t1)
  {
  }

  lemma FoldStepJoined<T>(c0: seq<nat>, t0: map<T, nat>, values: seq<T>, i: nat, c: seq<nat>, t: map<T, nat>, k: nat,
                          c1: seq<nat>, t1: map<T, nat>, v: nat, s: nat)
    requires FoldStepPre(c0, t0, values, i, c, t, k, c1, t1, v)
    requires FoldTable(c0, t0, Relabel(c1, c1[k], v, s), t1)
    ensures FoldJoined(values, i + 1, Relabel(c1, c1[k], v, s), t1, c1[k])
  {
    var K := c1[k];
    var c2 := Relabel(c1, K, v, s);
    assert c2[K] == s;
    forall j | 0 <= j < i + 1
      ensures values[j] in t1 && c2[t1[values[j]]] == c2[K]
    {
      if j < i {
        assert c1[t1[values[j]]] == K;
      }
    }
  }

  lemma FoldStepKept<T>(c0: seq<nat>, t0: map<T, nat>, values: seq<T>, i: nat, c: seq<nat>, t: map<T, nat>, k: nat,
                        c1: seq<nat>, t1: map<T, nat>, v: nat, s: nat)
    requires FoldStepPre(c0, t0, values, i, c, t, k, c1, t1, v)
    ensures |c0| <= |Relabel(c1, c1[k], v, s)|
    ensures FoldKept(c0, Relabel(c1, c1[k], v, s))
  {
    forall x, y | 0 <= x < |c0| && 0 <= y < |c0| && c0[x] == c0[y]
      ensures Relabel(c1, c1[k], v, s)[x] == Relabel(c1, c1[k], v, s)[y]
    {
      assert c1[x] == c[x] && c1[y] == c[y];
    }
  }

  lemma FoldStepNew<T>(c0: seq<nat>, t0: map<T, nat>, values: seq<T>, i: nat, c: seq<nat>, t: map<T, nat>, k: nat,
                       c1: seq<nat>, t1: map<T, nat>, v: nat, s: nat)
    requires FoldStepPre(c0, t0, values, i, c, t, k, c1, t1, v)
    requires s == c1[k] || s == v
    ensures c1[k] < |Relabel(c1, c1[k], v, s)|
    ensures FoldNew(c0, Relabel(c1, c1[k], v, s), c1[k])
  {
    var K := c1[k];
    var c2 := Relabel(c1, K, v, s);
    assert c2[K] == s;
    forall x | |c0| <= x < |c2|
      ensures c2[x] == c2[K]
    {
      if x < |c| {
        assert c1[x] == c[x] == c[k] == K;
      }
    }
  }

  lemma FoldStepApart<T>(c0: seq<nat>, t0: map<T, nat>, values: seq<T>, i: nat, c: seq<nat>, t: map<T, nat>, k: nat,
                         c1: seq<nat>, t1: map<T, nat>, v: nat, s: nat)
    requires FoldStepPre(c0, t0, values, i, c, t, k, c1, t1, v)
    requires s == c1[k] || s == v
    ensures |c0| <= |Relabel(c1, c1[k], v, s)| && c1[k] < |Relabel(c1, c1[k], v, s)|
    ensures FoldApart(c0, t0, values, i + 1, Relabel(c1, c1[k], v, s), c1[k])
  {
    var K := c1[k];
    var c2 := Relabel(c1, K, v, s);
    assert c2[K] == s;
    forall x | 0 <= x < |c0| && !Related(c0, t0, values, i + 1, x)
      ensures c2[x] == c0[x] && c2[x] != c2[K]
    {
      assert !Related(c0, t0, values, i, x);
      assert c1[x] == c[x] == c0[x] && c[x] != c[k];
      var id := t1[values[i]];
      if values[i] in t0 {
        assert c0[x] != c0[id];
        if Related(c0, t0, values, i, id) {
          var j :| 0 <= j < i && values[j] in t0 && t0[values[j]] < |c0| && c0[id] == c0[t0[values[j]]];
          assert c[id] == c[t[values[j]]];
        }
      } else if values[i] in t {
        assert c[id] == c[k];
      }
      assert c1[x] != v;
    }
  }

  /**
   One step of the fold keeps its invariant: value `i` is resolved to root
   `v` (labels `c1`, table `t1`), the running id is re-resolved to its root
   `c1[k]`, and the two classes are merged under `s`.
   */
  lemma FoldStep<T>(c0: seq<nat>, t0: map<T, nat>, values: seq<T>, i: nat, c: seq<nat>, t: map<T, nat>, k: nat,
                    c1: seq<nat>, t1: map<T, nat>, v: nat, s: nat)
    requires FoldStepPre(c0, t0, values, i, c, t, k, c1, t1, v)
    requires s == c1[k] || s == v
    ensures FoldInv(c0, t0, values, i + 1, Relabel(c1, c1[k], v, s), t1, c1[k])
  {
    FoldStepTable(c0, t0, values, i, c, t, k, c1, t1, v, s);
    FoldStepJoined(c0, t0, values, i, c, t, k, c1, t1, v, s);
    FoldStepKept(c0, t0, values, i, c, t, k, c1, t1, v, s);
    FoldStepNew(c0, t0, values, i, c, t, k, c1, t1, v, s);
    FoldStepApart(c0, t0, values, i, c, t, k, c1, t1, v, s);
  }

  // ---------------------------------------------------------------------
  // The fold invariant along the plain-value passes
  // ---------------------------------------------------------------------

  /** Resolving a value appends a label for its new id, if any, and lands on the label of its id. */
  lemma ResolveLabels<T>(f: Snapshot<T>, value: T)
    requires StoreOk(f)
    ensures value in f.table ==> Labels(Resolve(f, value)) == Labels(f)
    ensures value !in f.table ==> Labels(Resolve(f, value)) == Labels(f) + [|f.data|]
  {
    var g := Resolve(f, value);
    var id := IdIn(f.table, |f.data|, value);
    GrowSpec(f.data, f.rank);
    if value in f.table {
      PathSplitSpec(f.data, f.rank, id);
      RootListSame(f.data, f.rank, g.data, g.rank);
    } else {
      var d, r := Grow(f.data), f.rank + [0];
      PathSplitSpec(d, r, id);
      RootListSame(d, r, g.data, g.rank);
      RootListAll(f.data, f.rank);
      RootListAll(d, r);
      var c := Labels(f) + [|f.data|];
      forall x | 0 <= x < |c|
        ensures RootList(d, r, |d|)[x] == c[x]
      {
      }
    }
  }

  /** Resolving a value lands on the label of its id, a root. */
  lemma ResolveRoot<T>(f: Snapshot<T>, value: T)
    requires StoreOk(f)
    ensures Resolve(f, value).table[value] < |Labels(Resolve(f, value))|
    ensures Resolve(f, value).k == Labels(Resolve(f, value))[Resolve(f, value).table[value]]
    ensures Labels(Resolve(f, value))[Resolve(f, value).k] == Resolve(f, value).k
  {
    var g := Resolve(f, value);
    var id := IdIn(f.table, |f.data|, value);
    var d := if value in f.table then f.data else Grow(f.data);
    var r := if value in f.table then f.rank else f.rank + [0];
    GrowSpec(f.data, f.rank);
    PathSplitSpec(d, r, id);
    assert g.data == PathSplit(d, r, id) && g.rank == r && g.k == Root(g.data, r, id);
    assert g.table[value] == id;
    RootListAt(g.data, g.rank, |g.data|, id);
    RootListAt(g.data, g.rank, |g.data|, g.k);
    assert g.data[g.k].parent == g.k;
  }

  /**
   A pass of the loop, in labels: the running id moves to the label `c1[f.k]`
   of its root, and its class and that of the value are merged under one of
   the two roots, where `c1` are the labels once the value is resolved.
   */
  lemma JoinStepLabels<T>(f: Snapshot<T>, value: T)
    requires StoreOk(f) && f.k < |f.data|
    ensures value in f.table ==> Labels(Resolve(f, value)) == Labels(f)
    ensures value !in f.table ==> Labels(Resolve(f, value)) == Labels(f) + [|f.data|]
    ensures
      var c1 := Labels(Resolve(f, value));
      var g := JoinStep(f, value);
      && f.k < |c1| && g.table[value] < |c1|
      && g.k == c1[f.k] && c1[g.k] == g.k
      && (|| Labels(g) == Relabel(c1, g.k, c1[g.table[value]], g.k)
          || Labels(g) == Relabel(c1, g.k, c1[g.table[value]], c1[g.table[value]]))
  {
    ResolveLabels(f, value);
    ResolveRoot(f, value);
    var h := Resolve(f, value);
    var c1 := Labels(h);
    PathSplitSpec(h.data, h.rank, f.k);
    var d := PathSplit(h.data, h.rank, f.k);
    RootListSame(h.data, h.rank, d, h.rank);
    RootListAll(h.data, h.rank);
    var r := Root(h.data, h.rank, f.k);
    assert Root(d, h.rank, r) == r && Root(d, h.rank, h.k) == h.k;
    RootListLink(d, h.rank, r, h.k);
    var g := JoinStep(f, value);
    assert g.data == Link(d, r, h.k) && g.rank == LinkRank(d, h.rank, r, h.k) && g.k == r;
  }

  /** A pass of the loop keeps the fold invariant. */
  lemma FoldAdvance<T>(c0: seq<nat>, t0: map<T, nat>, values: seq<T>, i: nat, f: Snapshot<T>)
    requires StoreOk(f) && f.k < |f.data| && i < |values|
    requires FoldInv(c0, t0, values, i, Labels(f), f.table, f.k)
    ensures
      var g := JoinStep(f, values[i]);
      FoldInv(c0, t0, values, i + 1, Labels(g), g.table, g.k)
  {
    JoinStepLabels(f, values[i]);
    var c1 := Labels(Resolve(f, values[i]));
    var g := JoinStep(f, values[i]);
    var v := c1[g.table[values[i]]];
    assert FoldStepPre(c0, t0, values, i, Labels(f), f.table, f.k, c1, g.table, v);
    if Labels(g) == Relabel(c1, g.k, v, g.k) {
      FoldStep(c0, t0, values, i, Labels(f), f.table, f.k, c1, g.table, v, g.k);
    } else {
      FoldStep(c0, t0, values, i, Labels(f), f.table, f.k, c1, g.table, v, v);
    }
  }

  /** Resolving the first value establishes the fold invariant. */
  lemma FoldBegin<T>(f0: Snapshot<T>, values: seq<T>)
    requires StoreOk(f0) && values != []
    ensures
      var f1 := Resolve(f0, values[0]);
      FoldInv(Labels(f0), f0.table, values, 1, Labels(f1), f1.table, f1.k)
  {
    ResolveLabels(f0, values[0]);
    ResolveRoot(f0, values[0]);
    RootListAll(f0.data, f0.rank);
    var f1 := Resolve(f0, values[0]);
    FoldStart(Labels(f0), f0.table, values, Labels(f1), f1.table, f1.k);
  }

  /** The passes over `vs + [x]` are those over `vs` followed by one over `x`. */
  lemma JoinAllSnoc<T>(f: Snapshot<T>, vs: seq<T>, x: T)
    requires StoreOk(f) && f.k < |f.data|
    ensures JoinAll(f, vs + [x]) == JoinStep(JoinAll(f, vs), x)
  {
    assert (vs + [x])[..|vs|] == vs;
  }

  lemma JoinAllLast<T>(f: Snapshot<T>, values: seq<T>, n: nat)
    requires StoreOk(f) && f.k < |f.data| && 2 <= n <= |values|
    ensures JoinAll(f, values[1..n]) == JoinStep(JoinAll(f, values[1..n - 1]), values[n - 1])
  {
    assert values[1..n] == values[1..n - 1] + [values[n - 1]];
    JoinAllSnoc(f, values[1..n - 1], values[n - 1]);
  }

  /** After the passes over `values[1..n]`, the fold invariant holds for the first `n` values. */
  lemma {:induction false} JoinAllInv<T>(f0: Snapshot<T>, values: seq<T>, n: nat)
    requires StoreOk(f0) && 1 <= n <= |values|
    ensures
      var g := JoinAll(Resolve(f0, values[0]), values[1..n]);
      FoldInv(Labels(f0), f0.table, values, n, Labels(g), g.table, g.k)
    decreases n, 1
  {
    if n == 1 {
      JoinAllOne(f0, values);
    } else {
      JoinAllStep(f0, values, n);
    }
  }

  /** The fold invariant after the first value, with no pass made yet. */
  lemma JoinAllOne<T>(f0: Snapshot<T>, values: seq<T>)
    requires StoreOk(f0) && 1 <= |values|
    ensures
      var g := JoinAll(Resolve(f0, values[0]), values[1..1]);
      FoldInv(Labels(f0), f0.table, values, 1, Labels(g), g.table, g.k)
  {
    var f1 := Resolve(f0, values[0]);
    assert values[1..1] == [];
    assert JoinAll(f1, values[1..1]) == f1;
    FoldBegin(f0, values);
  }

  /** One more pass carries the fold invariant from `n - 1` values to `n`. */
  lemma {:induction false} JoinAllStep<T>(f0: Snapshot<T>, values: seq<T>, n: nat)
    requires StoreOk(f0) && 2 <= n <= |values|
    ensures
      var g := JoinAll(Resolve(f0, values[0]), values[1..n]);
      FoldInv(Labels(f0), f0.table, values, n, Labels(g), g.table, g.k)
    decreases n, 0
  {
    JoinAllInv(f0, values, n - 1);
    var f1 := Resolve(f0, values[0]);
    var f := JoinAll(f1, values[1..n - 1]);
    JoinAllLast(f1, values, n);
    FoldAdvance(Labels(f0), f0.table, values, n - 1, f);
  }

  /** The passes add exactly the values to the table. */
  lemma {:induction false} JoinAllKeys<T>(f: Snapshot<T>, values: seq<T>)
    requires StoreOk(f) && f.k < |f.data|
    ensures forall v :: v in JoinAll(f, values).table <==> v in f.table || v in values
    decreases |values|
  {
    if values != [] {
      var init := values[..|values| - 1];
      JoinAllKeys(f, init);
      assert values == init + [values[|values| - 1]];
    }
  }

  lemma HeadTail<T>(values: seq<T>)
    requires values != []
    ensures forall v :: v in values <==> v == values[0] || v in values[1..|values|]
  {
    assert values == [values[0]] + values[1..|values|];
  }

  /** `insert_set` adds exactly the values to the table and keeps its old entries. */
  lemma InsertAllTable<T>(table: map<T, nat>, data: seq<Node>, rank: seq<nat>, values: seq<T>)
    requires StoreOk(Snapshot(table, data, rank, 0)) && values != []
    ensures
      var g := InsertAll(table, data, rank, values);
      && (forall v :: v in g.table <==> v in table || v in values)
      && (forall v :: v in table ==> g.table[v] == table[v])
      && |data| <= |g.data|
  {
    var f0 := Snapshot(table, data, rank, 0);
    var f1 := Resolve(f0, values[0]);
    JoinAllInv(f0, values, |values|);
    JoinAllKeys(f1, values[1..|values|]);
    HeadTail(values);
  }

  /** After `insert_set`, all the values are in one class. */
  lemma InsertAllJoined<T>(table: map<T, nat>, data: seq<Node>, rank: seq<nat>, values: seq<T>)
    requires StoreOk(Snapshot(table, data, rank, 0)) && values != []
    ensures
      var g := InsertAll(table, data, rank, values);
      && values[0] in g.table
      && forall i :: 0 <= i < |values| ==>
           values[i] in g.table && Root(g.data, g.rank, g.table[values[i]]) == Root(g.data, g.rank, g.table[values[0]])
  {
    var f0 := Snapshot(table, data, rank, 0);
    var g := InsertAll(table, data, rank, values);
    JoinAllInv(f0, values, |values|);
    RootListAll(g.data, g.rank);
  }

  /** `insert_set` never separates two ids of one class. */
  lemma InsertAllKept<T>(table: map<T, nat>, data: seq<Node>, rank: seq<nat>, values: seq<T>)
    requires StoreOk(Snapshot(table, data, rank, 0)) && values != []
    ensures
      var g := InsertAll(table, data, rank, values);
      && |data| <= |g.data|
      && forall x, y :: 0 <= x < |data| && 0 <= y < |data| && Root(data, rank, x) == Root(data, rank, y) ==>
           Root(g.data, g.rank, x) == Root(g.data, g.rank, y)
  {
    var f0 := Snapshot(table, data, rank, 0);
    var g := InsertAll(table, data, rank, values);
    JoinAllInv(f0, values, |values|);
    KeptRoots(data, rank, g.data, g.rank);
  }

  /** Root labels that are kept (`FoldKept`) mean roots that are kept. */
  lemma KeptRoots(d0: seq<Node>, r0: seq<nat>, d: seq<Node>, r: seq<nat>)
    requires Ranked(d0, r0) && Ranked(d, r) && |d0| <= |d|
    requires FoldKept(RootList(d0, r0, |d0|), RootList(d, r, |d|))
    ensures forall x, y :: 0 <= x < |d0| && 0 <= y < |d0| && Root(d0, r0, x) == Root(d0, r0, y) ==>
      Root(d, r, x) == Root(d, r, y)
  {
    var c0, c := RootList(d0, r0, |d0|), RootList(d, r, |d|);
    forall x, y | 0 <= x < |d0| && 0 <= y < |d0| && Root(d0, r0, x) == Root(d0, r0, y)
      ensures Root(d, r, x) == Root(d, r, y)
    {
      RootListAt(d0, r0, |d0|, x);
      RootListAt(d0, r0, |d0|, y);
      RootListAt(d, r, |d|, x);
      RootListAt(d, r, |d|, y);
      assert c[x] == c[y];
    }
  }

  /** An old id whose class held none of the values keeps its root through `insert_set`. */
  lemma InsertAllApart<T>(table: map<T, nat>, data: seq<Node>, rank: seq<nat>, values: seq<T>)
    requires StoreOk(Snapshot(table, data, rank, 0)) && values != []
    ensures
      var g := InsertAll(table, data, rank, values);
      && |data| <= |g.data|
      && forall x ::
           (&& 0 <= x < |data|
            && forall j :: 0 <= j < |values| && values[j] in table ==> Root(data, rank, x) != Root(data, rank, table[values[j]]))
           ==> Root(g.data, g.rank, x) == Root(data, rank, x)
  {
    var f0 := Snapshot(table, data, rank, 0);
    var g := InsertAll(table, data, rank, values);
    JoinAllInv(f0, values, |values|);
    RootListAll(data, rank);
    RootListAll(g.data, g.rank);
    var c0 := Labels(f0);
    forall x | 0 <= x < |data| &&
        (forall j :: 0 <= j < |values| && values[j] in table ==> Root(data, rank, x) != Root(data, rank, table[values[j]]))
      ensures Root(g.data, g.rank, x) == Root(data, rank, x)
    {
      forall j | 0 <= j < |values| && values[j] in table && table[values[j]] < |c0|
        ensures c0[x] != c0[table[values[j]]]
      {
      }
      assert !Related(c0, table, values, |values|, x);
    }
  }

  // ---------------------------------------------------------------------
  // split, split_into and split_into_set on plain values
  // ---------------------------------------------------------------------

  /** Resolving a value does not depend on the running id. */
  lemma ResolveIgnoresK<T>(f: Snapshot<T>, value: T)
    requires StoreOk(f)
    ensures Resolve(f, value) == Resolve(Snapshot(f.table, f.data, f.rank, 0), value)
  {
  }

  /** Resolving a value keeps the root of every id that was there before. */
  lemma ResolveKeeps<T>(f: Snapshot<T>, value: T)
    requires StoreOk(f)
    ensures |f.data| <= |Resolve(f, value).data|
    ensures forall x :: 0 <= x < |f.data| ==> Root(Resolve(f, value).data, Resolve(f, value).rank, x) == Root(f.data, f.rank, x)
    ensures value !in f.table ==> Root(Resolve(f, value).data, Resolve(f, value).rank, |f.data|) == |f.data|
  {
    var g := Resolve(f, value);
    ResolveLabels(f, value);
    RootListAll(f.data, f.rank);
    RootListAll(g.data, g.rank);
    forall x | 0 <= x < |f.data|
      ensures Root(g.data, g.rank, x) == Root(f.data, f.rank, x)
    {
      assert Labels(g)[x] == Labels(f)[x];
    }
    if value !in f.table {
      assert Labels(g)[|f.data|] == |f.data|;
    }
  }

  /**
   `split(value)` on plain values, as its documentation describes it (the
   corrected split `SplitFixed`); the running id is that of `value`.
   */
  ghost function Separate<T>(f: Snapshot<T>, value: T): (g: Snapshot<T>)
    requires StoreOk(f)
    ensures StoreOk(g) && g.k < |g.data| && g.data[g.k] == Node(1, g.k)
    ensures g.table == f.table[value := IdIn(f.table, |f.data|, value)] && g.k == g.table[value]
    ensures |g.data| == if value in f.table then |f.data| else |f.data| + 1
  {
    var e := Extend(f, value);
    SplitFixedShape(e.data, e.rank, e.k);
    Snapshot(e.table, SplitFixed(e.data, e.k), FixedRank(e.data, e.rank, e.k), e.k)
  }

  /**
   The corrected split in classes: `value` ends alone in a class of its
   own, and two other old ids share a class exactly when they did before.
   */
  lemma SeparateRoots<T>(f: Snapshot<T>, value: T)
    requires StoreOk(f)
    ensures
      var s := Separate(f, value);
      && Root(s.data, s.rank, s.k) == s.k && Alone(s.data, s.rank, s.k)
      && forall x, y :: 0 <= x < |f.data| && 0 <= y < |f.data| && x != s.k && y != s.k ==>
           (Root(s.data, s.rank, x) == Root(s.data, s.rank, y) <==> Root(f.data, f.rank, x) == Root(f.data, f.rank, y))
  {
    var id := IdIn(f.table, |f.data|, value);
    var d := if value in f.table then f.data else Grow(f.data);
    var r := if value in f.table then f.rank else f.rank + [0];
    GrowSpec(f.data, f.rank);
    SplitFixedApart(d, r, id);
    assert forall x :: 0 <= x < |f.data| ==> Root(d, r, x) == Root(f.data, f.rank, x);
  }

  /**
   `union_inner` of the root `s.k` of an earlier snapshot with the root
   `h.k` found after it, when resolving that root kept every older root.
   */
  ghost function LinkAfter<T>(s: Snapshot<T>, h: Snapshot<T>): (g: Snapshot<T>)
    requires StoreOk(s) && StoreOk(h) && s.k < |s.data| <= |h.data| && h.k < |h.data|
    requires s.data[s.k].parent == s.k && h.data[h.k].parent == h.k
    requires forall x :: 0 <= x < |s.data| ==> Root(h.data, h.rank, x) == Root(s.data, s.rank, x)
    ensures StoreOk(g) && g.table == h.table && |g.data| == |h.data|
  {
    assert Root(s.data, s.rank, s.k) == s.k;
    assert Root(h.data, h.rank, s.k) == s.k;
    LinkRoots(h.data, h.rank, s.k, h.k);
    Snapshot(h.table, Link(h.data, s.k, h.k), LinkRank(h.data, h.rank, s.k, h.k), h.k)
  }

  /**
   `split_into(value, into)` as its documentation describes it: `value` is
   split off by the corrected split `Separate`, then its id is linked with
   the root of `into`.
   */
  ghost function SplitJoin<T>(f: Snapshot<T>, value: T, into: T): (g: Snapshot<T>)
    requires StoreOk(f)
    ensures StoreOk(g)
  {
    var s := Separate(f, value);
    var h := Resolve(s, into);
    ResolveKeeps(s, into);
    LinkAfter(s, h)
  }

  /**
   The table after the corrected `split_into`: `value` and then `into` are
   resolved, so both are present, old entries keep their ids, and the
   store only grows.
   */
  lemma SplitJoinTable<T>(f: Snapshot<T>, value: T, into: T)
    requires StoreOk(f)
    ensures
      var g := SplitJoin(f, value, into);
      && |f.data| <= |g.data|
      && g.table.Keys == f.table.Keys + {value, into}
      && (forall v :: v in f.table ==> g.table[v] == f.table[v])
      && g.table[value] == IdIn(f.table, |f.data|, value)
  {
    var s := Separate(f, value);
    var n := |s.data|;
    SplitJoinTables(f, value, into);
    TwoResolves(f.table, |f.data|, value, n, into);
  }

  /** The table of `SplitJoin`, written as the two resolutions it makes. */
  lemma SplitJoinTables<T>(f: Snapshot<T>, value: T, into: T)
    requires StoreOk(f)
    ensures
      var t1 := f.table[value := IdIn(f.table, |f.data|, value)];
      var g := SplitJoin(f, value, into);
      && g.table == t1[into := IdIn(t1, |Separate(f, value).data|, into)]
      && |f.data| <= |Separate(f, value).data| <= |g.data|
  {
    var s := Separate(f, value);
    var h := Resolve(s, into);
    ResolveKeeps(s, into);
    assert SplitJoin(f, value, into) == LinkAfter(s, h);
  }

  /** Two resolutions in a row add both values and keep every earlier entry. */
  lemma TwoResolves<T>(table: map<T, nat>, n: nat, value: T, m: nat, into: T)
    ensures
      var t1 := table[value := IdIn(table, n, value)];
      var t2 := t1[into := IdIn(t1, m, into)];
      && t2.Keys == table.Keys + {value, into}
      && (forall v :: v in table ==> t2[v] == table[v])
      && t2[value] == IdIn(table, n, value)
  {
    var t1 := table[value := IdIn(table, n, value)];
    IdInKeeps(table, n, value);
    IdInKeeps(t1, m, into);
  }

  /**
   `split_into_set(value, into)` as its documentation describes it: `value`
   is split off by the corrected split `Separate`, then its id is linked
   with the root of the id `into`, found by path halving.
   */
  ghost function SplitJoinId<T>(f: Snapshot<T>, value: T, into: nat): (g: Snapshot<T>)
    requires StoreOk(f) && into < |f.data|
    ensures StoreOk(g)
  {
    var s := Separate(f, value);
    PathSplitSpec(s.data, s.rank, into);
    var h := Snapshot(s.table, PathSplit(s.data, s.rank, into), s.rank, Root(s.data, s.rank, into));
    LinkAfter(s, h)
  }

  /**
   Linking a root `s.k` that is alone in its class with the root `h.k`
   found after it: the two end in one class, any two other old ids share
   a class exactly when they did before, and another old id joins `s.k`
   exactly when its root was `h.k`.
   */
  lemma LinkAlone<T>(s: Snapshot<T>, h: Snapshot<T>)
    requires StoreOk(s) && StoreOk(h) && s.k < |s.data| <= |h.data| && h.k < |h.data|
    requires s.data[s.k].parent == s.k && h.data[h.k].parent == h.k
    requires forall x :: 0 <= x < |s.data| ==> Root(h.data, h.rank, x) == Root(s.data, s.rank, x)
    requires Alone(s.data, s.rank, s.k)
    ensures
      var g := LinkAfter(s, h);
      && Root(g.data, g.rank, s.k) == Root(g.data, g.rank, h.k)
      && (forall x, y :: 0 <= x < |s.data| && 0 <= y < |s.data| && x != s.k && y != s.k ==>
            (Root(g.data, g.rank, x) == Root(g.data, g.rank, y) <==> Root(s.data, s.rank, x) == Root(s.data, s.rank, y)))
      && (forall x :: 0 <= x < |s.data| && x != s.k ==>
            (Root(g.data, g.rank, x) == Root(g.data, g.rank, s.k) <==> Root(s.data, s.rank, x) == h.k))
  {
    var g := LinkAfter(s, h);
    assert Root(s.data, s.rank, s.k) == s.k;
    LinkClasses(s.data, s.rank, h.data, h.rank, s.k, h.k);
    assert g.data == Link(h.data, s.k, h.k) && g.rank == LinkRank(h.data, h.rank, s.k, h.k);
  }

  /**
   The classes after the corrected `split_into`: `value` ends in the class
   of `into`; any two other old ids share a class exactly when they did
   before; and another old id is in the class of `value` exactly when it
   was in the class of `into`, a different value already present.
   */
  lemma SplitJoinSpec<T>(table: map<T, nat>, data: seq<Node>, rank: seq<nat>, value: T, into: T)
    requires StoreOk(Snapshot(table, data, rank, 0))
    ensures
      var g := SplitJoin(Snapshot(table, data, rank, 0), value, into);
      value in g.table && into in g.table && |data| <= |g.data|
    ensures
      var g := SplitJoin(Snapshot(table, data, rank, 0), value, into);
      && Root(g.data, g.rank, g.table[value]) == Root(g.data, g.rank, g.table[into])
      && (forall x, y :: 0 <= x < |data| && 0 <= y < |data| && x != g.table[value] && y != g.table[value] ==>
            (Root(g.data, g.rank, x) == Root(g.data, g.rank, y) <==> Root(data, rank, x) == Root(data, rank, y)))
      && (forall x :: 0 <= x < |data| && x != g.table[value] ==>
            (Root(g.data, g.rank, x) == Root(g.data, g.rank, g.table[value]) <==>
             into != value && into in table && Root(data, rank, x) == Root(data, rank, table[into])))
  {
    var f := Snapshot(table, data, rank, 0);
    var s := Separate(f, value);
    var h := Resolve(s, into);
    ResolveKeeps(s, into);
    var g := LinkAfter(s, h);
    assert SplitJoin(f, value, into) == g;
    SplitJoinTable(f, value, into);
    assert g.table[value] == s.k;
    JoinMeets(f, value, into, s, h, g);
    JoinOthers(f, value, into, s, h, g);
    JoinClass(f, value, into, s, h, g);
  }

  /** The split root `s.k` and the root `h.k` of `into`, once linked, share a root. */
  lemma JoinMeets<T>(f: Snapshot<T>, value: T, into: T, s: Snapshot<T>, h: Snapshot<T>, g: Snapshot<T>)
    requires StoreOk(f) && s == Separate(f, value) && h == Resolve(s, into)
    requires |s.data| <= |h.data| && h.k < |h.data| && h.data[h.k].parent == h.k
    requires forall x :: 0 <= x < |s.data| ==> Root(h.data, h.rank, x) == Root(s.data, s.rank, x)
    requires g == LinkAfter(s, h)
    ensures s.k < |g.data| && into in g.table && g.table[into] < |g.data|
    ensures Root(g.data, g.rank, s.k) == Root(g.data, g.rank, g.table[into])
  {
    IntoRoot(f, value, into, s, h);
    SeparateRoots(f, value);
    LinkAlone(s, h);
    var j := h.table[into];
    if j != s.k && j != h.k {
      assert Root(g.data, g.rank, j) == Root(g.data, g.rank, h.k) by {
        LinkRoots(h.data, h.rank, s.k, h.k);
      }
    }
  }

  /** Linking the split root keeps apart or together any two other old ids as they were. */
  lemma JoinOthers<T>(f: Snapshot<T>, value: T, into: T, s: Snapshot<T>, h: Snapshot<T>, g: Snapshot<T>)
    requires StoreOk(f) && s == Separate(f, value) && h == Resolve(s, into)
    requires |s.data| <= |h.data| && h.k < |h.data| && h.data[h.k].parent == h.k
    requires forall x :: 0 <= x < |s.data| ==> Root(h.data, h.rank, x) == Root(s.data, s.rank, x)
    requires g == LinkAfter(s, h)
    ensures forall x, y :: 0 <= x < |f.data| && 0 <= y < |f.data| && x != s.k && y != s.k ==>
      (Root(g.data, g.rank, x) == Root(g.data, g.rank, y) <==> Root(f.data, f.rank, x) == Root(f.data, f.rank, y))
  {
    SeparateRoots(f, value);
    LinkAlone(s, h);
  }

  /** An old id joins the split root exactly when it was in the class of another present `into`. */
  lemma JoinClass<T>(f: Snapshot<T>, value: T, into: T, s: Snapshot<T>, h: Snapshot<T>, g: Snapshot<T>)
    requires StoreOk(f) && s == Separate(f, value) && h == Resolve(s, into)
    requires |s.data| <= |h.data| && h.k < |h.data| && h.data[h.k].parent == h.k
    requires forall x :: 0 <= x < |s.data| ==> Root(h.data, h.rank, x) == Root(s.data, s.rank, x)
    requires g == LinkAfter(s, h)
    ensures forall x :: 0 <= x < |f.data| && x != s.k ==>
      (Root(g.data, g.rank, x) == Root(g.data, g.rank, s.k) <==>
       into != value && into in f.table && Root(f.data, f.rank, x) == Root(f.data, f.rank, f.table[into]))
  {
    SeparateRoots(f, value);
    LinkAlone(s, h);
    IntoRoot(f, value, into, s, h);
  }

  /**
   Where `into` lands after `value` is split off: the root `h.k` it
   resolves to is that of the split id itself (when `into` is `value`),
   the root of its old id, or its new id; an old id other than the split
   one has root `h.k` exactly when it was in the class of `into`, a
   different value already present.
   */
  lemma IntoRoot<T>(f: Snapshot<T>, value: T, into: T, s: Snapshot<T>, h: Snapshot<T>)
    requires StoreOk(f) && s == Separate(f, value) && h == Resolve(s, into)
    ensures s.k == s.table[value] && into in h.table && h.table[into] < |h.data|
    ensures h.table[into] == s.k || (h.table[into] < |s.data| && Root(s.data, s.rank, h.table[into]) == h.k) || h.table[into] == h.k
    ensures forall x :: 0 <= x < |f.data| && x != s.k ==>
      (Root(s.data, s.rank, x) == h.k <==> into != value && into in f.table && Root(f.data, f.rank, x) == Root(f.data, f.rank, f.table[into]))
  {
    ResolveEnd(s, into);
    SeparateRoots(f, value);
    if into != value && into in f.table {
      var j := f.table[into];
      assert s.table[into] == j && j != s.k && h.k == Root(s.data, s.rank, j);
    } else if into != value {
      assert h.k == |s.data| && h.table[into] == h.k;
    }
  }

  /**
   The corrected `split_into_set`, for an id `into` already present: the
   value ends in the class of `into`; any two other old ids share a class
   exactly when they did before; and another old id is in the class of
   `value` exactly when it was in the class of `into`, when that is not
   the id of `value` itself.
   */
  lemma SplitJoinIdSpec<T>(table: map<T, nat>, data: seq<Node>, rank: seq<nat>, value: T, into: nat)
    requires StoreOk(Snapshot(table, data, rank, 0)) && into < |data|
    ensures
      var g := SplitJoinId(Snapshot(table, data, rank, 0), value, into);
      && g.table == table[value := IdIn(table, |data|, value)]
      && |data| <= |g.data|
      && Root(g.data, g.rank, g.table[value]) == Root(g.data, g.rank, into)
      && (forall x, y :: 0 <= x < |data| && 0 <= y < |data| && x != g.table[value] && y != g.table[value] ==>
            (Root(g.data, g.rank, x) == Root(g.data, g.rank, y) <==> Root(data, rank, x) == Root(data, rank, y)))
      && (forall x :: 0 <= x < |data| && x != g.table[value] ==>
            (Root(g.data, g.rank, x) == Root(g.data, g.rank, g.table[value]) <==>
             into != g.table[value] && Root(data, rank, x) == Root(data, rank, into)))
  {
    var f := Snapshot(table, data, rank, 0);
    var s := Separate(f, value);
    PathSplitSpec(s.data, s.rank, into);
    var h := Snapshot(s.table, PathSplit(s.data, s.rank, into), s.rank, Root(s.data, s.rank, into));
    assert Root(h.data, h.rank, into) == h.k;
    SeparateRoots(f, value);
    LinkAlone(s, h);
    assert SplitJoinId(f, value, into) == LinkAfter(s, h);
  }

  // ---------------------------------------------------------------------
  // union on plain values
  // ---------------------------------------------------------------------

  /** `union(value, other)`: resolve both values, then link the two roots. */
  ghost function Merge<T>(f: Snapshot<T>, value: T, other: T): (g: Snapshot<T>)
    requires StoreOk(f)
    ensures StoreOk(g)
  {
    var h1 := Resolve(f, value);
    var h2 := Resolve(h1, other);
    ResolveKeeps(h1, other);
    LinkAfter(h1, h2)
  }

  /**
   The table after `union`: both values are present, old entries keep
   their ids, and the store only grows.
   */
  lemma MergeTable<T>(f: Snapshot<T>, value: T, other: T)
    requires StoreOk(f)
    ensures
      var g := Merge(f, value, other);
      && |f.data| <= |g.data|
      && g.table.Keys == f.table.Keys + {value, other}
      && (forall v :: v in f.table ==> g.table[v] == f.table[v])
  {
    var h1 := Resolve(f, value);
    var h2 := Resolve(h1, other);
    ResolveKeeps(h1, other);
    assert Merge(f, value, other) == LinkAfter(h1, h2);
    TwoResolves(f.table, |f.data|, value, |h1.data|, other);
  }

  /**
   The classes after `union`: `value` and `other` end in one class, and an
   old id moves to it exactly when it was in the class of either value;
   every other old id keeps its root.
   */
  lemma MergeRoots<T>(table: map<T, nat>, data: seq<Node>, rank: seq<nat>, value: T, other: T)
    requires StoreOk(Snapshot(table, data, rank, 0))
    ensures
      var g := Merge(Snapshot(table, data, rank, 0), value, other);
      value in g.table && other in g.table
    ensures
      var g := Merge(Snapshot(table, data, rank, 0), value, other);
      && Root(g.data, g.rank, g.table[value]) == Root(g.data, g.rank, g.table[other])
      && forall k :: 0 <= k < |data| ==>
        Root(g.data, g.rank, k) ==
          if (value in table && Root(data, rank, k) == Root(data, rank, table[value]))
          || (other in table && Root(data, rank, k) == Root(data, rank, table[other]))
          then Root(g.data, g.rank, g.table[value])
          else Root(data, rank, k)
  {
    var f := Snapshot(table, data, rank, 0);
    var h1 := Resolve(f, value);
    var h2 := Resolve(h1, other);
    MergeEnds(f, value, other, h1, h2);
    ResolveKeeps(h1, other);
    var g := Merge(f, value, other);
    assert g == LinkAfter(h1, h2);
    LinkClasses(data, rank, h2.data, h2.rank, h1.k, h2.k);
  }

  /** The root `find_or_insert` returns: the old root of a present value, or the next id. */
  lemma ResolveEnd<T>(f: Snapshot<T>, value: T)
    requires StoreOk(f)
    ensures value in f.table ==> Resolve(f, value).k == Root(f.data, f.rank, f.table[value])
    ensures value !in f.table ==> Resolve(f, value).k == |f.data|
  {
    ResolveKeeps(f, value);
  }

  /**
   The two roots `union` links: `h1.k` for `value` and `h2.k` for `other`,
   each the old root of the value when it was present and a new id
   otherwise; resolving `other` keeps every older root.
   */
  lemma MergeEnds<T>(f: Snapshot<T>, value: T, other: T, h1: Snapshot<T>, h2: Snapshot<T>)
    requires StoreOk(f) && h1 == Resolve(f, value) && h2 == Resolve(h1, other)
    ensures h1.k < |h1.data| <= |h2.data| && h2.data[h1.k].parent == h1.k
    ensures forall x :: 0 <= x < |f.data| ==> Root(h2.data, h2.rank, x) == Root(f.data, f.rank, x)
    ensures value in h2.table && other in h2.table
    ensures Root(h2.data, h2.rank, h2.table[value]) == h1.k && Root(h2.data, h2.rank, h2.table[other]) == h2.k
    ensures value in f.table ==> h1.k == Root(f.data, f.rank, f.table[value])
    ensures value !in f.table ==> h1.k == |f.data|
    ensures other in f.table ==> h2.k == Root(f.data, f.rank, f.table[other])
    ensures other !in f.table ==> |f.data| <= h2.k
  {
    ResolveKeeps(f, value);
    ResolveKeeps(h1, other);
    ResolveEnd(f, value);
    ResolveEnd(h1, other);
    IdInKeeps(f.table, |f.data|, value);
    IdInKeeps(h1.table, |h1.data|, other);
    assert Root(h2.data, h2.rank, h1.k) == h1.k;
    assert h2.table[value] == h1.table[value];
  }

  // ---------------------------------------------------------------------
  // split_into as written
  // ---------------------------------------------------------------------

  /**
   `split_into(value, into)` as written: `split_inner` detaches the node of
   `value` but leaves its parent link in place, the root of `into` is found
   by path halving, and `union_inner` links the id of `value` with that
   root as if both were roots. Stated where path halving on the detached
   vector terminates, which the ranking in the second `requires` witnesses.
   */
  ghost function SplitIntoAsWritten<T>(f: Snapshot<T>, value: T, into: T): (d: seq<Node>)
    requires StoreOk(f)
    requires
      var e := Extend(f, value);
      Ranked(Detach(e.data, e.k), SplitRank(e.data, e.rank, e.k))
    ensures |d| >= |f.data|
  {
    var e := Extend(f, value);
    var s := Snapshot(e.table, Detach(e.data, e.k), SplitRank(e.data, e.rank, e.k), e.k);
    var h := Resolve(s, into);
    Link(h.data, e.k, h.k)
  }

  /**
   `split_into_set(value, into)` as written: as `SplitIntoAsWritten`, with
   the root of the id `into` found by path halving on the detached vector.
   */
  ghost function SplitIntoSetAsWritten<T>(f: Snapshot<T>, value: T, into: nat): (d: seq<Node>)
    requires StoreOk(f) && into < |f.data|
    requires
      var e := Extend(f, value);
      Ranked(Detach(e.data, e.k), SplitRank(e.data, e.rank, e.k))
    ensures |d| >= |f.data|
  {
    var e := Extend(f, value);
    var dd, rr := Detach(e.data, e.k), SplitRank(e.data, e.rank, e.k);
    PathSplitSpec(dd, rr, into);
    Link(PathSplit(dd, rr, into), e.k, Root(dd, rr, into))
  }

  /**
   Where `value` is absent, or its id is a root alone in its class, the
   detach of `split_inner` as written and the corrected split give the
   same snapshot: no other node points at that id.
   */
  lemma SeparateAlone<T>(f: Snapshot<T>, value: T)
    requires StoreOk(f)
    requires value in f.table ==> f.data[f.table[value]].parent == f.table[value] && Alone(f.data, f.rank, f.table[value])
    ensures
      var e := Extend(f, value);
      && Ranked(Detach(e.data, e.k), SplitRank(e.data, e.rank, e.k))
      && Separate(f, value) == Snapshot(e.table, Detach(e.data, e.k), SplitRank(e.data, e.rank, e.k), e.k)
  {
    var e := Extend(f, value);
    GrowSpec(f.data, f.rank);
    if value !in f.table {
      assert e.data == Grow(f.data) && e.rank == f.rank + [0] && e.k == |f.data|;
      forall k | 0 <= k < |e.data| && k != e.k
        ensures Root(e.data, e.rank, k) != Root(e.data, e.rank, e.k)
      {
        assert Root(e.data, e.rank, k) == Root(f.data, f.rank, k) < |f.data|;
      }
    }
    AloneSplitAgrees(e.data, e.rank, e.k);
  }

  /**
   On that domain `split_into(value, into)` as written computes the vector
   of the corrected `SplitJoin`.
   */
  lemma SplitIntoAgrees<T>(f: Snapshot<T>, value: T, into: T)
    requires StoreOk(f)
    requires value in f.table ==> f.data[f.table[value]].parent == f.table[value] && Alone(f.data, f.rank, f.table[value])
    ensures
      var e := Extend(f, value);
      Ranked(Detach(e.data, e.k), SplitRank(e.data, e.rank, e.k))
    ensures SplitIntoAsWritten(f, value, into) == SplitJoin(f, value, into).data
  {
    SeparateAlone(f, value);
  }

  /**
   On that domain `split_into_set(value, into)` as written computes the
   vector of the corrected `SplitJoinId`.
   */
  lemma SplitIntoSetAgrees<T>(f: Snapshot<T>, value: T, into: nat)
    requires StoreOk(f) && into < |f.data|
    requires value in f.table ==> f.data[f.table[value]].parent == f.table[value] && Alone(f.data, f.rank, f.table[value])
    ensures
      var e := Extend(f, value);
      Ranked(Detach(e.data, e.k), SplitRank(e.data, e.rank, e.k))
    ensures SplitIntoSetAsWritten(f, value, into) == SplitJoinId(f, value, into).data
  {
    SeparateAlone(f, value);
  }

  /**
   The documented example of `split_into`: after `insert_set(['a', 'b'])`
   (see `InsertTwo`) and `insert('c')`, `split_into('a', 'c')` as written
   leaves node 0 of 'a' with its stale parent 1, and the link, with both
   sizes 1, overwrites that parent with 2.
   */
  lemma SplitIntoDoc(g: Snapshot<char>)
    requires g.table == map['a' := 0, 'b' := 1, 'c' := 2] && g.data == [Node(1, 1), Node(2, 1), Node(1, 2)] && g.rank == [0, 1, 0]
    ensures StoreOk(g)
    ensures
      var e := Extend(g, 'a');
      Ranked(Detach(e.data, e.k), SplitRank(e.data, e.rank, e.k))
    ensures SplitIntoAsWritten(g, 'a', 'c') == [Node(1, 2), Node(2, 1), Node(2, 2)]
  {
    ThreeTable();
    assert g.table == Three().table;
    var e := Extend(g, 'a');
    assert e.data == g.data && e.rank == g.rank && e.k == 0;
    assert Detach(g.data, 0) == g.data && SplitRank(g.data, g.rank, 0) == g.rank;
    var h := ResolveAtRoot(Snapshot(e.table, g.data, g.rank, 0), 'c');
  }

  /** The corrected split of 'a' on the documented example, and the root of 'c' after it. */
  lemma SeparateDoc(g: Snapshot<char>) returns (s: Snapshot<char>, h: Snapshot<char>)
    requires g.table == map['a' := 0, 'b' := 1, 'c' := 2] && g.data == [Node(1, 1), Node(2, 1), Node(1, 2)] && g.rank == [0, 1, 0]
    ensures StoreOk(g) && s == Separate(g, 'a') && h == Resolve(s, 'c')
    ensures s.k == 0 && s.data == [Node(1, 0), Node(2, 1), Node(1, 2)]
    ensures h.k == 2 && h.data == s.data && h.rank == s.rank
  {
    ThreeTable();
    assert g.table == Three().table;
    var e := Extend(g, 'a');
    assert e.data == g.data && e.rank == g.rank && e.k == 0;
    assert SplitFixed(g.data, 0) == [Node(1, 0), Node(2, 1), Node(1, 2)] by {
      assert Heir(g.data, 0) == 1 && Repoint(g.data, 0, 1, 0) == g.data;
    }
    s := Separate(g, 'a');
    h := ResolveAtRoot(s, 'c');
  }

  /** Resolving a present value whose id is a root leaves the vector as it is. */
  lemma ResolveAtRoot<T>(s: Snapshot<T>, value: T) returns (h: Snapshot<T>)
    requires StoreOk(s) && value in s.table && s.data[s.table[value]].parent == s.table[value]
    ensures h == Resolve(s, value)
    ensures h.k == s.table[value] && h.data == s.data && h.rank == s.rank
  {
    var id := s.table[value];
    assert Root(s.data, s.rank, id) == id && PathSplit(s.data, s.rank, id) == s.data;
    h := Resolve(s, value);
  }

  /**
   The corrected `SplitJoin` on the documented example gives the same
   vector, in which 'a' shares a class with 'c' and not with 'b', as the
   example asserts.
   */
  lemma SplitJoinDoc(g: Snapshot<char>)
    requires g.table == map['a' := 0, 'b' := 1, 'c' := 2] && g.data == [Node(1, 1), Node(2, 1), Node(1, 2)] && g.rank == [0, 1, 0]
    ensures StoreOk(g)
    ensures SplitJoin(g, 'a', 'c').data == [Node(1, 2), Node(2, 1), Node(2, 2)]
    ensures
      var j := SplitJoin(g, 'a', 'c');
      Root(j.data, j.rank, 0) == Root(j.data, j.rank, 2) != Root(j.data, j.rank, 1)
  {
    var s, h := SeparateDoc(g);
    var j := SplitJoin(g, 'a', 'c');
    assert j == LinkAfter(s, h);
    assert j.data == Link(s.data, 0, 2) == [Node(1, 2), Node(2, 1), Node(2, 2)];
    assert Root(j.data, j.rank, 0) == 2 && Root(j.data, j.rank, 1) == 1;
  }

  /**
   A store reached by `insert_set(['a', 'b', 'c'])` from empty (see
   `InsertThree`): ids 0, 1, 2, with 0 -> 1 -> 2 and 2 the root.
   */
  ghost function Three(): Snapshot<char>
  {
    Snapshot(map['a' := 0, 'b' := 1, 'c' := 2], [Node(1, 1), Node(2, 2), Node(3, 2)], [0, 1, 2], 0)
  }

  /** `insert_set(['a', 'b', 'c'])` on an empty structure yields `Three()` (up to the running id). */
  lemma InsertThree()
    ensures StoreOk<char>(Snapshot(map[], [], [], 0))
    ensures
      var g := InsertAll(map[], [], [], ['a', 'b', 'c']);
      g.table == Three().table && g.data == Three().data && g.rank == Three().rank
  {
    var f0: Snapshot<char> := Snapshot(map[], [], [], 0);
    assert TableOk(f0.table, 0);
    var vs := ['a', 'b', 'c'];
    assert vs[1..|vs|] == ['b'] + ['c'] && ['b'] == [] + ['b'];
    var f1 := JoinThreeFirst();
    var f2 := JoinThreeSecond(f1);
    var f3 := JoinThreeThird(f2);
    JoinAllSnoc(f1, [], 'b');
    JoinAllSnoc(f1, ['b'], 'c');
  }

  /** The first value of `InsertThree`: 'a' gets id 0, a root. */
  lemma JoinThreeFirst() returns (f1: Snapshot<char>)
    ensures StoreOk<char>(Snapshot(map[], [], [], 0))
    ensures f1 == Resolve<char>(Snapshot(map[], [], [], 0), 'a')
    ensures f1 == Snapshot(map['a' := 0], [Node(1, 0)], [0], 0)
  {
    var f0: Snapshot<char> := Snapshot(map[], [], [], 0);
    assert TableOk(f0.table, 0);
    var e := Extend(f0, 'a');
    assert e == Snapshot(map['a' := 0], [Node(1, 0)], [0], 0);
    assert Root(e.data, e.rank, 0) == 0 && PathSplit(e.data, e.rank, 0) == e.data;
    f1 := Resolve(f0, 'a');
  }

  /** The second value: 'b' gets id 1, and node 0 goes under node 1. */
  lemma JoinThreeSecond(f1: Snapshot<char>) returns (f2: Snapshot<char>)
    requires f1 == Snapshot(map['a' := 0], [Node(1, 0)], [0], 0)
    ensures StoreOk(f1) && f2 == JoinStep(f1, 'b')
    ensures f2.table == map['a' := 0, 'b' := 1] && f2.data == [Node(1, 1), Node(2, 1)] && f2.rank == [0, 1] && f2.k == 0
  {
    assert f1.table['a'] == 0 && TableOk(f1.table, 1);
    var d, r := [Node(1, 0), Node(1, 1)], [0, 0];
    assert Grow(f1.data) == d && f1.rank + [0] == r;
    SecondLink();
    JoinStepNew(f1, 'b');
    f2 := JoinStep(f1, 'b');
  }

  /** The forest steps of `JoinThreeSecond`, on the vector alone. */
  lemma SecondLink()
    ensures
      var d, r := [Node(1, 0), Node(1, 1)], [0, 0];
      && Ranked(d, r) && Root(d, r, 0) == 0 && PathSplit(d, r, 0) == d
      && Link(d, 0, 1) == [Node(1, 1), Node(2, 1)] && LinkRank(d, r, 0, 1) == [0, 1]
  {
    var d, r := [Node(1, 0), Node(1, 1)], [0, 0];
    assert Ranked(d, r);
    assert Survivor(d, 0, 1) == 1;
  }

  /** The third value: 'c' gets id 2, and the root 1 goes under node 2. */
  lemma JoinThreeThird(f2: Snapshot<char>) returns (f3: Snapshot<char>)
    requires f2 == Snapshot(map['a' := 0, 'b' := 1], [Node(1, 1), Node(2, 1)], [0, 1], 0)
    ensures StoreOk(f2) && f3 == JoinStep(f2, 'c')
    ensures f3.table == Three().table && f3.data == Three().data && f3.rank == Three().rank
  {
    ThreeTable();
    assert f2.table['a'] == 0 && f2.table['b'] == 1;
    var d, r := [Node(1, 1), Node(2, 1), Node(1, 2)], [0, 1, 0];
    assert Grow(f2.data) == d && f2.rank + [0] == r;
    ThirdLink();
    JoinStepNew(f2, 'c');
    f3 := JoinStep(f2, 'c');
  }

  /** The forest steps of `JoinThreeThird`, on the vector alone. */
  lemma ThirdLink()
    ensures
      var d, r := [Node(1, 1), Node(2, 1), Node(1, 2)], [0, 1, 0];
      && Ranked(d, r) && Root(d, r, 0) == 1 && PathSplit(d, r, 0) == d
      && Link(d, 1, 2) == [Node(1, 1), Node(2, 2), Node(3, 2)] && LinkRank(d, r, 1, 2) == [0, 1, 2]
  {
    var d, r := [Node(1, 1), Node(2, 1), Node(1, 2)], [0, 1, 0];
    assert Ranked(d, r);
    assert Root(d, r, 0) == 1;
    assert Shortcut(d, 0) == d;
    assert Survivor(d, 1, 2) == 2;
  }

  /**
   One fold step with a new value when path halving from the running id
   changes nothing: the new root is linked with the running root.
   */
  lemma JoinStepNew<T>(f: Snapshot<T>, value: T)
    requires StoreOk(f) && f.k < |f.data| && value !in f.table
    requires Ranked(Grow(f.data), f.rank + [0]) && PathSplit(Grow(f.data), f.rank + [0], f.k) == Grow(f.data)
    ensures
      var d, r, n := Grow(f.data), f.rank + [0], |f.data|;
      var R := Root(d, r, f.k);
      JoinStep(f, value) == Snapshot(f.table[value := n], Link(d, R, n), LinkRank(d, r, R, n), R)
  {
    var h := ResolveNew(f, value);
  }

  /** Resolving a new value appends a root of its own, found at once. */
  lemma ResolveNew<T>(f: Snapshot<T>, value: T) returns (h: Snapshot<T>)
    requires StoreOk(f) && value !in f.table
    ensures h == Resolve(f, value)
    ensures h.table == f.table[value := |f.data|] && h.data == Grow(f.data) && h.rank == f.rank + [0] && h.k == |f.data|
  {
    GrowSpec(f.data, f.rank);
    var d, r := Grow(f.data), f.rank + [0];
    assert d[|f.data|].parent == |f.data|;
    h := Resolve(f, value);
  }

  /** `Three()` is a valid store, and detaching 'a' (a leaf of size 1) keeps it one. */
  lemma ThreeOk()
    ensures StoreOk(Three())
    ensures
      var e := Extend(Three(), 'a');
      && e.k == 0 && e.data == Three().data && e.rank == Three().rank
      && Detach(e.data, e.k) == e.data && SplitRank(e.data, e.rank, e.k) == e.rank
  {
    ThreeTable();
  }

  /** The tables of `InsertThree` hand out the ids 0, 1, 2 in insertion order. */
  lemma ThreeTable()
    ensures TableOk(map['a' := 0, 'b' := 1], 2)
    ensures TableOk(Three().table, 3)
  {
    var t0: map<char, nat> := map[];
    assert TableOk(t0, 0);
    TableInsert(t0, 0, 'a');
    assert t0['a' := 0] == map['a' := 0];
    TableInsert(map['a' := 0], 1, 'b');
    assert map['a' := 0]['b' := 1] == map['a' := 0, 'b' := 1];
    TableInsert(map['a' := 0, 'b' := 1], 2, 'c');
    assert map['a' := 0, 'b' := 1]['c' := 2] == Three().table;
  }

  /**
   `split_into('a', 'c')` as written on `Three()`: node 0 of 'a' keeps its
   parent 1, and the link puts the root 2 under that parent, whose parent
   is 2. The vector has a cycle and no ranking; 'a' was not split off from
   'b' (see `CycleHalved`).
   */
  lemma SplitIntoCycle()
    ensures StoreOk(Three())
    ensures
      var e := Extend(Three(), 'a');
      Ranked(Detach(e.data, e.k), SplitRank(e.data, e.rank, e.k))
    ensures SplitIntoAsWritten(Three(), 'a', 'c') == [Node(4, 1), Node(2, 2), Node(3, 1)]
    ensures forall rank :: !Ranked(SplitIntoAsWritten(Three(), 'a', 'c'), rank)
  {
    ThreeOk();
    var f := Three();
    var e := Extend(f, 'a');
    var s := Snapshot(e.table, f.data, f.rank, 0);
    assert Root(f.data, f.rank, 2) == 2;
    var h := Resolve(s, 'c');
    assert h.data == f.data && h.k == 2;
    var d := SplitIntoAsWritten(f, 'a', 'c');
    assert d == Link(f.data, 0, 2);
    assert d == [Node(4, 1), Node(2, 2), Node(3, 1)];
    forall rank: seq<nat>
      ensures !Ranked(d, rank)
    {
      if |rank| == |d| {
        assert d[1].parent == 2 && d[2].parent == 1;
        assert !(rank[1] < rank[2] && rank[2] < rank[1]);
      }
    }
  }

  /** `insert_set(['a', 'b'])` on an empty structure: 'b' (id 1) becomes the root of 'a' (id 0). */
  lemma InsertTwo()
    ensures StoreOk<char>(Snapshot(map[], [], [], 0))
    ensures
      var g := InsertAll(map[], [], [], ['a', 'b']);
      g.table == map['a' := 0, 'b' := 1] && g.data == [Node(1, 1), Node(2, 1)] && g.rank == [0, 1]
  {
    var f0: Snapshot<char> := Snapshot(map[], [], [], 0);
    assert TableOk(f0.table, 0);
    var vs := ['a', 'b'];
    assert vs[1..|vs|] == [] + ['b'];
    var f1 := JoinThreeFirst();
    var f2 := JoinThreeSecond(f1);
    JoinAllSnoc(f1, [], 'b');
  }

  /**
   `split('b')` after `insert_set(['a', 'b'])` (see `InsertTwo`), as written:
   no node is re-pointed away from 'b', so 'a' and 'b' stay in one class;
   the corrected split separates them.
   */
  lemma SplitRootStays(g: Snapshot<char>)
    requires g.table == map['a' := 0, 'b' := 1] && g.data == [Node(1, 1), Node(2, 1)] && g.rank == [0, 1]
    ensures StoreOk(g)
    ensures SplitForest(g.data, 1) == [Node(1, 1), Node(1, 1)]
    ensures Ranked(SplitForest(g.data, 1), SplitRank(g.data, g.rank, 1))
    ensures Root(SplitForest(g.data, 1), SplitRank(g.data, g.rank, 1), 0) == Root(SplitForest(g.data, 1), SplitRank(g.data, g.rank, 1), 1)
    ensures Separate(g, 'b').data == [Node(1, 0), Node(1, 1)]
  {
    ThreeTable();
    assert FirstChild(g.data, 1, 0) == 0;
    assert SplitForest(g.data, 1) == [Node(1, 1), Node(1, 1)];
    SplitShape(g.data, g.rank, 1);
    assert Heir(g.data, 1) == 0;
  }

  /**
   `split_into_set('a', 2)` as written on `Three()` (2 is the id of 'c')
   makes the same cycle, and again 'a' stays with 'b'.
   */
  lemma SplitIntoSetCycle()
    ensures StoreOk(Three())
    ensures
      var e := Extend(Three(), 'a');
      Ranked(Detach(e.data, e.k), SplitRank(e.data, e.rank, e.k))
    ensures SplitIntoSetAsWritten(Three(), 'a', 2) == [Node(4, 1), Node(2, 2), Node(3, 1)]
    ensures forall rank :: !Ranked(SplitIntoSetAsWritten(Three(), 'a', 2), rank)
  {
    ThreeOk();
    var f := Three();
    assert Root(f.data, f.rank, 2) == 2 && PathSplit(f.data, f.rank, 2) == f.data;
    var d := SplitIntoSetAsWritten(f, 'a', 2);
    assert d == Link(f.data, 0, 2);
    assert d == [Node(4, 1), Node(2, 2), Node(3, 1)];
    forall rank: seq<nat>
      ensures !Ranked(d, rank)
    {
      if |rank| == |d| {
        assert d[1].parent == 2 && d[2].parent == 1;
        assert !(rank[1] < rank[2] && rank[2] < rank[1]);
      }
    }
  }

  /**
   `find('b')` after `split_into('a', 'c')` as written on `Three()`: the
   walk of `compress_path(1)` re-points node 1 to the parent of 2, which is
   1, then node 2 to the parent of 1, and returns 1. The cycle is gone, the
   vector is ranked again, and 'a', 'b' and 'c' all have the root 1.
   */
  lemma CycleHalved()
    ensures Shortcut(Shortcut([Node(4, 1), Node(2, 2), Node(3, 1)], 1), 2) == [Node(4, 1), Node(2, 1), Node(3, 1)]
    ensures Ranked([Node(4, 1), Node(2, 1), Node(3, 1)], [0, 1, 0])
    ensures forall k :: 0 <= k < 3 ==> Root([Node(4, 1), Node(2, 1), Node(3, 1)], [0, 1, 0], k) == 1
  {
    var d := [Node(4, 1), Node(2, 1), Node(3, 1)];
    assert Ranked(d, [0, 1, 0]);
    assert Root(d, [0, 1, 0], 0) == Root(d, [0, 1, 0], 1) == 1;
    assert Root(d, [0, 1, 0], 2) == 1;
  }

  class DisjointHashSet<T(==)> {
    /** The value -> id table. */
    var table: map<T, nat>
    /** The node vector, indexed by id. */
    var data: seq<Node>
    /** Ranks witnessing that parent links never form a cycle. */
    ghost var rank: seq<nat>

    ghost predicate Valid()
      reads this
    {
      Ranked(data, rank) && TableOk(table, |data|)
    }

    /** The root representing the class of id `k`. */
    ghost function RootOf(k: nat): nat
      reads this
      requires Valid() && k < |data|
    {
      Root(data, rank, k)
    }

    /** The id `value` has, or gets when it is inserted. */
    ghost function IdOf(value: T): nat
      reads this
      requires Valid()
    {
      Extend(Snapshot(table, data, rank, 0), value).k
    }

    /** The node vector once `value` is present. */
    ghost function Extended(value: T): seq<Node>
      reads this
      requires Valid()
    {
      Extend(Snapshot(table, data, rank, 0), value).data
    }

    ghost function ExtendedRank(value: T): seq<nat>
      reads this
      requires Valid()
    {
      Extend(Snapshot(table, data, rank, 0), value).rank
    }

    /** An empty structure. */
    constructor ()
      ensures Valid() && table == map[] && data == []
    {
      table := map[];
      data := [];
      rank := [];
    }

    /** An empty structure; the capacity only sizes the allocations. */
    constructor WithCapacity(cap: nat)
      ensures Valid() && table == map[] && data == []
    {
      table := map[];
      data := [];
      rank := [];
    }

    /**
     Each distinct value of `values` in a class of its own, with ids in
     order of first occurrence (see `CollectRepeat` for the table built as
     written); one singleton root per id.
     */
    constructor WithValues(values: seq<T>)
      ensures Valid()
      ensures table == FirstIds(values)
      ensures forall v :: v in table <==> v in values
      ensures |data| == |table|
      ensures forall i :: 0 <= i < |data| ==> data[i] == NewNode(i) && RootOf(i) == i
      ensures (forall i, j :: 0 <= i < j < |values| ==> values[i] != values[j]) ==>
        |data| == |values| && forall i :: 0 <= i < |values| ==> table[values[i]] == i
    {
      var m := TableOf(values);
      FirstIdsOk(values);
      if forall i, j :: 0 <= i < j < |values| ==> values[i] != values[j] {
        FirstIdsPositions(values);
      }
      var d := Singletons(|m|);
      table := m;
      data := d;
      rank := seq(|m|, _ => 0);
      new;
      forall k | 0 <= k < |data|
        ensures RootOf(k) == k
      {
      }
    }

    /** The table of `with_values`: each value in turn gets its id, a new one if unseen. */
    static method TableOf(values: seq<T>) returns (m: map<T, nat>)
      ensures m == FirstIds(values)
    {
      m := map[];
      var i := 0;
      while i < |values|
        invariant 0 <= i <= |values|
        invariant m == FirstIds(values[..i])
      {
        assert values[..i + 1][..i] == values[..i];
        m := m[values[i] := IdIn(m, |m|, values[i])];
        i := i + 1;
      }
      assert values[..i] == values;
    }

    /** The node vector of `with_values`: `n` singleton roots, node `k` with parent `k`. */
    static method Singletons(n: nat) returns (d: seq<Node>)
      ensures |d| == n && forall k :: 0 <= k < n ==> d[k] == NewNode(k)
    {
      d := [];
      while |d| < n
        invariant |d| <= n
        invariant forall k :: 0 <= k < |d| ==> d[k] == NewNode(k)
      {
        d := d + [NewNode(|d|)];
      }
    }

    /** The number of ids handed out, which is the number of distinct values inserted. */
    function Size(): (n: nat)
      reads this
      requires Valid()
      ensures n == |table|
    {
      |data|
    }

    /** Whether `value` has been inserted. */
    function Contains(value: T): (b: bool)
      reads this
      requires Valid()
      ensures b <==> value in table
      ensures b ==> table[value] < Size()
    {
      value in table
    }

    /** The node of id `id`; its parent is an id of the same class. */
    function Get(id: nat): (node: Node)
      reads this
      requires Valid() && id < Size()
      ensures node.parent < Size()
      ensures RootOf(node.parent) == RootOf(id)
    {
      data[id]
    }

    /**
     Give `value` an id: its existing one, or the next one together with a
     new singleton root.
     */
    method InsertInner(value: T) returns (id: nat)
      requires Valid()
      modifies this
      ensures Valid()
      ensures id == old(IdOf(value)) && table == old(table)[value := id]
      ensures data == old(Extended(value)) && rank == old(ExtendedRank(value))
      ensures value in old(table) ==> table == old(table) && data == old(data)
      ensures value !in old(table) ==> id == old(Size()) && data == old(data) + [Node(1, id)]
      ensures forall k :: 0 <= k < old(|data|) ==> RootOf(k) == old(RootOf(k))
      ensures RootOf(id) == old(if value in table then RootOf(table[value]) else Size())
    {
      GrowSpec(data, rank);
      if value in table {
        id := table[value];
      } else {
        id := |data|;
        TableInsert(table, id, value);
        data := data + [NewNode(id)];
        table := table[value := id];
        rank := rank + [0];
      }
    }

    /**
     `insert` as written: insert `value` and answer whether the id it ends
     with differs from the last id handed out, which is `InsertReport`.
     */
    method Insert(value: T) returns (b: bool)
      requires Valid()
      modifies this
      ensures Valid()
      ensures table == old(table)[value := old(IdOf(value))]
      ensures data == old(Extended(value)) && rank == old(ExtendedRank(value))
      ensures b == old(InsertReport(table, |data|, value))
    {
      var id := InsertInner(value);
      b := id != Size() - 1;
    }

    /**
     `insert` as its documentation promises: insert `value` and answer
     whether it was new, by comparing its id with the size before.
     */
    method InsertChecked(value: T) returns (b: bool)
      requires Valid()
      modifies this
      ensures Valid()
      ensures table == old(table)[value := old(IdOf(value))]
      ensures data == old(Extended(value)) && rank == old(ExtendedRank(value))
      ensures b <==> value !in old(table)
    {
      var n := Size();
      var id := InsertInner(value);
      b := id == n;
    }

    /**
     Walk from `id` to its root, re-pointing every node on the way to its
     grandparent; answer the root.
     */
    method CompressPath(id: nat) returns (r: nat)
      requires Valid() && id < Size()
      modifies this
      ensures Valid() && table == old(table) && rank == old(rank)
      ensures data == PathSplit(old(data), rank, id)
      ensures |data| == old(|data|)
      ensures r == old(RootOf(id)) && r < |data| && data[r].parent == r
      ensures forall k :: 0 <= k < |data| ==> data[k].size == old(data[k].size)
      ensures forall k :: 0 <= k < |data| ==> RootOf(k) == old(RootOf(k))
    {
      PathSplitSpec(data, rank, id);
      var cur := id;
      var parent := data[cur].parent;
      while parent != cur
        invariant table == old(table) && rank == old(rank)
        invariant Ranked(data, rank) && |data| == old(|data|)
        invariant cur < |data| && parent == data[cur].parent
        invariant PathSplit(data, rank, cur) == PathSplit(old(data), rank, id)
        invariant Root(data, rank, cur) == Root(old(data), rank, id)
        decreases MaxRank(rank) - rank[cur]
      {
        ShortcutSpec(data, rank, cur);
        data := data[cur := data[cur].(parent := data[parent].parent)];
        cur := parent;
        parent := data[cur].parent;
      }
      r := cur;
    }

    /**
     The root of the class of `value`, or None when it was never inserted
     (and then nothing changes).
     */
    method Find(value: T) returns (r: Option<nat>)
      requires Valid()
      modifies this
      ensures Valid() && table == old(table) && rank == old(rank) && |data| == old(|data|)
      ensures value !in table ==> r == None && data == old(data)
      ensures value in table ==> r == Some(old(RootOf(table[value])))
      ensures value in table ==> data == PathSplit(old(data), rank, table[value])
      ensures forall k :: 0 <= k < |data| ==> RootOf(k) == old(RootOf(k))
    {
      if value !in table {
        return None;
      }
      var id := table[value];
      var root := CompressPath(id);
      r := Some(root);
    }

    /** The root of the class of `value`, inserting it first if needed. */
    method FindOrInsert(value: T) returns (r: nat)
      requires Valid()
      modifies this
      ensures Valid()
      ensures table == old(table)[value := old(IdOf(value))]
      ensures rank == old(ExtendedRank(value))
      ensures data == PathSplit(old(Extended(value)), rank, table[value])
      ensures old(|data|) <= |data| && r < |data| && data[r].parent == r
      ensures r == RootOf(table[value])
      ensures value !in old(table) ==> r == old(Size()) && |data| == old(|data|) + 1
      ensures value in old(table) ==> r == old(RootOf(table[value])) && |data| == old(|data|)
      ensures forall k :: 0 <= k < old(|data|) ==> RootOf(k) == old(RootOf(k))
      ensures Snapshot(table, data, rank, r) == Resolve(old(Snapshot(table, data, rank, 0)), value)
    {
      var id := InsertInner(value);
      r := CompressPath(id);
    }

    /** Link two roots (`union_inner`); the callers pass roots only. */
    method UnionInner(a: nat, b: nat)
      requires Valid() && a < Size() && b < Size()
      requires data[a].parent == a && data[b].parent == b
      modifies this
      ensures Valid() && table == old(table) && |data| == old(|data|)
      ensures data == Link(old(data), a, b) && rank == LinkRank(old(data), old(rank), a, b)
      ensures RootOf(a) == Survivor(old(data), a, b) && RootOf(b) == Survivor(old(data), a, b)
      ensures forall k :: 0 <= k < |data| ==> RootOf(k) == LinkedRoot(old(data), old(rank), a, b, k)
    {
      LinkShape(data, rank, a, b);
      LinkRoots(data, rank, a, b);
      ghost var d0 := data;
      var value := data[a];
      var other := data[b];
      if value == other {
        return;
      }
      rank := LinkRank(data, rank, a, b);
      if value.size < other.size {
        data := data[b := data[b].(parent := value.parent)];
        data := data[a := data[a].(size := data[a].size + other.size)];
      } else {
        data := data[a := data[a].(parent := other.parent)];
        data := data[b := data[b].(size := data[b].size + value.size)];
      }
      assert data == Link(d0, a, b);
    }

    /** Merge the classes of ids `a` and `b`, resolving both to roots first. */
    method UnionSets(a: nat, b: nat)
      requires Valid() && a < Size() && b < Size()
      modifies this
      ensures Valid() && table == old(table) && |data| == old(|data|)
      ensures RootOf(a) == RootOf(b)
      ensures forall k :: 0 <= k < |data| ==>
        RootOf(k) == LinkedRoot(old(data), old(rank), old(RootOf(a)), old(RootOf(b)), k)
    {
      ghost var d0, r0 := data, rank;
      var ra := CompressPath(a);
      ghost var d1 := data;
      var rb := CompressPath(b);
      assert Survivor(data, ra, rb) == Survivor(d0, ra, rb) by {
        assert data[ra].size == d1[ra].size == d0[ra].size;
        assert data[rb].size == d1[rb].size == d0[rb].size;
      }
      forall k | 0 <= k < |data|
        ensures LinkedRoot(data, r0, ra, rb, k) == LinkedRoot(d0, r0, ra, rb, k)
      {
        assert RootOf(k) == Root(data, r0, k);
      }
      UnionInner(ra, rb);
    }

    /**
     Merge the classes of two values, inserting them if needed. The new
     state is `Merge` of the old one; `MergeTable` and `MergeRoots` state
     what that means for the table and the classes.
     */
    method Union(value: T, other: T)
      requires Valid()
      modifies this
      ensures Valid()
      ensures
        var g := Merge(old(Snapshot(table, data, rank, 0)), value, other);
        table == g.table && data == g.data && rank == g.rank
    {
      ghost var f := Snapshot(table, data, rank, 0);
      var a := FindOrInsert(value);
      ghost var h1 := Snapshot(table, data, rank, a);
      assert h1 == Resolve(f, value);
      assert RootOf(a) == a;
      var b := FindOrInsert(other);
      ghost var h2 := Snapshot(table, data, rank, b);
      assert h2 == Resolve(h1, other);
      ResolveKeeps(h1, other);
      UnionInner(a, b);
    }

    /**
     One pass of the `insert_set` loop: resolve `value` to its root, move
     the running id `k` to its root, and link the two.
     */
    method JoinPass(k: nat, value: T) returns (k': nat)
      requires Valid() && k < |data|
      modifies this
      ensures Valid() && k' < |data|
      ensures Snapshot(table, data, rank, k') == JoinStep(old(Snapshot(table, data, rank, k)), value)
    {
      ghost var f := Snapshot(table, data, rank, k);
      var v := FindOrInsert(value);
      ghost var h := Snapshot(table, data, rank, v);
      assert h == Resolve(f, value);
      k' := CompressPath(k);
      assert k' == Root(h.data, h.rank, f.k) && data == PathSplit(h.data, h.rank, f.k);
      UnionInner(k', v);
    }

    /**
     Insert `values` as one class: each value is resolved (inserted if
     needed) and linked with the running root of the first value, which is
     re-resolved before every link.
     */
    method InsertSet(values: seq<T>)
      requires Valid()
      modifies this
      ensures Valid()
      ensures values == [] ==> table == old(table) && data == old(data) && rank == old(rank)
      ensures values != [] ==>
        var g := InsertAll(old(table), old(data), old(rank), values);
        table == g.table && data == g.data && rank == g.rank
    {
      if |values| == 0 {
        return;
      }
      ghost var f0 := Snapshot(table, data, rank, 0);
      var k: nat := FindOrInsert(values[0]);
      ghost var f1 := Snapshot(table, data, rank, k);
      assert f1 == Resolve(f0, values[0]);
      var i := 1;
      while i < |values|
        invariant 1 <= i <= |values|
        invariant k < |data|
        invariant Snapshot(table, data, rank, k) == JoinAll(f1, values[1..i])
      {
        JoinAllLast(f1, values, i + 1);
        k := JoinPass(k, values[i]);
        i := i + 1;
      }
      assert Snapshot(table, data, rank, k) == InsertAll(f0.table, f0.data, f0.rank, values);
    }

    /**
     `split_inner`: resolve `value` (inserting it if needed) and, unless its
     node has size 1, re-point the nodes whose parent is its id and reset its
     size to 1. The caller completes the split by making the id its own
     parent; until then the state may not satisfy `Valid()`.
     */
    method SplitInner(value: T) returns (id: nat)
      requires Valid()
      modifies this
      ensures id == old(IdOf(value)) && table == old(table)[value := id]
      ensures TableOk(table, |data|) && id < |data| && |data| == |old(Extended(value))|
      ensures data == Detach(old(Extended(value)), id)
      ensures rank == SplitRank(old(Extended(value)), old(ExtendedRank(value)), id)
    {
      id := InsertInner(value);
      ghost var d0, r0 := data, rank;
      var node := data[id];
      if node.size == 1 {
        return;
      }
      var target := node.parent;
      var start := 0;
      if id == node.parent {
        var j := FirstChildOf(id);
        target, start := j, j + 1;
        rank := SplitRank(d0, r0, id);
      }
      RepointFrom(id, target, start);
      data := data[id := data[id].(size := 1)];
    }

    /** The first id whose parent is the root `id` (`position` over the node vector). */
    method FirstChildOf(id: nat) returns (j: nat)
      requires id < |data| && data[id].parent == id
      ensures j == FirstChild(data, id, 0)
    {
      j := 0;
      while data[j].parent != id
        invariant j <= id
        invariant forall k :: 0 <= k < j ==> data[k].parent != id
        decreases id - j
      {
        j := j + 1;
      }
    }

    /** Re-point to `target` every node at index `start` or later whose parent is `id`. */
    method RepointFrom(id: nat, target: nat, start: nat)
      modifies this
      ensures table == old(table) && rank == old(rank)
      ensures data == Repoint(old(data), id, target, start)
    {
      var i := start;
      while i < |data|
        invariant table == old(table) && rank == old(rank) && |data| == |old(data)|
        invariant forall k :: 0 <= k < |data| ==>
          data[k] == if start <= k < i && old(data[k]).parent == id then old(data[k]).(parent := target) else old(data[k])
      {
        if data[i].parent == id {
          data := data[i := data[i].(parent := target)];
        }
        i := i + 1;
      }
    }

    /**
     Make `value` (inserted if needed) a root of size 1. How the rest of its
     class fares depends on its node, as the three cases below state.
     */
    method Split(value: T)
      requires Valid()
      modifies this
      ensures Valid()
      ensures table == old(table)[value := old(IdOf(value))]
      ensures data == SplitForest(old(Extended(value)), table[value])
      ensures rank == SplitRank(old(Extended(value)), old(ExtendedRank(value)), table[value])
      ensures data[table[value]] == Node(1, table[value])
      ensures value !in old(table) ==> data == Grow(old(data)) && RootOf(table[value]) == table[value]
      ensures value !in old(table) ==> forall k :: 0 <= k < old(|data|) ==> RootOf(k) == old(RootOf(k))
      // a non-root of size > 1 leaves its class; the rest of the class stays together
      ensures value in old(table) && old(data[table[value]].size) != 1 && old(data[table[value]].parent) != table[value] ==>
        forall k :: 0 <= k < |data| && k != table[value] ==>
          && data[k].parent != table[value]
          && data[k].parent == old(if data[k].parent == table[value] then data[table[value]].parent else data[k].parent)
          && RootOf(k) == old(RootOf(k))
      // a class root of size > 1 keeps its whole class; only its size is reset
      ensures value in old(table) && old(data[table[value]].size) != 1 && old(data[table[value]].parent) == table[value] ==>
        forall k :: 0 <= k < |data| ==> RootOf(k) == old(RootOf(k))
      // a node of size 1 becomes the root of every node whose chain passed through it
      ensures value in old(table) && old(data[table[value]].size) == 1 ==>
        forall k :: 0 <= k < |data| ==>
          RootOf(k) == if old(OnPath(data, rank, k, table[value])) then table[value] else old(RootOf(k))
    {
      ghost var d0, r0 := Extended(value), ExtendedRank(value);
      GrowSpec(data, rank);
      var id := SplitInner(value);
      data := data[id := data[id].(parent := id)];
      SplitShape(d0, r0, id);
      if d0[id].size == 1 {
        SplitSingleton(d0, r0, id);
      } else if d0[id].parent != id {
        SplitMember(d0, r0, id);
      } else {
        SplitClassRoot(d0, r0, id);
      }
    }

    /**
     `split` as its documentation describes it: `value` (inserted if
     needed) ends alone in its class, and any two other ids share a class
     exactly when they did before; when its node was a class root, the
     first other child becomes the root of the rest of the class.
     */
    method SplitApart(value: T)
      requires Valid()
      modifies this
      ensures Valid()
      ensures table == old(table)[value := old(IdOf(value))]
      ensures Snapshot(table, data, rank, table[value]) == Separate(old(Snapshot(table, data, rank, 0)), value)
      ensures RootOf(table[value]) == table[value]
      ensures forall k :: 0 <= k < |data| && k != table[value] ==> RootOf(k) != table[value]
      ensures forall x, y :: 0 <= x < old(|data|) && 0 <= y < old(|data|) && x != table[value] && y != table[value] ==>
        (RootOf(x) == RootOf(y) <==> old(RootOf(x) == RootOf(y)))
    {
      ghost var f := Snapshot(table, data, rank, 0);
      var id := SplitOff(value);
      SeparateRoots(f, value);
    }

    /** The in-place steps of the corrected split of id `id`. */
    method DetachFixed(id: nat)
      requires Valid() && id < |data|
      modifies this
      ensures table == old(table)
      ensures data == SplitFixed(old(data), id) && rank == FixedRank(old(data), old(rank), id)
    {
      ghost var d0 := data;
      var node := data[id];
      var t := node.parent;
      if node.parent == id {
        var j := FirstOtherChildOf(id);
        t := if j < |data| then j else id;
      }
      assert t == Heir(d0, id);
      RepointFrom(id, t, 0);
      if t != node.parent {
        data := data[t := Node(if node.size > 1 then node.size - 1 else 1, t)];
        rank := rank[t := rank[id]];
      }
      data := data[id := Node(1, id)];
    }

    /** The first id other than `id` whose parent is `id`, or `Size()` when there is none. */
    method FirstOtherChildOf(id: nat) returns (j: nat)
      ensures j == FirstOtherChild(data, id, 0)
    {
      j := 0;
      while j < |data| && (j == id || data[j].parent != id)
        invariant j <= |data|
        invariant FirstOtherChild(data, id, j) == FirstOtherChild(data, id, 0)
      {
        j := j + 1;
      }
    }

    /**
     `split_into` as its documentation describes it: `value` is split off
     by the corrected split (as in `SplitApart`, so its id is a root alone
     in its class) and then linked with the class of `into`, inserted if
     needed. The new state is
     `SplitJoin` of the old one; `SplitJoinTable` and `SplitJoinSpec` state
     what that means for the table and the classes.
     */
    method SplitInto(value: T, into: T)
      requires Valid()
      modifies this
      ensures Valid()
      ensures
        var g := SplitJoin(old(Snapshot(table, data, rank, 0)), value, into);
        table == g.table && data == g.data && rank == g.rank
    {
      var id := SplitOff(value);
      ghost var s := Snapshot(table, data, rank, id);
      assert RootOf(id) == id;
      ResolveIgnoresK(s, into);
      var r := FindOrInsert(into);
      ResolveKeeps(s, into);
      UnionInner(id, r);
    }

    /**
     The corrected split: `value` is inserted if needed, its other
     children move to its parent (or, at a class root, to the first other
     child, which becomes the new root), and its node becomes a singleton.
     The new state is `Separate` of the old one, with `id` the id of
     `value`.
     */
    method SplitOff(value: T) returns (id: nat)
      requires Valid()
      modifies this
      ensures Valid() && id < |data| && data[id].parent == id
      ensures Snapshot(table, data, rank, id) == Separate(old(Snapshot(table, data, rank, 0)), value)
    {
      ghost var f := Snapshot(table, data, rank, 0);
      id := InsertInner(value);
      DetachFixed(id);
      assert Snapshot(table, data, rank, id) == Separate(f, value);
    }

    /**
     `split_into_set` as its documentation describes it: `value` is split
     off by the corrected split (as in `SplitApart`) and then linked with
     the root of the id `into`.
     The new state is `SplitJoinId` of the old one (see `SplitJoinIdSpec`).
     */
    method SplitIntoSet(value: T, into: nat)
      requires Valid() && into < Size()
      modifies this
      ensures Valid()
      ensures
        var g := SplitJoinId(old(Snapshot(table, data, rank, 0)), value, into);
        table == g.table && data == g.data && rank == g.rank
    {
      var id := SplitOff(value);
      ghost var s := Snapshot(table, data, rank, id);
      var r := CompressPath(into);
      assert r == Root(s.data, s.rank, into) && data == PathSplit(s.data, s.rank, into);
      assert RootOf(id) == id;
      UnionInner(id, r);
    }

    /**
     Whether two values are in one class (`connected`): the two `Find`
     results compared, so two absent values count as connected.
     */
    method Connected(value: T, other: T) returns (b: bool)
      requires Valid()
      modifies this
      ensures Valid() && table == old(table) && rank == old(rank) && |data| == old(|data|)
      ensures forall k :: 0 <= k < |data| ==> RootOf(k) == old(RootOf(k))
      ensures value in table && other in table ==> (b <==> old(RootOf(table[value]) == RootOf(table[other])))
      ensures (value in table) != (other in table) ==> !b
      ensures value !in table && other !in table ==> b
    {
      var x := Find(value);
      var y := Find(other);
      b := x == y;
    }

    /** `find_or_insert` twice on one value answers the same root. */
    method FindOrInsertTwice(value: T) returns (r1: nat, r2: nat)
      requires Valid()
      modifies this
      ensures Valid() && r1 == r2
    {
      r1 := FindOrInsert(value);
      r2 := FindOrInsert(value);
    }

    /** Once `value` is inserted, `find` answers a root for it. */
    method InsertThenFind(value: T) returns (r: Option<nat>)
      requires Valid()
      modifies this
      ensures Valid() && r.Some?
    {
      var added := Insert(value);
      r := Find(value);
    }

    /** After `union(value, other)` the two values are connected. */
    method UnionThenConnected(value: T, other: T) returns (b: bool)
      requires Valid()
      modifies this
      ensures Valid() && b
    {
      ghost var t0, d0, r0 := table, data, rank;
      Union(value, other);
      MergeRoots(t0, d0, r0, value, other);
      b := Connected(value, other);
    }
  }
}
