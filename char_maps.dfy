/**
 * Character-frequency tables (`HashMap<char, usize>` in the source) and the
 * key-by-key merge that combines partial tables into one.
 */
module CharMaps {

  /** A table from characters to how often they occur. */
  type CharMap = map<char, nat>

  /** The count stored under `k`; a missing key reads as 0, as `entry(k).or_default()` does. */
  function Get(m: CharMap, k: char): nat
  {
    if k in m then m[k] else 0
  }

  /** Every stored count is at least 1: a key only enters a table when something is added to it. */
  predicate Positive(m: CharMap)
  {
    forall k :: k in m ==> m[k] >= 1
  }

  /** Two tables are equal when they have the same keys and agree on every count. */
  lemma Extensional(a: CharMap, b: CharMap)
    requires a.Keys == b.Keys
    requires forall k :: Get(a, k) == Get(b, k)
    ensures a == b
  {
    forall k | k in a
      ensures a[k] == b[k]
    {
      assert Get(a, k) == Get(b, k);
    }
  }

  /** `*m.entry(k).or_default() += v`: the count of `k` grows by `v`, every other count stays. */
  function AddTo(m: CharMap, k: char, v: nat): (r: CharMap)
    ensures r.Keys == m.Keys + {k}
    ensures Get(r, k) == Get(m, k) + v
    ensures forall j :: j != k ==> Get(r, j) == Get(m, j)
  {
    m[k := Get(m, k) + v]
  }

  /**
   * The merge of two partial tables: counts of shared keys are summed and a
   * key present in only one table keeps its count.
   */
  function Merge(m1: CharMap, m2: CharMap): (r: CharMap)
    ensures r.Keys == m1.Keys + m2.Keys
    ensures forall k :: Get(r, k) == Get(m1, k) + Get(m2, k)
  {
    map k | k in m1.Keys + m2.Keys :: Get(m1, k) + Get(m2, k)
  }

  lemma MergeCommutative(a: CharMap, b: CharMap)
    ensures Merge(a, b) == Merge(b, a)
  {
    Extensional(Merge(a, b), Merge(b, a));
  }

  lemma MergeAssociative(a: CharMap, b: CharMap, c: CharMap)
    ensures Merge(Merge(a, b), c) == Merge(a, Merge(b, c))
  {
    Extensional(Merge(Merge(a, b), c), Merge(a, Merge(b, c)));
  }

  /** The empty table (`HashMap::new()`) is the identity of the merge. */
  lemma MergeEmpty(a: CharMap)
    ensures Merge(a, map[]) == a && Merge(map[], a) == a
  {
    Extensional(Merge(a, map[]), a);
    Extensional(Merge(map[], a), a);
  }

  /** Adding to the second table before the merge is adding to the merged table. */
  lemma MergeAddTo(a: CharMap, b: CharMap, k: char, v: nat)
    ensures Merge(a, AddTo(b, k, v)) == AddTo(Merge(a, b), k, v)
  {
    Extensional(Merge(a, AddTo(b, k, v)), AddTo(Merge(a, b), k, v));
  }

  /**
   * The merge loop `for (key, value) in partial { *result.entry(key).or_default() += value }`.
   * A `HashMap` is iterated in no particular order, so the next key is picked arbitrarily;
   * `partial` is a value and is left as it was.
   */
  method MergeInto(result: CharMap, partial: CharMap) returns (r: CharMap)
    ensures r == Merge(result, partial)
  {
    r := result;
    var pending := partial.Keys;
    while pending != {}
      invariant pending <= partial.Keys
      invariant r == Merge(result, partial - pending)
      decreases pending
    {
      var k :| k in pending;
      assert partial - (pending - {k}) == AddTo(partial - pending, k, partial[k]);
      MergeAddTo(result, partial - pending, k, partial[k]);
      r := AddTo(r, k, partial[k]);
      pending := pending - {k};
    }
    assert partial - pending == partial;
  }

  /** Some key of a non-empty table. */
  ghost function PickKey(m: CharMap): (k: char)
    requires m.Keys != {}
    ensures k in m
  {
    var k :| k in m; k
  }

  /** The sum of all counts in a table. */
  ghost function Total(m: CharMap): nat
    decreases m.Keys
  {
    if m.Keys == {} then 0 else var k := PickKey(m); m[k] + Total(m - {k})
  }

  /** The sum does not depend on which key is taken out first. */
  lemma {:induction false} TotalRemove(m: CharMap, k: char)
    requires k in m
    ensures Total(m) == m[k] + Total(m - {k})
    decreases m.Keys
  {
    var j := PickKey(m);
    if j != k {
      TotalRemove(m - {j}, k);
      TotalRemove(m - {k}, j);
      assert m - {j} - {k} == m - {k} - {j};
    }
  }

  lemma TotalAddTo(m: CharMap, k: char, v: nat)
    ensures Total(AddTo(m, k, v)) == Total(m) + v
  {
    var r := AddTo(m, k, v);
    TotalRemove(r, k);
    assert r - {k} == m - {k};
    if k in m {
      TotalRemove(m, k);
    } else {
      assert m - {k} == m;
    }
  }

  /** Merging keeps every count, so the sums add up. */
  lemma {:induction false} TotalMerge(a: CharMap, b: CharMap)
    ensures Total(Merge(a, b)) == Total(a) + Total(b)
    decreases b.Keys
  {
    if b.Keys == {} {
      assert b == map[];
      MergeEmpty(a);
    } else {
      var k := PickKey(b);
      var b' := b - {k};
      TotalMerge(a, b');
      Extensional(b, AddTo(b', k, b[k]));
      MergeAddTo(a, b', k, b[k]);
      TotalAddTo(Merge(a, b'), k, b[k]);
      TotalRemove(b, k);
    }
  }

  /** Merges a sequence of tables left to right. */
  function MergeAll(ps: seq<CharMap>): (r: CharMap)
    ensures forall i :: 0 <= i < |ps| ==> ps[i].Keys <= r.Keys
  {
    if ps == [] then map[] else Merge(MergeAll(ps[..|ps| - 1]), ps[|ps| - 1])
  }

  /** The indices below `n`. */
  function Below(n: nat): (r: set<nat>)
    ensures forall i: nat :: i in r <==> i < n
  {
    if n == 0 then {} else Below(n - 1) + {n - 1}
  }

  /** Some element of a non-empty set of indices. */
  ghost function PickIndex(idx: set<nat>): (i: nat)
    requires idx != {}
    ensures i in idx
  {
    var i :| i in idx; i
  }

  /** The merge of the tables `ps[i]` for the indices `i` in `idx`, taken in no fixed order. */
  ghost function MergeOver(ps: seq<CharMap>, idx: set<nat>): CharMap
    requires forall i :: i in idx ==> i < |ps|
    decreases idx
  {
    if idx == {} then map[] else var i := PickIndex(idx); Merge(MergeOver(ps, idx - {i}), ps[i])
  }

  /**
   * Order independence: whichever table is merged last, the result is the same.
   * This is why the order in which partial tables arrive cannot change the result.
   */
  lemma {:induction false} MergeOverAny(ps: seq<CharMap>, idx: set<nat>, j: nat)
    requires forall i :: i in idx ==> i < |ps|
    requires j in idx
    ensures MergeOver(ps, idx) == Merge(MergeOver(ps, idx - {j}), ps[j])
    decreases idx
  {
    var i := PickIndex(idx);
    if i != j {
      MergeOverAny(ps, idx - {i}, j);
      MergeOverAny(ps, idx - {j}, i);
      assert idx - {i} - {j} == idx - {j} - {i};
      var rest := MergeOver(ps, idx - {i} - {j});
      MergeAssociative(rest, ps[j], ps[i]);
      MergeAssociative(rest, ps[i], ps[j]);
      MergeCommutative(ps[i], ps[j]);
    }
  }

  /** Merging all tables in any order gives the left-to-right merge. */
  lemma {:induction false} MergeOverAll(ps: seq<CharMap>, n: nat)
    requires n <= |ps|
    ensures MergeOver(ps, Below(n)) == MergeAll(ps[..n])
  {
    if n > 0 {
      MergeOverAll(ps, n - 1);
      MergeOverAny(ps, Below(n), n - 1);
      assert Below(n) - {n - 1} == Below(n - 1);
      assert ps[..n][..n - 1] == ps[..n - 1];
    }
  }

}
