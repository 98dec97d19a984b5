/**
 * Keyed tallies of a string. A key function says, for each character, which
 * table key it is counted under, or that it is not counted. Both counting
 * loops of the program are tallies: letters folded to lower case in the
 * native strategies, and every character as it is in the browser fold.
 */
module Tallies {
  import opened Options
  import opened CharMaps
  import opened Chunking

  type KeyFn = char -> Option<char>

  /** The table obtained by walking `s` left to right and adding 1 under `key(c)` for each counted `c`. */
  function Tally(key: KeyFn, s: string): (r: CharMap)
    ensures Positive(r)
    decreases |s|
  {
    if s == [] then map[]
    else
      var r0 := Tally(key, s[..|s| - 1]);
      match key(s[|s| - 1])
      case None => r0
      case Some(k) => AddTo(r0, k, 1)
  }

  /** How many characters of `s` are counted under `k` (a reference definition, walking from the front). */
  function Occurrences(key: KeyFn, s: string, k: char): nat
  {
    if s == [] then 0 else (if key(s[0]) == Some(k) then 1 else 0) + Occurrences(key, s[1..], k)
  }

  /** How many characters of `s` are counted at all. */
  function Counted(key: KeyFn, s: string): nat
  {
    if s == [] then 0 else (if key(s[0]).Some? then 1 else 0) + Counted(key, s[1..])
  }

  lemma {:induction false} OccurrencesAppend(key: KeyFn, a: string, b: string, k: char)
    ensures Occurrences(key, a + b, k) == Occurrences(key, a, k) + Occurrences(key, b, k)
  {
    if a == [] {
      assert a + b == b;
    } else {
      assert (a + b)[1..] == a[1..] + b;
      OccurrencesAppend(key, a[1..], b, k);
    }
  }

  lemma {:induction false} CountedAppend(key: KeyFn, a: string, b: string)
    ensures Counted(key, a + b) == Counted(key, a) + Counted(key, b)
  {
    if a == [] {
      assert a + b == b;
    } else {
      assert (a + b)[1..] == a[1..] + b;
      CountedAppend(key, a[1..], b);
    }
  }

  /** Each counted character adds exactly 1 under its key: the table holds the occurrence counts. */
  lemma {:induction false} TallyOccurrences(key: KeyFn, s: string, k: char)
    ensures Get(Tally(key, s), k) == Occurrences(key, s, k)
    ensures k in Tally(key, s) <==> Occurrences(key, s, k) > 0
    decreases |s|
  {
    if s != [] {
      var init, c := s[..|s| - 1], s[|s| - 1];
      assert s == init + [c];
      TallyOccurrences(key, init, k);
      OccurrencesAppend(key, init, [c], k);
      assert [c][1..] == [];
    }
  }

  /** Every key of the table is the key of some character of `s`. */
  lemma {:induction false} TallyKeySource(key: KeyFn, s: string, k: char)
    requires k in Tally(key, s)
    ensures exists i :: 0 <= i < |s| && key(s[i]) == Some(k)
    decreases |s|
  {
    var init, c := s[..|s| - 1], s[|s| - 1];
    if key(c) != Some(k) {
      TallyKeySource(key, init, k);
      var i :| 0 <= i < |init| && key(init[i]) == Some(k);
      assert s[i] == init[i];
    }
  }

  /** The sum of the counts is the number of counted characters. */
  lemma {:induction false} TallyTotal(key: KeyFn, s: string)
    ensures Total(Tally(key, s)) == Counted(key, s)
    decreases |s|
  {
    if s == [] {
      assert Tally(key, s) == map[];
    } else {
      var init, c := s[..|s| - 1], s[|s| - 1];
      assert s == init + [c];
      TallyTotal(key, init);
      CountedAppend(key, init, [c]);
      assert [c][1..] == [];
      if key(c).Some? {
        TotalAddTo(Tally(key, init), key(c).value, 1);
      }
    }
  }

  /** Partition invariance of one cut: counting a concatenation is merging the counts of its parts. */
  lemma TallyAppend(key: KeyFn, a: string, b: string)
    ensures Tally(key, a + b) == Merge(Tally(key, a), Tally(key, b))
  {
    var whole, m := Tally(key, a + b), Merge(Tally(key, a), Tally(key, b));
    forall k
      ensures Get(whole, k) == Get(m, k)
      ensures k in whole <==> k in m
    {
      TallyOccurrences(key, a + b, k);
      TallyOccurrences(key, a, k);
      TallyOccurrences(key, b, k);
      OccurrencesAppend(key, a, b, k);
    }
    Extensional(whole, m);
  }

  /** Merging the tallies of the parts, left to right, is the tally of their concatenation. */
  lemma {:induction false} MergeAllTallies(key: KeyFn, ps: seq<CharMap>, parts: seq<string>)
    requires |ps| == |parts|
    requires forall i :: 0 <= i < |ps| ==> ps[i] == Tally(key, parts[i])
    ensures MergeAll(ps) == Tally(key, Concat(parts))
  {
    if ps != [] {
      var n := |ps| - 1;
      MergeAllTallies(key, ps[..n], parts[..n]);
      TallyAppend(key, Concat(parts[..n]), parts[n]);
    }
  }

}
