/** Cutting a sequence into fixed-size pieces (`slice::chunks`) and joining pieces back. */
module Chunking {

  /** The concatenation of a sequence of pieces (`join("")` on strings). */
  function Concat<T>(xss: seq<seq<T>>): seq<T>
  {
    if xss == [] then [] else Concat(xss[..|xss| - 1]) + xss[|xss| - 1]
  }

  lemma {:induction false} ConcatAppend<T>(a: seq<seq<T>>, b: seq<seq<T>>)
    ensures Concat(a + b) == Concat(a) + Concat(b)
    decreases |b|
  {
    if b == [] {
      assert a + b == a;
    } else {
      var n := |b| - 1;
      assert (a + b)[..|a + b| - 1] == a + b[..n];
      ConcatAppend(a, b[..n]);
    }
  }

  /** Joining each group and then the results is joining everything at once. */
  lemma {:induction false} ConcatOfJoins<T>(groups: seq<seq<seq<T>>>, joined: seq<seq<T>>)
    requires |joined| == |groups|
    requires forall i :: 0 <= i < |groups| ==> joined[i] == Concat(groups[i])
    ensures Concat(joined) == Concat(Concat(groups))
  {
    if groups != [] {
      var n := |groups| - 1;
      ConcatOfJoins(groups[..n], joined[..n]);
      ConcatAppend(Concat(groups[..n]), groups[n]);
    }
  }

  /**
   * The piece length `(len / workers).max(1)` that both programs use. The
   * division panics on zero workers, so at least one is required.
   */
  function ChunkLength(len: nat, workers: nat): (n: nat)
    requires workers >= 1
    ensures n >= 1
    ensures len < workers ==> n == 1
    ensures len >= workers ==> n * workers <= len < (n + 1) * workers
  {
    var q := len / workers;
    if q >= 1 then q else 1
  }

  /**
   * `s.chunks(n)`: consecutive pieces of length `n`, the last one possibly
   * shorter; no piece is empty, so an empty `s` gives no pieces at all.
   */
  function Chunks<T>(s: seq<T>, n: nat): (r: seq<seq<T>>)
    requires n >= 1
    ensures Concat(r) == s
    ensures forall i :: 0 <= i < |r| ==> 1 <= |r[i]| <= n
    ensures forall i :: 0 <= i < |r| - 1 ==> |r[i]| == n
    ensures r == [] <==> s == []
    decreases |s|
  {
    if s == [] then []
    else if |s| <= n then
      assert Concat([s]) == Concat([s][..0]) + s;
      [s]
    else
      var rest := Chunks(s[n..], n);
      ConcatAppend([s[..n]], rest);
      assert Concat([s[..n]]) == Concat([s[..n]][..0]) + s[..n];
      [s[..n]] + rest
  }

  /** `s.chunks(n)` gives `ceil(|s| / n)` pieces. */
  lemma {:induction false} ChunkCount<T>(s: seq<T>, n: nat)
    requires n >= 1
    ensures s != [] ==> (|Chunks(s, n)| - 1) * n < |s| <= |Chunks(s, n)| * n
    decreases |s|
  {
    if |s| > n {
      var c' := |Chunks(s[n..], n)|;
      ChunkCount(s[n..], n);
      assert |Chunks(s, n)| == 1 + c';
      assert (1 + c') * n == n + c' * n;
    }
  }

  lemma MulMonotonic(a: int, b: int, n: nat)
    requires a <= b
    ensures a * n <= b * n
  {
    assert b * n - a * n == (b - a) * n;
  }

  lemma MulShift(a: int, n: int)
    ensures (a - 1) * n == a * n - n && (a + 1) * n == a * n + n
  {
  }

  lemma MulExpand(n: int, w: int)
    ensures (2 * w - 1) * n == n * w + w - 1 + (n - 1) * (w - 1)
  {
  }

  /** The arithmetic behind the bounds below, with `c` pieces of length `n` covering `len`. */
  lemma PieceCountArithmetic(len: nat, workers: nat, n: nat, c: nat)
    requires workers >= 1 && n >= 1
    requires n * workers <= len < (n + 1) * workers
    requires (c - 1) * n < len <= c * n
    ensures workers <= c < 2 * workers
  {
    MulShift(workers, n);
    MulShift(n, workers);
    if c < workers {
      MulMonotonic(c, workers - 1, n);
    }
    if c >= 2 * workers {
      MulMonotonic(2 * workers - 1, c - 1, n);
      MulExpand(n, workers);
      MulMonotonic(0, n - 1, workers - 1);
    }
  }

  /**
   * How many pieces `ChunkLength` gives: one per element when there are fewer
   * elements than workers, otherwise at least as many as workers but fewer
   * than twice as many.
   */
  lemma ChunkCountBounds<T>(s: seq<T>, workers: nat)
    requires workers >= 1
    ensures |s| < workers ==> |Chunks(s, ChunkLength(|s|, workers))| == |s|
    ensures |s| >= workers ==> workers <= |Chunks(s, ChunkLength(|s|, workers))| < 2 * workers
  {
    var n := ChunkLength(|s|, workers);
    var c := |Chunks(s, n)|;
    ChunkCount(s, n);
    if |s| < workers {
      assert n == 1;
      assert (c - 1) * 1 == c - 1 && c * 1 == c;
    } else {
      PieceCountArithmetic(|s|, workers, n, c);
    }
  }

}
