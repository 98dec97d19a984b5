/**
 * The native letter-frequency strategies: a sequential count and three
 * chunked ones (thread per chunk, channel fan-in, mutex accumulator). Each
 * thread is run as one step of a sequential loop; where the program lets the
 * scheduler decide the order, the loop takes the chunks in an arbitrary order.
 */
module Threaded {
  import opened Options
  import opened CharMaps
  import opened Tallies
  import opened Chunking

  predicate IsAsciiUpper(c: char)
  {
    'A' <= c <= 'Z'
  }

  predicate IsAsciiLetter(c: char)
  {
    'a' <= c <= 'z' || 'A' <= c <= 'Z'
  }

  /** `char::to_ascii_lowercase`: A–Z become a–z, every other character stays. */
  function AsciiLower(c: char): (r: char)
    ensures !IsAsciiUpper(r)
    ensures IsAsciiUpper(c) ==> IsAsciiLetter(r) && r as int == c as int + 32
    ensures !IsAsciiUpper(c) ==> r == c
  {
    if IsAsciiUpper(c) then (c as int + 32) as char else c
  }

  /**
   * What the model relies on about `char::is_alphabetic`, which is given as the
   * parameter `alpha`: on ASCII it holds exactly of the letters.
   */
  ghost predicate IsAlphabeticModel(alpha: char -> bool)
  {
    forall c: char :: c as int < 0x80 ==> (alpha(c) <==> IsAsciiLetter(c))
  }

  /** Characters kept by `.filter(|c| c.is_alphabetic())` are counted under `to_ascii_lowercase`. */
  function LetterKey(alpha: char -> bool): (key: KeyFn)
    ensures forall c :: key(c).Some? <==> alpha(c)
    ensures forall c :: alpha(c) ==> key(c) == Some(AsciiLower(c))
  {
    c => if alpha(c) then Some(AsciiLower(c)) else None
  }

  /** The table `frequency_in_string` builds for `s`. */
  function Frequency(alpha: char -> bool, s: string): (r: CharMap)
    ensures Positive(r)
    ensures s == [] ==> r == map[]
  {
    Tally(LetterKey(alpha), s)
  }

  /** The alphabetic characters of `s`, in order. */
  function Letters(alpha: char -> bool, s: string): string
  {
    if s == [] then [] else (if alpha(s[0]) then [s[0]] else []) + Letters(alpha, s[1..])
  }

  /** Every key is alphabetic and none is an upper-case ASCII letter. */
  lemma FrequencyKeys(alpha: char -> bool, s: string)
    requires IsAlphabeticModel(alpha)
    ensures forall k :: k in Frequency(alpha, s) ==> alpha(k) && !IsAsciiUpper(k)
  {
    forall k | k in Frequency(alpha, s)
      ensures alpha(k) && !IsAsciiUpper(k)
    {
      TallyKeySource(LetterKey(alpha), s, k);
      var i :| 0 <= i < |s| && LetterKey(alpha)(s[i]) == Some(k);
      assert alpha(s[i]) && k == AsciiLower(s[i]);
    }
  }

  /** The counts add up to the number of alphabetic characters. */
  lemma FrequencyTotal(alpha: char -> bool, s: string)
    ensures Total(Frequency(alpha, s)) == |Letters(alpha, s)|
  {
    TallyTotal(LetterKey(alpha), s);
    LettersCounted(alpha, s);
  }

  lemma {:induction false} LettersCounted(alpha: char -> bool, s: string)
    ensures Counted(LetterKey(alpha), s) == |Letters(alpha, s)|
  {
    if s != [] {
      LettersCounted(alpha, s[1..]);
    }
  }

  /** Upper and lower case are counted together: "AaBb" gives a: 2 and b: 2. */
  lemma CaseFolded(alpha: char -> bool)
    requires IsAlphabeticModel(alpha)
    ensures Frequency(alpha, "AaBb") == map['a' := 2, 'b' := 2]
  {
    assert alpha('A') && alpha('a') && alpha('B') && alpha('b') by {
      assert 'A' as int < 0x80 && 'a' as int < 0x80 && 'B' as int < 0x80 && 'b' as int < 0x80;
    }
    var key := LetterKey(alpha);
    var s := "AaBb";
    assert s[..3] == "AaB" && s[..3][..2] == "Aa" && s[..3][..2][..1] == "A" && s[..3][..2][..1][..0] == [];
    var m1 := Tally(key, "A");
    assert m1 == map['a' := 1];
    var m2 := Tally(key, "Aa");
    assert m2 == map['a' := 2];
    var m3 := Tally(key, "AaB");
    assert m3 == map['a' := 2, 'b' := 1];
  }

  /**
   * The number of chunks is not bounded by the worker count: five lines and
   * three workers give chunks of one line each, so five threads.
   */
  lemma MoreChunksThanWorkers(lines: seq<string>)
    requires |lines| == 5
    ensures |Chunks(lines, ChunkLength(|lines|, 3))| == 5
  {
    assert ChunkLength(5, 3) == 1;
    assert |Chunks(lines[4..], 1)| == 1;
    assert lines[3..][1..] == lines[4..];
    assert lines[2..][1..] == lines[3..];
    assert lines[1..][1..] == lines[2..];
    assert |Chunks(lines[3..], 1)| == 2;
    assert |Chunks(lines[2..], 1)| == 3;
    assert |Chunks(lines[1..], 1)| == 4;
  }

  /** `frequency_in_string`: the loop over the alphabetic characters of one string. */
  method FrequencyInString(alpha: char -> bool, input: string) returns (m: CharMap)
    ensures m == Frequency(alpha, input)
  {
    m := map[];
    for i := 0 to |input|
      invariant m == Frequency(alpha, input[..i])
    {
      var c := input[i];
      assert input[..i + 1][..i] == input[..i];
      if alpha(c) {
        m := AddTo(m, AsciiLower(c), 1);
      }
    }
    assert input[..|input|] == input;
  }

  /** `frequency_single_threaded`: one table over all lines, line after line. */
  method FrequencySingleThreaded(alpha: char -> bool, input: seq<string>) returns (m: CharMap)
    ensures m == Frequency(alpha, Concat(input))
  {
    m := map[];
    for i := 0 to |input|
      invariant m == Frequency(alpha, Concat(input[..i]))
    {
      var line := input[i];
      ghost var done := Concat(input[..i]);
      assert done + line[..0] == done;
      for j := 0 to |line|
        invariant m == Frequency(alpha, done + line[..j])
      {
        var c := line[j];
        assert (done + line[..j + 1])[..|done| + j] == done + line[..j];
        assert (done + line[..j + 1])[|done| + j] == c;
        if alpha(c) {
          m := AddTo(m, AsciiLower(c), 1);
        }
      }
      assert line[..|line|] == line;
      assert input[..i + 1][..i] == input[..i];
    }
    assert input[..|input|] == input;
  }

  /**
   * The chunks every strategy hands to its threads: `input.chunks(len)` with
   * `len = (input.len() / worker_count).max(1)`, each chunk joined into one string.
   */
  method JoinedChunks(input: seq<string>, workerCount: nat) returns (strings: seq<string>)
    requires workerCount >= 1
    ensures Concat(strings) == Concat(input)
    ensures |strings| == |Chunks(input, ChunkLength(|input|, workerCount))|
    ensures forall i :: 0 <= i < |strings| ==> strings[i] == Concat(Chunks(input, ChunkLength(|input|, workerCount))[i])
  {
    var chunks := Chunks(input, ChunkLength(|input|, workerCount));
    strings := [];
    for i := 0 to |chunks|
      invariant |strings| == i
      invariant forall j :: 0 <= j < i ==> strings[j] == Concat(chunks[j])
    {
      strings := strings + [Concat(chunks[i])];
    }
    ConcatOfJoins(chunks, strings);
  }

  /** Joining the handles in spawn order and merging each table into `result`: the left-to-right merge. */
  method JoinInOrder(handles: seq<CharMap>) returns (result: CharMap)
    ensures result == MergeAll(handles)
  {
    result := map[];
    for i := 0 to |handles|
      invariant result == MergeAll(handles[..i])
    {
      assert handles[..i + 1][..i] == handles[..i];
      result := MergeInto(result, handles[i]);
    }
    assert handles[..|handles|] == handles;
  }

  /** `frequency_multithreaded`: one thread per chunk, joined and merged in spawn order. */
  method FrequencyMultithreaded(alpha: char -> bool, input: seq<string>, workerCount: nat) returns (result: CharMap)
    requires workerCount >= 1
    ensures result == Frequency(alpha, Concat(input))
  {
    var strings := JoinedChunks(input, workerCount);
    var handles: seq<CharMap> := [];
    for i := 0 to |strings|
      invariant |handles| == i
      invariant forall j :: 0 <= j < i ==> handles[j] == Frequency(alpha, strings[j])
    {
      var m := FrequencyInString(alpha, strings[i]);
      handles := handles + [m];
    }
    result := JoinInOrder(handles);
    MergeAllTallies(LetterKey(alpha), handles, strings);
  }

  /**
   * `for received in receiver { … }`: the tables arrive in whatever order the
   * threads send them, and each is merged into the result as it arrives.
   */
  method ReceiveAll(sent: seq<CharMap>) returns (result: CharMap)
    ensures result == MergeAll(sent)
  {
    result := map[];
    var pending := Below(|sent|);
    ghost var received: set<nat> := {};
    while pending != {}
      invariant pending !! received && pending + received == Below(|sent|)
      invariant result == MergeOver(sent, received)
      decreases pending
    {
      var i :| i in pending;
      MergeOverAny(sent, received + {i}, i);
      assert received + {i} - {i} == received;
      result := MergeInto(result, sent[i]);
      pending, received := pending - {i}, received + {i};
    }
    MergeOverAll(sent, |sent|);
    assert sent[..|sent|] == sent;
  }

  /** `frequency_channels`: every thread sends its table; they are received in any order. */
  method FrequencyChannels(alpha: char -> bool, input: seq<string>, workerCount: nat) returns (result: CharMap)
    requires workerCount >= 1
    ensures result == Frequency(alpha, Concat(input))
  {
    var strings := JoinedChunks(input, workerCount);
    var sent: seq<CharMap> := [];
    for i := 0 to |strings|
      invariant |sent| == i
      invariant forall j :: 0 <= j < i ==> sent[j] == Frequency(alpha, strings[j])
    {
      var m := FrequencyInString(alpha, strings[i]);
      sent := sent + [m];
    }
    result := ReceiveAll(sent);
    MergeAllTallies(LetterKey(alpha), sent, strings);
  }

  /**
   * The threads of `frequency_mutex`: each counts its string and merges its table
   * into the shared one, in whatever order the threads take the lock.
   */
  method LockAndMerge(alpha: char -> bool, strings: seq<string>) returns (result: CharMap)
    ensures result == Frequency(alpha, Concat(strings))
  {
    result := map[];
    ghost var parts := seq(|strings|, j requires 0 <= j < |strings| => Frequency(alpha, strings[j]));
    var pending := Below(|strings|);
    ghost var finished: set<nat> := {};
    while pending != {}
      invariant pending !! finished && pending + finished == Below(|strings|)
      invariant result == MergeOver(parts, finished)
      decreases pending
    {
      var i :| i in pending;
      var m := FrequencyInString(alpha, strings[i]);
      assert MergeOver(parts, finished + {i}) == Merge(result, m) by {
        MergeOverAny(parts, finished + {i}, i);
        assert finished + {i} - {i} == finished;
      }
      result := MergeInto(result, m);
      pending, finished := pending - {i}, finished + {i};
    }
    assert MergeOver(parts, Below(|parts|)) == Frequency(alpha, Concat(strings)) by {
      MergeOverAll(parts, |parts|);
      assert parts[..|parts|] == parts;
      MergeAllTallies(LetterKey(alpha), parts, strings);
    }
  }

  /** `frequency_mutex`: one thread per chunk, all merging into one shared table. */
  method FrequencyMutex(alpha: char -> bool, input: seq<string>, workerCount: nat) returns (result: CharMap)
    requires workerCount >= 1
    ensures result == Frequency(alpha, Concat(input))
  {
    var strings := JoinedChunks(input, workerCount);
    result := LockAndMerge(alpha, strings);
  }

}
