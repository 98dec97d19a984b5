/**
 * The browser build: `Text::process` cuts the input's bytes into fixed-size
 * chunks, keeps the chunks that are well-formed UTF-8, and lets a rayon pool
 * fold every character of them into partial tables that `reduce_with` merges.
 * The pool, the promise and the hand-off to the caller are not modelled; the
 * shape rayon gives to the fold and the reduction is a parameter (`Plan`).
 */
module Wasm {
  import opened Options
  import opened CharMaps
  import opened Tallies
  import opened Chunking
  import Threaded
  import opened Utf8

  /**
   * lib.rs's `frequency_in_string`, with the same body as the native one, with the
   * same guarantees: alphabetic characters only, counted under their lower-case form.
   */
  method FrequencyInString(alpha: char -> bool, input: string) returns (m: CharMap)
    ensures m == Threaded.Frequency(alpha, input)
    ensures Total(m) == |Threaded.Letters(alpha, input)|
    ensures Threaded.IsAlphabeticModel(alpha) ==> forall k :: k in m ==> alpha(k) && !Threaded.IsAsciiUpper(k)
  {
    m := Threaded.FrequencyInString(alpha, input);
    Threaded.FrequencyTotal(alpha, input);
    KeysWhenAlphabetic(alpha, input);
  }

  lemma KeysWhenAlphabetic(alpha: char -> bool, s: string)
    ensures Threaded.IsAlphabeticModel(alpha) ==>
      forall k :: k in Threaded.Frequency(alpha, s) ==> alpha(k) && !Threaded.IsAsciiUpper(k)
  {
    if Threaded.IsAlphabeticModel(alpha) {
      Threaded.FrequencyKeys(alpha, s);
    }
  }

  /** The fold counts every character under itself: no filter, no case folding. */
  const EveryChar: KeyFn := c => Some(c)

  /** The table the fold builds from `s`. */
  function CharCount(s: string): (r: CharMap)
    ensures Positive(r)
    ensures s == [] ==> r == map[]
  {
    Tally(EveryChar, s)
  }

  /** Each character counts once under itself: the table is the multiset of the characters. */
  lemma CharCountMultiplicity(s: string, c: char)
    ensures Get(CharCount(s), c) == multiset(s)[c]
    ensures c in CharCount(s) <==> c in s
  {
    TallyOccurrences(EveryChar, s, c);
    OccurrencesMultiplicity(s, c);
  }

  lemma {:induction false} OccurrencesMultiplicity(s: string, c: char)
    ensures Occurrences(EveryChar, s, c) == multiset(s)[c]
  {
    if s != [] {
      assert s == [s[0]] + s[1..];
      OccurrencesMultiplicity(s[1..], c);
    }
  }

  /** The counts of the fold add up to the number of characters folded. */
  lemma CharCountTotal(s: string)
    ensures Total(CharCount(s)) == |s|
  {
    TallyTotal(EveryChar, s);
    EveryCharCounted(s);
  }

  lemma {:induction false} EveryCharCounted(s: string)
    ensures Counted(EveryChar, s) == |s|
  {
    if s != [] {
      EveryCharCounted(s[1..]);
    }
  }

  /**
   * `input.as_bytes().chunks(len)` with `len = (input.len() / concurrency).max(1)`,
   * where `input.len()` is the length in bytes.
   */
  function ByteChunks(input: string, concurrency: nat): (r: seq<seq<byte>>)
    requires concurrency >= 1
    ensures Concat(r) == Encode(input)
    ensures forall i :: 0 <= i < |r| ==> 1 <= |r[i]| <= ChunkLength(|Encode(input)|, concurrency)
    ensures forall i :: 0 <= i < |r| - 1 ==> |r[i]| == ChunkLength(|Encode(input)|, concurrency)
  {
    var bytes := Encode(input);
    Chunks(bytes, ChunkLength(|bytes|, concurrency))
  }

  /** The chunks that are well-formed UTF-8, in order. */
  function ValidOnly(chunks: seq<seq<byte>>): seq<seq<byte>>
  {
    if chunks == [] then []
    else (if IsValid(chunks[0]) then [chunks[0]] else []) + ValidOnly(chunks[1..])
  }

  /**
   * `.flat_map(|chunk| String::from_utf8(chunk.to_vec()))`: a chunk is kept
   * exactly when it is well-formed, and then as the string it encodes; a chunk
   * that is not is dropped whole.
   */
  function KeepDecoded(chunks: seq<seq<byte>>): (r: seq<string>)
    ensures |r| == |ValidOnly(chunks)|
    ensures forall i :: 0 <= i < |r| ==> Encode(r[i]) == ValidOnly(chunks)[i]
  {
    if chunks == [] then []
    else
      var rest := KeepDecoded(chunks[1..]);
      match Decode(chunks[0])
      case None => rest
      case Some(s) =>
        EncodeDecode(chunks[0]);
        [s] + rest
  }

  /** The strings handed to the pool. */
  function Retained(input: string, concurrency: nat): (r: seq<string>)
    requires concurrency >= 1
    ensures |r| == |ValidOnly(ByteChunks(input, concurrency))|
    ensures forall i :: 0 <= i < |r| ==> Encode(r[i]) == ValidOnly(ByteChunks(input, concurrency))[i]
    ensures input == [] ==> r == []
  {
    KeepDecoded(ByteChunks(input, concurrency))
  }

  lemma ConcatSingle<T>(x: seq<T>, rest: seq<seq<T>>)
    ensures Concat([x] + rest) == x + Concat(rest)
  {
    ConcatAppend([x], rest);
    assert Concat([x]) == Concat([x][..0]) + x;
  }

  /** The kept strings encode back to the kept chunks, byte for byte. */
  lemma {:induction false} KeptEncoding(chunks: seq<seq<byte>>)
    ensures Encode(Concat(KeepDecoded(chunks))) == Concat(ValidOnly(chunks))
  {
    if chunks != [] {
      KeptEncoding(chunks[1..]);
      var rest := KeepDecoded(chunks[1..]);
      if IsValid(chunks[0]) {
        var s := Decode(chunks[0]).value;
        EncodeDecode(chunks[0]);
        ConcatSingle(s, rest);
        EncodeAppend(s, Concat(rest));
        ConcatSingle(chunks[0], ValidOnly(chunks[1..]));
      } else {
        assert ValidOnly(chunks) == ValidOnly(chunks[1..]);
      }
    }
  }

  lemma {:induction false} ValidOnlyAll(chunks: seq<seq<byte>>)
    requires forall i :: 0 <= i < |chunks| ==> IsValid(chunks[i])
    ensures ValidOnly(chunks) == chunks
  {
    if chunks != [] {
      ValidOnlyAll(chunks[1..]);
    }
  }

  /** When no chunk boundary falls inside a character, nothing is lost: the kept strings are the input. */
  lemma LosesNothingWhenAligned(input: string, concurrency: nat)
    requires concurrency >= 1
    requires forall i :: 0 <= i < |ByteChunks(input, concurrency)| ==> IsValid(ByteChunks(input, concurrency)[i])
    ensures Concat(Retained(input, concurrency)) == input
  {
    var chunks := ByteChunks(input, concurrency);
    KeptEncoding(chunks);
    ValidOnlyAll(chunks);
    EncodeInjective(Concat(Retained(input, concurrency)), input);
  }

  /** `a` is `b` with some elements left out; the rest keep their order. */
  predicate IsSubsequence(a: string, b: string)
    decreases |b|
  {
    if a == [] then true
    else if b == [] then false
    else (a[0] == b[0] && IsSubsequence(a[1..], b[1..])) || IsSubsequence(a, b[1..])
  }

  lemma {:induction false} SubsequenceWiden(a: string, x: string, b: string)
    requires IsSubsequence(a, b)
    ensures IsSubsequence(a, x + b)
    decreases |x|
  {
    if x == [] {
      assert x + b == b;
    } else if a != [] {
      SubsequenceWiden(a, x[1..], b);
      assert (x + b)[1..] == x[1..] + b;
    }
  }

  lemma {:induction false} SubsequenceExtend(u: string, a: string, b: string)
    requires IsSubsequence(a, b)
    ensures IsSubsequence(u + a, u + b)
    decreases |u|
  {
    if u == [] {
      assert u + a == a && u + b == b;
    } else {
      SubsequenceExtend(u[1..], a, b);
      assert (u + a)[0] == (u + b)[0];
      assert (u + a)[1..] == u[1..] + a;
      assert (u + b)[1..] == u[1..] + b;
    }
  }

  lemma {:induction false} SubsequenceMultiset(a: string, b: string)
    requires IsSubsequence(a, b)
    ensures multiset(a) <= multiset(b)
    decreases |b|
  {
    if a != [] {
      assert b == [b[0]] + b[1..];
      if a[0] == b[0] && IsSubsequence(a[1..], b[1..]) {
        SubsequenceMultiset(a[1..], b[1..]);
        assert a == [a[0]] + a[1..];
      } else {
        SubsequenceMultiset(a, b[1..]);
      }
    }
  }

  /**
   * A well-formed chunk cut from the encoding of `t` at byte offset `p` cannot
   * start inside a character (it would start with a continuation byte), so it
   * starts where a character does and decodes to the characters it covers.
   */
  lemma ValidChunkCovers(t: string, p: nat, c0: seq<byte>)
    requires p + |c0| <= |Encode(t)| && c0 == Encode(t)[p..p + |c0|]
    requires c0 != [] && IsValid(c0)
    ensures CharsBefore(t, p) + |Decode(c0).value| <= |t|
    ensures Decode(c0).value == t[CharsBefore(t, p)..CharsBefore(t, p) + |Decode(c0).value|]
    ensures CharsBefore(t, p + |c0|) == CharsBefore(t, p) + |Decode(c0).value|
  {
    var k := CharsBefore(t, p);
    DecodeCharLength(c0);
    StartsAtCharacter(t, p);
    DecodeAtCharacter(t, k, c0);
    var u := Decode(c0).value;
    CharsBeforeOffset(t, k + |u|);
  }

  /**
   * The kept text, front to back: what each chunk contributes, concatenated.
   * It is `Concat(KeepDecoded(chunks))` (`KeptTextConcat`), written so that it
   * unfolds at the front chunk, which is where the induction of
   * `KeptSubsequence` takes its step.
   */
  function KeptText(chunks: seq<seq<byte>>): string
  {
    if chunks == [] then []
    else (if IsValid(chunks[0]) then Decode(chunks[0]).value else []) + KeptText(chunks[1..])
  }

  lemma {:induction false} KeptTextConcat(chunks: seq<seq<byte>>)
    ensures KeptText(chunks) == Concat(KeepDecoded(chunks))
  {
    if chunks != [] {
      KeptTextConcat(chunks[1..]);
      if IsValid(chunks[0]) {
        ConcatSingle(Decode(chunks[0]).value, KeepDecoded(chunks[1..]));
      }
    }
  }

  lemma SubsequenceOfSuffix(a: string, t: string, k: nat, k': nat)
    requires k <= k' <= |t| && IsSubsequence(a, t[k'..])
    ensures IsSubsequence(a, t[k..])
  {
    assert t[k..] == t[k..k'] + t[k'..];
    SubsequenceWiden(a, t[k..k'], t[k'..]);
  }

  /** The first chunk of those covering the bytes of `t` from `p` on covers the bytes from `p` to its length. */
  lemma FrontChunk(t: string, p: nat, chunks: seq<seq<byte>>)
    requires chunks != [] && p <= |Encode(t)| && Concat(chunks) == Encode(t)[p..]
    ensures p + |chunks[0]| <= |Encode(t)|
    ensures chunks[0] == Encode(t)[p..p + |chunks[0]|]
    ensures Concat(chunks[1..]) == Encode(t)[p + |chunks[0]|..]
  {
    assert chunks == [chunks[0]] + chunks[1..];
    ConcatSingle(chunks[0], chunks[1..]);
  }

  /** A well-formed chunk at offset `p` puts the characters it covers in front of what follows. */
  lemma KeptValidStep(t: string, p: nat, c0: seq<byte>, later: string)
    requires p + |c0| <= |Encode(t)| && c0 == Encode(t)[p..p + |c0|]
    requires c0 != [] && IsValid(c0)
    requires IsSubsequence(later, t[CharsBefore(t, p + |c0|)..])
    ensures IsSubsequence(Decode(c0).value + later, t[CharsBefore(t, p)..])
  {
    var u := Decode(c0).value;
    var k, k' := CharsBefore(t, p), CharsBefore(t, p + |c0|);
    assert t[k..] == u + t[k'..] by {
      ValidChunkCovers(t, p, c0);
    }
    SubsequenceExtend(u, later, t[k'..]);
  }

  /** Skipping the bytes from `p` to `q` skips the characters that start there. */
  lemma KeptInvalidStep(t: string, p: nat, q: nat, later: string)
    requires p <= q
    requires IsSubsequence(later, t[CharsBefore(t, q)..])
    ensures IsSubsequence(later, t[CharsBefore(t, p)..])
  {
    CharsBeforeMonotonic(t, p, q);
    SubsequenceOfSuffix(later, t, CharsBefore(t, p), CharsBefore(t, q));
  }

  /**
   * Chunks cut from the encoding of `t`, starting at byte offset `p`: the text
   * they keep is a subsequence of the characters of `t` from offset `p` on. A
   * well-formed chunk contributes the characters it covers; an ill-formed one
   * contributes nothing, and the characters it covers are skipped.
   */
  lemma {:induction false} KeptSubsequence(t: string, p: nat, chunks: seq<seq<byte>>)
    requires p <= |Encode(t)| && Concat(chunks) == Encode(t)[p..]
    requires forall i :: 0 <= i < |chunks| ==> chunks[i] != []
    ensures IsSubsequence(KeptText(chunks), t[CharsBefore(t, p)..])
    decreases |chunks|
  {
    if chunks != [] {
      var c0, later := chunks[0], KeptText(chunks[1..]);
      FrontChunk(t, p, chunks);
      KeptSubsequence(t, p + |c0|, chunks[1..]);
      if IsValid(c0) {
        KeptValidStep(t, p, c0, later);
        assert KeptText(chunks) == Decode(c0).value + later;
      } else {
        KeptInvalidStep(t, p, p + |c0|, later);
        assert KeptText(chunks) == [] + later == later;
      }
    }
  }

  /**
   * What the pool receives is the input with some characters left out: dropping
   * a chunk loses characters but never invents or reorders them.
   */
  lemma RetainedSubsequence(input: string, concurrency: nat)
    requires concurrency >= 1
    ensures IsSubsequence(Concat(Retained(input, concurrency)), input)
  {
    KeptSubsequence(input, 0, ByteChunks(input, concurrency));
    KeptTextConcat(ByteChunks(input, concurrency));
  }

  /** So no character is counted more often than it occurs in the input. */
  lemma RetainedCountsBounded(input: string, concurrency: nat)
    requires concurrency >= 1
    ensures forall c :: Get(CharCount(Concat(Retained(input, concurrency))), c) <= Get(CharCount(input), c)
  {
    var kept := Concat(Retained(input, concurrency));
    RetainedSubsequence(input, concurrency);
    SubsequenceMultiset(kept, input);
    forall c
      ensures Get(CharCount(kept), c) <= Get(CharCount(input), c)
    {
      CharCountMultiplicity(kept, c);
      CharCountMultiplicity(input, c);
    }
  }

  lemma {:induction false} AsciiPieces(chunks: seq<seq<byte>>)
    requires IsAsciiBytes(Concat(chunks))
    ensures forall i :: 0 <= i < |chunks| ==> IsAsciiBytes(chunks[i])
  {
    if chunks != [] {
      var n := |chunks| - 1;
      assert Concat(chunks) == Concat(chunks[..n]) + chunks[n];
      assert IsAsciiBytes(Concat(chunks[..n])) by {
        forall i | 0 <= i < |Concat(chunks[..n])|
          ensures Concat(chunks[..n])[i] < 0x80
        {
          assert Concat(chunks)[i] == Concat(chunks[..n])[i];
        }
      }
      AsciiPieces(chunks[..n]);
      forall i | 0 <= i < |chunks[n]|
        ensures chunks[n][i] < 0x80
      {
        assert Concat(chunks)[|Concat(chunks[..n])| + i] == chunks[n][i];
      }
      forall i | 0 <= i < |chunks|
        ensures IsAsciiBytes(chunks[i])
      {
        if i < n {
          assert chunks[..n][i] == chunks[i];
        }
      }
    }
  }

  /** For ASCII input every chunk is well-formed, so no chunk is dropped and nothing is lost. */
  lemma AsciiLosesNothing(input: string, concurrency: nat)
    requires concurrency >= 1
    requires IsAscii(input)
    ensures ValidOnly(ByteChunks(input, concurrency)) == ByteChunks(input, concurrency)
    ensures Concat(Retained(input, concurrency)) == input
  {
    var chunks := ByteChunks(input, concurrency);
    AsciiEncode(input);
    AsciiPieces(chunks);
    forall i | 0 <= i < |chunks|
      ensures IsValid(chunks[i])
    {
      AsciiBytesValid(chunks[i]);
    }
    ValidOnlyAll(chunks);
    LosesNothingWhenAligned(input, concurrency);
  }

  /** With one worker the whole input is one chunk (none for the empty input), kept as it is. */
  lemma SingleWorker(input: string)
    ensures Retained(input, 1) == if input == [] then [] else [input]
  {
    var bytes := Encode(input);
    DecodeEncode(input);
    if input == [] {
      assert bytes == [];
    } else {
      assert bytes != [] by {
        assert |EncodeChar(input[0])| >= 1;
      }
      assert ByteChunks(input, 1) == [bytes];
    }
  }

  /**
   * A chunk boundary inside a character drops the whole chunk: "aé" (bytes
   * 61 C3 A9) with three workers is cut into single bytes, and only "a" survives.
   */
  lemma SplitCharacterDropsChunk()
    ensures Retained(['a', 0xE9 as char], 3) == ["a"]
  {
    var input := ['a', 0xE9 as char];
    var chunks := ByteChunks(input, 3);
    assert chunks == [[0x61], [0xC3], [0xA9]] by {
      var b: seq<byte> := [0x61, 0xC3, 0xA9];
      EncodeExample();
      assert ChunkLength(3, 3) == 1;
      SingleByteChunks(b);
    }
    DecodeExamples();
    assert chunks[1..] == [[0xC3], [0xA9]] && chunks[1..][1..] == [[0xA9]];
  }

  /**
   * "é" with concurrency 2 is cut between its two bytes; neither decodes, so
   * nothing is retained and `process` counts an empty table.
   */
  lemma SplitOnlyCharacter()
    ensures Retained([0xE9 as char], 2) == []
  {
    var input := [0xE9 as char];
    var chunks := ByteChunks(input, 2);
    assert chunks == [[0xC3], [0xA9]] by {
      var b: seq<byte> := [0xC3, 0xA9];
      assert EncodeChar(0xE9 as char) == [0xC3, 0xA9];
      assert input[1..] == [] && Encode(input[1..]) == [];
      assert Encode(input) == b;
      assert ChunkLength(2, 2) == 1;
      assert b[..1] == [0xC3] && b[1..] == [0xA9];
      assert Chunks(b[1..], 1) == [[0xA9]];
      assert Chunks(b, 1) == [[0xC3]] + [[0xA9]];
    }
    DecodeExamples();
    assert chunks[1..] == [chunks[1]];
  }

  lemma DecodeExamples()
    ensures Decode([0x61]) == Some("a") && !IsValid([0xC3]) && !IsValid([0xA9])
  {
    var one: seq<byte> := [0x61];
    assert DecodeChar(one) == Some(('a', 1));
    assert one[1..] == [];
    assert Decode(one[1..]) == Some([]);
    assert Decode(one) == Some(['a'] + []);
    assert ['a'] + [] == "a";
  }

  lemma EncodeExample()
    ensures Encode(['a', 0xE9 as char]) == [0x61, 0xC3, 0xA9]
  {
    var input := ['a', 0xE9 as char];
    assert EncodeChar('a') == [0x61];
    assert EncodeChar(0xE9 as char) == [0xC3, 0xA9];
    assert input[1..] == [0xE9 as char] && input[1..][1..] == [];
    assert Encode(input[1..]) == [0xC3, 0xA9] + Encode([]);
  }

  lemma SingleByteChunks(b: seq<byte>)
    requires |b| == 3
    ensures Chunks(b, 1) == [[b[0]], [b[1]], [b[2]]]
  {
    assert b[..1] == [b[0]] && b[1..][..1] == [b[1]] && b[1..][1..] == [b[2]];
    assert Chunks(b[1..][1..], 1) == [[b[2]]];
    assert Chunks(b[1..], 1) == [[b[1]], [b[2]]];
  }

  /** The fold closure: every character of one chunk adds 1 to its own key. */
  method FoldChunk(acc: CharMap, chunk: string) returns (r: CharMap)
    ensures r == Merge(acc, CharCount(chunk))
  {
    r := acc;
    MergeEmpty(acc);
    for i := 0 to |chunk|
      invariant r == Merge(acc, CharCount(chunk[..i]))
    {
      assert chunk[..i + 1][..i] == chunk[..i];
      MergeAddTo(acc, CharCount(chunk[..i]), chunk[i], 1);
      r := AddTo(r, chunk[i], 1);
    }
    assert chunk[..|chunk|] == chunk;
  }

  /** One fold accumulator: `CharMap::new()` folded over a run of consecutive chunks. */
  method FoldPiece(chunks: seq<string>) returns (acc: CharMap)
    ensures acc == CharCount(Concat(chunks))
  {
    acc := map[];
    for i := 0 to |chunks|
      invariant acc == CharCount(Concat(chunks[..i]))
    {
      assert chunks[..i + 1][..i] == chunks[..i];
      TallyAppend(EveryChar, Concat(chunks[..i]), chunks[i]);
      acc := FoldChunk(acc, chunks[i]);
    }
    assert chunks[..|chunks|] == chunks;
  }

  /**
   * How rayon divides the chunks: a piece is folded into one accumulator; a
   * split cuts the chunks at `at` and treats the two sides independently.
   */
  datatype Plan = Piece | Split(at: nat, left: Plan, right: Plan)

  /**
   * `.fold(CharMap::new, …).reduce_with(…)` along `plan`. Every piece, an empty
   * one included, hands on the accumulator it folded from `CharMap::new()`, so
   * `reduce_with` always sees at least one item; the results of the two sides of
   * a split are merged with the reduce closure.
   */
  method FoldReduce(plan: Plan, chunks: seq<string>) returns (r: Option<CharMap>)
    ensures r == Some(CharCount(Concat(chunks)))
    decreases plan
  {
    match plan
    case Piece =>
      var acc := FoldPiece(chunks);
      r := Some(acc);
    case Split(at, left, right) =>
      var k := if at < |chunks| then at else |chunks|;
      assert chunks == chunks[..k] + chunks[k..];
      ConcatAppend(chunks[..k], chunks[k..]);
      TallyAppend(EveryChar, Concat(chunks[..k]), Concat(chunks[k..]));
      var a := FoldReduce(left, chunks[..k]);
      var b := FoldReduce(right, chunks[k..]);
      var m := MergeInto(a.value, b.value);
      r := Some(m);
  }

  /** The exported `Text`; `process` never reads `inner`. */
  datatype Text = Text(inner: string)
  {
    /**
     * The sequential effect of `Text::process`: chunk, keep what decodes, fold
     * and reduce along `plan`, unwrap. The unwrap cannot fail. The table depends
     * on `input` and `concurrency` only, not on `plan` and not on `inner`.
     */
    method Process(concurrency: nat, input: string, plan: Plan) returns (counts: CharMap)
      requires concurrency >= 1
      ensures counts == CharCount(Concat(Retained(input, concurrency)))
      ensures Total(counts) == |Concat(Retained(input, concurrency))|
      ensures forall c :: Get(counts, c) <= Get(CharCount(input), c)
      ensures Retained(input, concurrency) == [] ==> counts == map[]
      ensures IsAscii(input) ==> counts == CharCount(input)
    {
      var bytes := Encode(input);
      var chunkies := KeepDecoded(Chunks(bytes, ChunkLength(|bytes|, concurrency)));
      var reduced := FoldReduce(plan, chunkies);
      if IsAscii(input) {
        AsciiLosesNothing(input, concurrency);
      }
      RetainedCountsBounded(input, concurrency);
      CharCountTotal(Concat(chunkies));
      counts := reduced.value;
    }
  }

}
