# Letter-frequency counting: sequential, chunked and pooled

This project models the arithmetic underneath a Rust demonstration of
multithreading: counting how often each letter occurs in a text, either in one
pass or by cutting the text into chunks, counting each chunk separately and
merging the partial tables. The native program (`src/main.rs`) compares four
strategies: sequential, thread per chunk, channel fan-in and a mutex-guarded
accumulator. The browser build (`src/lib.rs`) cuts the text's UTF-8 bytes into
chunks, keeps the chunks that decode, and lets a rayon pool fold and reduce them.

The central result is partition invariance. Counting a concatenation is merging
the counts of its parts (`Tallies.TallyAppend`). The merge is commutative and
associative, and a set of partial tables merged in any order gives the same
table (`CharMaps.MergeOverAny`). So every chunked strategy returns exactly what
the sequential one returns, for any worker count of at least 1, whatever order
the threads finish in. For the browser path the result is the count over the
retained chunks, for any fold/reduce tree rayon picks. The retained text is
always the input with some characters left out, in their original order
(`Wasm.RetainedSubsequence`), so no character is ever counted more often than
it occurs. For ASCII input, or whenever no chunk boundary falls inside a
character, that count is the count of the whole input.

Modules, one per component:

- `Options` (`options.dfy`): the optional value.
- `CharMaps` (`char_maps.dfy`): `HashMap<char, usize>` as `map<char, nat>`. It has the `entry(k).or_default() += v` update, the key-by-key merge and the loop that performs it, the sum of counts, and merging over a set of indices in no fixed order.
- `Tallies` (`tallies.dfy`): counting a string under a key function. Each character is counted under the key the function gives it, or skipped. Both programs' counting loops are such tallies.
- `Chunking` (`chunking.dfy`): `slice::chunks`, joining, and the chunk length `(len / workers).max(1)`.
- `Threaded` (`threaded.dfy`): `src/main.rs`.
- `Utf8` (`utf8.dfy`): UTF-8 encoding and strict decoding (RFC 3629).
- `Wasm` (`wasm.dfy`): `src/lib.rs`.

Threads are modelled as sequential loops. Where the program leaves the order to
the scheduler, the loop picks the next chunk arbitrarily: which message the
channel delivers next, which thread takes the mutex next, and which key a
`HashMap` iteration yields next. `char::is_alphabetic` is a parameter `alpha`.
The only thing assumed about it (`Threaded.IsAlphabeticModel`) is that on ASCII
it holds exactly of the letters A–Z and a–z.

At the edges the code behaves as follows:

- Empty input gives no chunks at all: `slice::chunks` yields nothing.
- A worker count of 0 divides by zero, so every chunked operation requires at least one worker.
- The number of chunks can exceed the worker count (`Threaded.MoreChunksThanWorkers`). With at least as many elements as workers there are at least as many chunks as workers and fewer than twice as many (`Chunking.ChunkCountBounds`). With fewer elements, there is one chunk per element.
- In the browser path, a chunk whose byte boundary splits a character is dropped whole (`Wasm.SplitCharacterDropsChunk`), together with the complete characters it holds.
- The browser fold counts every character as it is, with neither an alphabetic filter nor lower-casing.
- Every piece of rayon's fold hands on an accumulator, an empty piece included, so `reduce_with` always yields a table and the `.unwrap()` at src/lib.rs:81 always succeeds. With no retained chunk, as for empty input or "é" with concurrency 2 (`Wasm.SplitOnlyCharacter`), the table sent is empty.

## Model

| member | source | states |
|---|---|---|
| `CharMaps.AddTo` | src/main.rs:9 | `*m.entry(k).or_default() += v`: the key is present afterwards, its count grows by `v` from 0 if it was missing, and every other count is unchanged |
| `CharMaps.Merge` | src/lib.rs:75-80 | merging two tables: the keys are the union, shared keys get the sum of their counts, keys in only one table keep their count |
| `CharMaps.MergeInto` | src/main.rs:38-40 | the merge loop, also at main.rs:61-63, main.rs:79-81 and lib.rs:76-78, visiting the partial table's keys in arbitrary order, yields exactly `Merge(result, partial)`; the partial table is a value and is not changed |
| `CharMaps.MergeCommutative` | src/main.rs:60-64 | merge order between two tables does not matter |
| `CharMaps.MergeAssociative` | src/lib.rs:75-81 | the grouping of merges does not matter |
| `CharMaps.MergeEmpty` | src/main.rs:26 | the fresh `HashMap::new()` is the identity of the merge on both sides |
| `CharMaps.TotalMerge` | src/lib.rs:75-80 | the sum of the counts of a merge is the sum of the two tables' sums |
| `CharMaps.MergeAll` | src/main.rs:36-41 | the tables merged left to right, in spawn order; every key of every part is a key of the result |
| `CharMaps.MergeOverAny` | src/main.rs:60-64 | for a set of partial tables merged in no fixed order, any one of them can be the last merged, and the result is the same |
| `CharMaps.MergeOverAll` | src/main.rs:60-64 | merging all partial tables in any order equals merging them left to right |
| `Tallies.Tally` | src/main.rs:7-10 | a tally never stores a zero count |
| `Tallies.TallyOccurrences` | src/main.rs:8-9 | each counted character adds exactly 1 under its key: the stored count of `k` is the number of characters counted under `k` (independent front-to-back definition), and `k` is a key exactly when that number is positive |
| `Tallies.TallyKeySource` | src/main.rs:8-9 | every key of a tally is the key of some character of the input |
| `Tallies.TallyTotal` | src/main.rs:8-9 | the counts add up to the number of counted characters |
| `Tallies.TallyAppend` | src/main.rs:25-43 | partition invariance of one cut: the tally of `a + b` is the merge of the tallies of `a` and `b` |
| `Tallies.MergeAllTallies` | src/main.rs:36-41 | merging the tallies of consecutive parts left to right is the tally of their concatenation |
| `Chunking.ChunkLength` | src/main.rs:27 | `(len / workers).max(1)`: at least 1; 1 when `len < workers`; otherwise the floor of `len / workers`, i.e. `n * workers <= len < (n + 1) * workers` |
| `Chunking.Chunks` | src/main.rs:27 | `slice::chunks(n)`: the pieces concatenate back to the input, none is empty, none is longer than `n`, all but the last have length exactly `n`, and there are none exactly when the input is empty |
| `Chunking.ChunkCount` | src/main.rs:27 | `s.chunks(n)` gives the ceiling of `len / n` pieces: `(count - 1) * n < len <= count * n` for non-empty input |
| `Chunking.ChunkCountBounds` | src/main.rs:27 | with the chunk length `(len / workers).max(1)`: exactly `len` pieces when `len < workers`, otherwise at least `workers` and fewer than `2 * workers` |
| `Chunking.Concat` | src/main.rs:31 | `join("")`: the pieces concatenated in order |
| `Chunking.ConcatAppend` | src/main.rs:31 | joining two runs of pieces one after the other is joining all of them |
| `Chunking.ConcatOfJoins` | src/main.rs:31 | joining every chunk's lines and then joining the results is joining all lines |
| `Threaded.LetterKey` | src/main.rs:8-9 | the key of a character: present exactly for alphabetic characters, and then the character lower-cased by `to_ascii_lowercase` |
| `Threaded.Frequency` | src/main.rs:6-12 | the table `frequency_in_string` builds: the tally under `LetterKey`; it never stores a zero count and is empty for empty input |
| `Threaded.AsciiLower` | src/main.rs:9 | `to_ascii_lowercase`: never returns A–Z, maps A–Z to the letter 32 code points above, leaves every other character alone |
| `Threaded.FrequencyKeys` | src/main.rs:8-9 | every key of `frequency_in_string`'s table is alphabetic and none is an ASCII upper-case letter |
| `Threaded.FrequencyTotal` | src/main.rs:8-9 | the counts add up to the number of alphabetic characters of the input |
| `Threaded.CaseFolded` | src/main.rs:8-9 | "AaBb" is counted as a: 2, b: 2 |
| `Threaded.MoreChunksThanWorkers` | src/main.rs:27 | five lines with three workers give five chunks, so more threads than workers |
| `Threaded.FrequencyInString` | src/main.rs:6-12 | the loop over the alphabetic characters builds exactly the letter tally of the string |
| `Threaded.FrequencySingleThreaded` | src/main.rs:14-23 | the nested loop over lines and characters builds the letter tally of the concatenation of the lines |
| `Threaded.JoinedChunks` | src/main.rs:27-31 | the strings handed to the threads are the joined chunks, and together they concatenate to the joined input |
| `Threaded.JoinInOrder` | src/main.rs:36-41 | joining the handles in spawn order and merging each table into the result gives the left-to-right merge of all partial tables |
| `Threaded.FrequencyMultithreaded` | src/main.rs:25-44 | thread per chunk, joined in spawn order: the same table as the single-threaded count, empty for empty input |
| `Threaded.ReceiveAll` | src/main.rs:60-64 | receiving the partial tables in an arbitrary order and merging each as it arrives gives the left-to-right merge of all of them |
| `Threaded.FrequencyChannels` | src/main.rs:46-66 | channel fan-in with tables received in an arbitrary order: the same table as the single-threaded count |
| `Threaded.LockAndMerge` | src/main.rs:72-86 | the threads each count their string and merge into the shared table in whatever order they take the lock; the result is the letter tally of the joined strings |
| `Threaded.FrequencyMutex` | src/main.rs:68-91 | each thread merges into the shared table in whatever order it takes the lock: the same table as the single-threaded count |
| `Utf8.Encode` | src/lib.rs:53 | `as_bytes`: the UTF-8 encoding, character by character, in one to four bytes each (RFC 3629 section 3) |
| `Utf8.EncodeLength` | src/lib.rs:51-53 | the byte length `input.len()` lies between the number of characters and four times it |
| `Utf8.Decode` | src/lib.rs:55 | `String::from_utf8`: strict decoding, None on a truncated, overlong, surrogate or out-of-range form; a decoded string has no more characters than bytes |
| `Utf8.DecodeExactly` | src/lib.rs:55 | `String::from_utf8(b)` succeeds with `s` exactly when `b` is the UTF-8 encoding of `s` |
| `Utf8.DecodeEncode` | src/lib.rs:55 | decoding the encoding of any string gives the string back |
| `Utf8.EncodeDecode` | src/lib.rs:55 | a byte sequence that decodes is exactly the encoding of the decoded string |
| `Utf8.EncodeAppend` | src/lib.rs:53 | the bytes of a concatenation are the concatenation of the bytes |
| `Utf8.EncodeCharShape` | src/lib.rs:53 | an encoded character starts with a non-continuation lead byte that announces its length, and all its other bytes are continuation bytes |
| `Utf8.DecodeCharLength` | src/lib.rs:55 | a decoded character takes the number of bytes its lead byte announces, and never starts at a continuation byte |
| `Utf8.DecodePrefix` | src/lib.rs:55 | bytes that are a prefix of the encoding of `t` and decode can only decode to a prefix of `t` |
| `Utf8.Boundary` | src/lib.rs:53-55 | every byte offset of an encoding is either where a character starts, or holds a continuation byte |
| `Utf8.CharsBeforeOffset` | src/lib.rs:53-55 | at the offset where character `k` starts, exactly `k` characters have started before it |
| `Utf8.DecodeAtCharacter` | src/lib.rs:53-55 | well-formed bytes cut out at a character's start decode to the characters they cover, and end where the next character starts |
| `Utf8.AsciiBytesValid` | src/lib.rs:55 | any sequence of bytes below 0x80 is well-formed UTF-8 |
| `Wasm.FrequencyInString` | src/lib.rs:16-22 | lib.rs's copy has the same table as main.rs's, the counts add up to the number of alphabetic characters, and the keys are alphabetic and never ASCII upper case |
| `Wasm.CharCount` | src/lib.rs:69-74 | the table the fold closure builds: every character counted under itself; it never stores a zero count and is empty for empty text |
| `Wasm.CharCountMultiplicity` | src/lib.rs:69-74 | the fold counts every character under itself: the count of `c` is the multiplicity of `c` in the folded text, and the keys are exactly the characters that occur |
| `Wasm.CharCountTotal` | src/lib.rs:69-74 | the fold's counts add up to the number of characters folded |
| `Wasm.ByteChunks` | src/lib.rs:51-54 | the byte chunks concatenate to the input's bytes; all have length `(input.len() / concurrency).max(1)` in bytes except the last, which is not longer |
| `Wasm.KeepDecoded` | src/lib.rs:55-56 | a chunk is kept exactly when it is well-formed UTF-8, and then as the string whose encoding it is; the others are dropped whole |
| `Wasm.KeptEncoding` | src/lib.rs:52-56 | the retained strings, encoded, are the well-formed chunks concatenated |
| `Wasm.Retained` | src/lib.rs:51-56 | `chunkies`: one string per well-formed byte chunk, in order, each encoding back to its chunk; none for empty input |
| `Wasm.ValidChunkCovers` | src/lib.rs:52-55 | a well-formed chunk cut from the input's bytes starts where a character starts and decodes to the consecutive characters it covers |
| `Wasm.KeptSubsequence` | src/lib.rs:52-56 | the strings kept from chunks that cover the bytes from some offset on are, together, a subsequence of the characters from that offset on |
| `Wasm.RetainedSubsequence` | src/lib.rs:51-56 | the retained strings, concatenated, are the input with some characters left out, in their original order |
| `Wasm.RetainedCountsBounded` | src/lib.rs:51-56 | no character occurs more often in the retained text than in the input |
| `Wasm.LosesNothingWhenAligned` | src/lib.rs:52-56 | when every chunk is well-formed, the retained strings concatenate to the input |
| `Wasm.AsciiLosesNothing` | src/lib.rs:52-56 | for ASCII input no chunk is dropped and the retained strings concatenate to the input |
| `Wasm.SingleWorker` | src/lib.rs:51-56 | with concurrency 1 the input is one chunk, kept as it is (no chunk for empty input) |
| `Wasm.SplitCharacterDropsChunk` | src/lib.rs:55 | "aé" with concurrency 3 is cut into single bytes; both halves of "é" are dropped and only "a" is retained |
| `Wasm.SplitOnlyCharacter` | src/lib.rs:51-56 | "é" with concurrency 2 is cut between its two bytes; neither decodes and nothing is retained |
| `Wasm.FoldChunk` | src/lib.rs:69-74 | the fold closure adds every character of a chunk to the accumulator: the result is the accumulator merged with the chunk's character count |
| `Wasm.FoldPiece` | src/lib.rs:67-74 | an accumulator started from `CharMap::new` and folded over consecutive chunks is the character count of their concatenation |
| `Wasm.FoldReduce` | src/lib.rs:67-81 | for every fold/reduce tree, `reduce_with` yields a table, never None, and that table is the character count of all chunks concatenated (the empty table for no chunks) |
| `Wasm.Text.Process` | src/lib.rs:45-84 | the unwrap succeeds and the table is the count of every retained character; its sum is their number; no count exceeds the character's count in the input; with nothing retained it is empty; for ASCII input it is the count of the input; it depends only on `input` and `concurrency`, never on `self.inner` or the tree |

## Left out

- Thread spawning, `join`, `mpsc` channels and `Arc<Mutex<…>>` (src/main.rs:32, 49-58, 69-90) are concurrency machinery. Only their sequential effect is modelled: a loop over the chunks, in arbitrary order where the program does not fix one.
- rayon's `ThreadPoolBuilder`, `install` and `spawn_handler` (src/lib.rs:58-66) are left out for the same reason. The split tree of `par_iter` is a parameter (`Wasm.Plan`).
- rayon's own source is not part of this model. `Wasm.FoldReduce` follows rayon's fold, which completes a folder for every piece, an empty one too, and hands its accumulator on.
- The `pool` module and `WorkerPool::run` (src/lib.rs:12, 60, 65) are not part of this model; their source is not available. An error returned by `pool.run` (the `?` at src/lib.rs:84) is therefore not modelled.
- The one-shot channel, the async block, `future_to_promise` and the `JsValue::from_serde` serialisation (src/lib.rs:64, 82, 86-94) are async and foreign glue. `Text::process` is modelled up to the table it sends. In the program, the fold, the reduce and the unwrap run inside the closure given to `pool.run`, on a pool worker, asynchronously to `process`; the model runs them in sequence.
- The `console_log` macro and the extern `log`/`logv` bindings (src/lib.rs:8-10, 24-30) are foreign calls.
- `main`'s timing harness and `println!` (src/main.rs:93-114) are I/O and wall-clock timing.
- index.js (browser UI) and multi-wasm/wasmworkers.d.ts (generated bindings) contain no counting logic.
- `Threaded.IsAlphabeticModel`: the Unicode table behind `char::is_alphabetic` is not encoded. The predicate is a parameter that is only required to agree with the ASCII letter test on ASCII.
- Counts are unbounded naturals. `usize` overflow cannot happen, since a count never exceeds the input length.
