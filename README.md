# substring-search in Dafny

This project models the core of `substring-search`, a Rust crate that
answers one question: do two strings share a substring of exactly `k`
characters, and if so, which one? A character here is a Unicode scalar
value, and Rust strings are UTF-8 bytes. So every engine walks the strings
character by character and slices the underlying bytes at character
boundaries.

The crate has several engines for the same question:

- **Naive engines.** They put every `k`-character window of `s1` in a hash set and then scan the windows of `s2` in order. `_naive_substring` and `_naive_prereserve_substring` collect the `char_indices` offsets first. `_naive_prereserve_iter_substring` and `_naive_prereserve_iter_fx_substring` slide a queue of offsets instead, and the last of these uses the Fx hasher.
- **The "shorter" engines.** They index the string with fewer characters and scan the other. One uses Fx. Two use hashbrown's `RawTable` keyed by a rolling hash: Adler-32 or the crate's own `RollingPolynomial`.
- **The alternating engine.** It inserts and looks up in both strings in turn, then finishes the longer string alone.
- **Window extractors.** These are the closures returned by `build_rolling_substring`, `build_rolling_polynomial_substring`, `build_fx_substring` and `build_sip_substring`. Each call yields the next window and its hash.
- **`preprocess_string`.** It drops line breaks and collapses runs of spaces.
- **The public entry points.** `substring` forwards to `_naive_prereserve_iter_fx_substring`, `unordered_substring` to the alternating engine, and `has_substring` to `substring`.
- **The test oracles.** `substring_reference_impl` and `unordered_substring_correct`.

The modules are:

- `Utf8` gives the UTF-8 encoding of a `seq<char>`, byte offsets and byte slicing. The slicing demands character boundaries, as Rust's `&s[a..b]` does.
- `Hashers` models `RollingPolynomial`, a class whose methods update `hash` in place with arithmetic modulo 2^64. It also proves the rolling law.
- `Helpers` models `preprocess_string`.
- `Spec` holds the reference definitions: windows, `contains`, the oracles and the shorter-first answer.
- `Windows` models the window extractors as classes that keep the iterator position and the queue of offsets as fields. `CharWindows` is the inline `next_substring` helper. `KeyedWindows` is an extractor with a hash function given from outside. `PolyWindows` is the rolling polynomial extractor.
- `MatchTable` models the part of `RawTable` that the rolling engines use.
- `Implementations` holds the engines. Each one is a method proved equal to a function in `Spec`.
- `Lib` holds the entry points, the reference implementation and the unit tests' examples.

`src/lib.rs` keeps verbatim copies of several engines:

- `_naive_substring` (37-80);
- `_naive_prereserve_substring` (89-134);
- `_naive_prereserve_iter_substring` (143-212);
- `_naive_prereserve_iter_fx_substring` (223-293);
- `_naive_prereserve_iter_fx_shorter_substring` (305-380);
- `_alternate_prereserve_iter_fx_substring` (408-499).

Each is modelled once, by the member that the table cites at its `src/implementations.rs` lines.

The hash set of a naive engine is modelled as a Dafny `set`, because its hash function does not change what the engine returns. Two engines differ only in their hash set (std vs Fx), or only in precollected vs iterated offsets. Each such pair shares one member, because they compute the same thing.

The polynomial engine is the exception. As written, it hashes its two strings with two different salts. That changes its result, so the model keeps both the code as written and a corrected version (see Findings).

## Model

| member | source | states |
|---|---|---|
| Utf8.EncodeChar | src/implementations.rs:22-26 | a character encodes to 1 to 4 bytes, ASCII as itself, and no byte of a multi-byte character is an ASCII byte |
| Utf8.EncodeAppend | src/implementations.rs:22-26 | the bytes of a concatenation are the concatenation of the bytes |
| Utf8.EncodeBound | src/implementations.rs:420-422 | a string of n characters has at most 4n bytes, which keeps the `as u32` exponent of `remove` exact for k < 2^30 |
| Utf8.OffsetSlice | src/implementations.rs:36-39 | the bytes between the offsets of characters i and j are the encoding of characters i..j |
| Utf8.SliceAtOffsets | src/implementations.rs:36-39 | slicing the bytes at the offsets `char_indices` gives for characters i and j lies on character boundaries (so it cannot panic) and yields characters i..j |
| Utf8.CharIndexOf | src/implementations.rs:36-39 | a character boundary is the offset of a character position, and no other position has that offset |
| Utf8.OffsetInjective | src/implementations.rs:36-39 | two different character positions never share a byte offset |
| Utf8.SliceBytes | src/implementations.rs:36-39 | `&s[start..end]` between character boundaries is the text whose bytes are those bytes |
| Utf8.CharStarts | src/implementations.rs:25-26 | the `char_indices` offsets, one per character, the i-th being the byte length of the first i characters; they strictly increase and lie inside the string's bytes |
| Utf8.OffsetsIncrease | src/implementations.rs:25-26 | byte offsets strictly increase with the character index, and the offset after the last character is the byte length |
| Hashers.FirstSalt | src/hashers.rs:15-22 | the salt is the first random byte that is at least 2, so it lies in [2, 255] |
| Hashers.SampleSalt | src/hashers.rs:15-22 | the resampling loop returns that first byte of at least 2 |
| Hashers.SkipSmallDraw | src/hashers.rs:15-22 | a byte below 2 is skipped: the salt comes from the bytes drawn after it |
| Hashers.RollingPolynomial.New | src/hashers.rs:15-27 | a fresh hash is 0 with a salt in [2, 255] |
| Hashers.RollingPolynomial.WithSalt | src/hashers.rs:29-34 | a fresh hash is 0 with the given salt |
| Hashers.RollingPolynomial.FromBuffer | src/hashers.rs:36-40 | the hash is the polynomial hash of the bytes under a sampled salt in [2, 255] |
| Hashers.RollingPolynomial.FromBufferWithSalt | src/hashers.rs:42-46 | the hash is the polynomial hash of the bytes under the given salt |
| Hashers.RollingPolynomial.Update | src/hashers.rs:48-50 | `hash * salt + byte` modulo 2^64; the salt is unchanged |
| Hashers.RollingPolynomial.Remove | src/hashers.rs:52-54 | `hash - byte * salt^(size-1)` modulo 2^64; requires size >= 1, since `size - 1` underflows at 0 |
| Hashers.RollingPolynomial.UpdateBuffer | src/hashers.rs:56-60 | the hash absorbs the bytes one by one in order |
| Hashers.RollingPolynomial.Hash | src/hashers.rs:62-64 | returns the current hash |
| Hashers.RollingPolynomial.Salt | src/hashers.rs:66-68 | returns the salt |
| Hashers.UpdateExtends | src/hashers.rs:48-50 | updating the hash of a buffer with a byte gives the hash of the buffer with that byte appended |
| Hashers.AbsorbExtends | src/hashers.rs:56-60 | `update_buffer` on the hash of a gives the hash of a followed by the bytes |
| Hashers.FromScratch | src/hashers.rs:9-11 | the hash built from 0 is the sum of byte_i * salt^(l-1-i) modulo 2^64 |
| Hashers.PolySumAppend | src/hashers.rs:9-11 | the polynomial sum of a + b is the sum of a times salt to the length of b, plus the sum of b |
| Hashers.RemoveLeading | src/hashers.rs:52-54 | removing the first byte with size = buffer length gives the hash of the rest |
| Hashers.RollingLaw | src/hashers.rs:79-86 | removing the first byte then adding a new one equals hashing the shifted buffer from scratch with the same salt |
| Helpers.Preprocess | src/helpers.rs:5-31 | the bytes of the result are those the byte filter leaves, so `String::from_utf8(..).unwrap()` cannot fail |
| Helpers.StripEncode | src/helpers.rs:9-11 | filtering `\r` and `\n` bytes is filtering those characters |
| Helpers.CollapseEncode | src/helpers.rs:20-29 | the pairwise space filter on bytes is the same filter on characters |
| Helpers.StripFacts | src/helpers.rs:9-11 | after the filter there is no `\r` or `\n`; every other byte, spaces included, occurs as often as in the input; the non-space text keeps its order; the result is empty exactly when the input held only line breaks |
| Helpers.StripKeepsCounts | src/helpers.rs:9-11 | the filter keeps each byte other than `\r` and `\n` as many times as it occurs |
| Helpers.CollapseNoDoubleSpace | src/helpers.rs:20-29 | the pair filter leaves no two neighbouring spaces |
| Helpers.CollapseSignificant | src/helpers.rs:20-29 | the pair filter drops only spaces |
| Helpers.PreprocessClean | src/helpers.rs:5-31 | the output has no line breaks and no double spaces |
| Helpers.PreprocessKeepsText | src/helpers.rs:5-31 | every byte other than `\r`, `\n` and space survives, in order |
| Helpers.PreprocessEmptyOrFirstKept | src/helpers.rs:12-19 | the output is empty exactly when the input holds only line breaks; otherwise its first byte is the first non-line-break byte |
| Helpers.PreprocessAllSpaces | src/helpers.rs:54-59 | a non-empty run of spaces becomes one space |
| Helpers.DropSpaces | src/helpers.rs:3 | removing a leading run of spaces leaves a suffix that does not start with a space, and everything removed was a space |
| Helpers.CollapseSkipsRun | src/helpers.rs:22-29 | after a space, the pair filter drops the whole following run of spaces |
| Helpers.CollapseIsRuns | src/helpers.rs:22-29 | when the previous byte is not a space, the pair filter equals the run-based reference that replaces each maximal run of spaces by one space |
| Helpers.PreprocessCollapsesRuns | src/helpers.rs:3-29 | the bytes of `preprocess_string` are the input without `\r` and `\n`, with each maximal run of spaces replaced by a single space |
| Helpers.PreprocessExample | src/helpers.rs:38-43 | the test sentence with stray line breaks and spaces becomes "This is a test string. - Normal Person" |
| Helpers.PreprocessLineBreaksExample | src/helpers.rs:46-51 | a string of line breaks alone preprocesses to the empty string |
| Helpers.PreprocessSpacesExample | src/helpers.rs:53-59 | seven spaces preprocess to one space |
| Spec.Win | src/implementations.rs:34-40 | the specification's window, against which the engines' slicing is proved: it has k characters, those at i, i+1, ... of s |
| Spec.WindowsMember | src/implementations.rs:34-40 | a text is among the first windows inserted exactly when one of those windows equals it |
| Spec.OccursIffWindow | src/lib.rs:535-539 | a k-character text is contained in s exactly when it is one of s's windows |
| Spec.WindowOccurs | src/lib.rs:535-539 | every window of s is contained in s |
| Spec.FirstCommonFound | src/implementations.rs:42-52 | the first-match search returns a window of the scanned string that the indexed one contains |
| Spec.FirstCommonNone | src/implementations.rs:42-55 | the first-match search returns nothing exactly when no window of the scanned string occurs in the indexed one |
| Spec.FirstCommonSkip | src/implementations.rs:42-52 | windows that do not occur can be skipped |
| Spec.CommonWindowIffOccurs | src/lib.rs:509-533 | sharing a window is the same as some window of s2 occurring in s1 |
| Spec.ReferenceSpec | src/lib.rs:509-533 | the oracle gives "" for k = 0, else the first window of s2 contained in s1, and nothing exactly when there is no common window |
| Spec.ReferenceCorrect | src/lib.rs:751-764 | every answer of the oracle passes `unordered_substring_correct` |
| Spec.CommonWindowSymmetric | src/implementations.rs:303 | sharing a window does not depend on the order of the strings |
| Spec.ShortInputs | src/lib.rs:649-658 | with k > 0 and a string shorter than k, the answer is nothing |
| Spec.ShorterFirstSpec | src/implementations.rs:296-357 | the shorter-first answer equals the oracle when s1 is not longer than s2; it is always a correct unordered answer; it is nothing exactly when there is no common window |
| Spec.ShorterFirstMayDiffer | src/implementations.rs:303 | swapping the roles of the strings can change which common window is found ("bac"/"ab", k = 1) |
| Windows.ClippedWindow | src/implementations.rs:159-168 | the e-th text an extractor yields is the e-th window while it fits, and shorter than k after the end |
| Windows.ClippedIsSkipTake | src/implementations.rs:795-808 | the e-th text an extractor yields equals `chars().skip(e).take(k)`, also past the end |
| Windows.CharIndex | src/implementations.rs:162 | `char_indices().next()` gives an offset on a character boundary while characters remain, and nothing after |
| Windows.NextOffset | src/implementations.rs:162 | `unwrap_or((source.len(), _))` is the byte offset of the next character position |
| Windows.ShiftOffsets | src/implementations.rs:159-168 | pushing the next offset and popping the front keeps the queue the offsets of the next window; the slice is on boundaries and is the window |
| Windows.NextSubstring | src/implementations.rs:159-168 | one call advances the offset queue by one window and returns the current window (clipped at the end) |
| Windows.CharWindows.Preload | src/implementations.rs:150-155 | after preloading, the queue holds the offsets of the first k characters |
| Windows.CharWindows.CharIndicesNext | src/implementations.rs:162 | the iterator step returns the next character's offset and advances by one position, or stays at the end |
| Windows.CharWindows.Next | src/implementations.rs:159-168 | the e-th call returns the e-th window (clipped at the end) and keeps the queue invariant |
| Windows.CharWindows.Exhausted | src/implementations.rs:175 | `cs.next().is_none()` holds exactly when every character has been read; the call advances the iterator by one character unless it was at the end, and changes nothing else |
| Windows.Preload | src/implementations.rs:401-409 | after preloading, `prev_chars` holds each of the first k characters with the offset where it ends, and `prev_i` the end of the k-th |
| Windows.ShiftEntries | src/implementations.rs:381-390 | both slices `&source[prev_i..i]` and `&source[old_offset..i]` lie on character boundaries; the second is the window and the first its new last character |
| Windows.StepEntries | src/implementations.rs:381-390 | popping the oldest character and pushing the next one keeps the `prev_chars` invariant for the next window |
| Windows.Advance | src/implementations.rs:378-391 | one extractor call advances the state by one window, returns the current window, and exposes the character leaving and the one entering |
| Windows.KeyedWindows.Build | src/implementations.rs:361-392 | a fresh extractor is at window 0 with its invariant established |
| Windows.KeyedWindows.Next | src/implementations.rs:378-391 | the e-th call returns the e-th window (clipped at the end) and the given hash of its bytes |
| Windows.KeyedStep | src/implementations.rs:378-391 | one call of a keyed extractor on its captured state: the next state, the e-th window and the hash of its bytes |
| Windows.RollCovered | src/implementations.rs:416-424 | the hashed bytes start with the leaving character; dropping it and appending the entering one gives the next window's bytes; `prev_i - old_offset + old_char.len()` is their length, at most 4k |
| Windows.CoveredSplit | src/implementations.rs:418-422 | the hashed bytes are the leaving character's bytes followed by those of the characters still in the window |
| Windows.CoveredNext | src/implementations.rs:419-425 | the bytes hashed after a call are those of the characters kept followed by the entering one, which are the bytes of the window returned |
| Windows.RollOut | src/implementations.rs:420-422 | removing the leaving character's bytes one by one, with size `prev_i - old_offset + old_char.len() - i`, leaves the hash of the rest of the hashed bytes |
| Windows.RollHash | src/implementations.rs:416-423 | removing the leaving character and absorbing the entering one leaves the hash of exactly the window to return |
| Windows.PolyStep | src/implementations.rs:413-426 | one call of the polynomial extractor on its captured state: the next state, the e-th window, and a hash that is the polynomial hash of the window's bytes |
| Windows.PolyWindows.Build | src/implementations.rs:396-411 | a fresh extractor is at window 0, its hash is that of the bytes of the first k-1 characters, and its salt is the sampled one |
| Windows.PolyWindows.BuildWithSalt | src/implementations.rs:396-411 | the same with a given salt (the corrected engine's builder) |
| Windows.PolyWindows.Next | src/implementations.rs:413-426 | the e-th call returns the e-th window (clipped at the end) and the polynomial hash of its bytes under the extractor's salt: the incremental hash equals the from-scratch hash |
| MatchTable.RawTable.WithCapacity | src/implementations.rs:540 | a new table is empty with the requested capacity |
| MatchTable.RawTable.Find | src/implementations.rs:559 | finds an entry exactly when one was stored under this hash with this text |
| MatchTable.RawTable.TryInsertNoGrow | src/implementations.rs:560 | succeeds exactly when there is room, appending the entry; otherwise changes nothing |
| Implementations.SliceWindow | src/implementations.rs:34-39 | slicing between `cis[i]` and `cis.get(i+k).unwrap_or(len)` gives window i |
| Implementations.WindowOffsets | src/implementations.rs:34-39 | `cis[i]` is the offset of character i, and `cis.get(i+k).unwrap_or(len)` the offset of character i+k |
| Implementations.SlicedWindows | src/implementations.rs:34-40 | the first loop of the naive engines collects exactly the set of every window of the string |
| Implementations.NaiveSubstring | src/implementations.rs:14-111 | `_naive_substring` and `_naive_prereserve_substring` return exactly the oracle's answer |
| Implementations.IndexThenScan | src/implementations.rs:170-185 | inserting every window of one string and then scanning the other returns the first scanned window the first string contains |
| Implementations.NaiveIterSubstring | src/implementations.rs:120-270 | `_naive_prereserve_iter_substring` and its Fx twin return exactly the oracle's answer |
| Implementations.ShorterSubstring | src/implementations.rs:282-357 | `_naive_prereserve_iter_fx_shorter_substring` returns the first window of the longer string that the shorter contains |
| Implementations.IndexedFind | src/implementations.rs:545-572 | a table indexing a set of windows finds (h, w) exactly when w is one of them and h is its hash |
| Implementations.IndexesStep | src/implementations.rs:556-562 | inserting a new window, or skipping one already present, keeps the table an index of the windows seen |
| Implementations.InsertWindow | src/implementations.rs:556-562 | looking a window up and inserting it when missing keeps the table an index of the windows seen plus this one, adding at most one entry |
| Implementations.IndexKeyed | src/implementations.rs:556-564 | after the insertion loop the table indexes every window of the shorter string and the extractor is exhausted; `try_insert_no_grow(..).unwrap()` never fails |
| Implementations.ScanKeyed | src/implementations.rs:566-574 | the lookup loop returns the first window of the longer string found in the table |
| Implementations.RollingAdlerShorterSubstring | src/implementations.rs:512-578 | the Adler engine returns exactly the shorter-first answer |
| Implementations.IndexPoly | src/implementations.rs:633-641 | the same insertion loop over the polynomial extractor indexes every window under its extractor's salt |
| Implementations.ScanPoly | src/implementations.rs:643-651 | the lookup loop returns the first window of the longer string whose hash under its own salt matches a table entry |
| Implementations.PolyIndexThenScan | src/implementations.rs:633-655 | the two loops together return the first window of the longer string stored under the same text and hash |
| Implementations.FirstSameHashSound | src/implementations.rs:643-649 | whatever the same-hash search returns is a window of the longer string contained in the shorter |
| Implementations.SharedSaltFirst | src/implementations.rs:643-649 | when both salts agree, the same-hash search is the first-common search |
| Implementations.PolyAsWrittenSpec | src/implementations.rs:589-655 | the engine as written only returns correct answers, and with equal salts returns the shorter-first answer |
| Implementations.PolyShorterSubstringAsWritten | src/implementations.rs:589-655 | the engine as written, with one salt drawn per extractor, returns the same-hash search under those two salts |
| Implementations.AsWrittenMissesCommonWindow | src/implementations.rs:619-620 | with salts 2 and 255 the engine as written finds nothing for "substring"/"substring", k = 9, where the shorter-first answer is "substring"; the two window hashes also carry different 7-bit tags |
| Implementations.WitnessHashes | src/hashers.rs:48-50 | the bytes of "substring" hash to 57879 under salt 2 and to 16623256095473053777 under salt 255, whose tags are 0 and 115 |
| Implementations.EncodeWitness | src/implementations.rs:619-620 | the bytes the witness of the salt finding hashes: "substring" is encoded as its nine ASCII bytes |
| MatchTable.Tag | src/implementations.rs:645 | modelled from hashbrown, not from this crate: the tag that the `RawTable` `find` call compares before it compares a key is the top 7 bits of the 64-bit hash |
| Implementations.PolyShorterSubstring | src/implementations.rs:589-655 | with one salt shared by both extractors, the polynomial engine returns exactly the shorter-first answer |
| Implementations.FoundInOther | src/implementations.rs:748-754 | a window of one string found among the other's inserted windows is a correct answer |
| Implementations.AlternateRound | src/implementations.rs:737-755 | a round without a hit keeps the windows read so far from the two strings pairwise different |
| Implementations.Phase1Step | src/implementations.rs:737-755 | after a round inserts both new windows, a hit in either set is a correct answer and proves a common window; no hit keeps both sets equal to the windows read and pairwise apart |
| Implementations.AlternatePhase1 | src/implementations.rs:737-755 | the alternating loop returns a correct answer, or ends with both sets holding the windows read and no common window among them |
| Implementations.Phase2Step | src/implementations.rs:757-766 | a window of the longer string found in the shorter's set is a correct answer; one not found keeps the windows apart for one more round |
| Implementations.AlternatePhase2 | src/implementations.rs:757-766 | finishing the longer string returns a correct answer, and nothing exactly when the strings share no window |
| Implementations.AlternateSubstring | src/implementations.rs:683-774 | "" for k = 0; otherwise a correct unordered answer, and nothing exactly when there is no common window (sound and complete) |
| Lib.Substring | src/lib.rs:11-13 | the oracle's answer: the first window of s2 contained in s1, "" for k = 0, nothing exactly when there is no common window |
| Lib.UnorderedSubstring | src/lib.rs:23-25 | "" for k = 0; otherwise a correct unordered answer, and nothing exactly when there is no common window |
| Lib.HasSubstring | src/lib.rs:28-30 | true exactly when k = 0 or the strings share a window of k characters |
| Lib.SubstringReferenceImpl | src/lib.rs:509-533 | the loop returns "" for k = 0, else the first window of s2 that s1 contains, and nothing exactly when there is no common window |
| Lib.CommonWindowExample | src/lib.rs:535-539 | a shared window passes `unordered_substring_correct` |
| Lib.WholeStrings | src/lib.rs:627-635 | strings of exactly k characters share a window only when equal, and the answer is then the string itself |
| Lib.WholeStringAnswer | src/lib.rs:717-725 | the only correct unordered answer for a k-character string is the string itself |
| Lib.LengthKExample | src/lib.rs:627-635 | "Test"/"Test" with k = 4 gives "Test"; "Test"/"Uhoh" gives nothing |
| Lib.CaseSensitiveExample | src/lib.rs:638-646 | "Test"/"test" with k = 4 gives nothing |
| Lib.ShorterThanKExample | src/lib.rs:605-613 | an input shorter than k gives nothing |
| Lib.PairsAbsentAt | src/lib.rs:582-591 | helper of Lib.SentenceExample: the pair check holds at every position |
| Lib.PairBlocks | src/lib.rs:582-591 | helper of Lib.SentenceExample: a text holding a pair of neighbouring characters that s lacks does not occur in s |
| Lib.SentenceExample | src/lib.rs:582-591 | with k = 5 the two test sentences give " test" |
| Lib.UnorderedLengthKExample | src/lib.rs:717-735 | any unordered answer for "Test"/"Test" is "Test"; "Test"/"Uhoh" and "Test"/"test" share no window |

## Left out

- I/O is not part of this model: `src/main.rs`, the benchmarks and the plotting scripts.
- The Fx, SipHash and Adler-32 functions are foreign code. Each is a parameter of type `seq<u8> -> u64` that every caller passes.
- Windows.KeyedWindows.Next: the hash is that function applied to the window's bytes. For `build_rolling_substring` this stands for `RollingAdler32`'s `remove`/`update_buffer`. Its incremental state is not modelled, and its agreement with Adler-32 from scratch is assumed, as the test at src/implementations.rs:785-792 checks.
- Randomness: `rand::random::<u8>()` becomes a sequence of draws passed in by the caller. Each member that samples requires one draw of at least 2, because the source loops until it sees one.
- `RawTable` internals are not part of this model: control bytes, probing and growth. The model stores (hash, text) pairs and `find` compares both. The 7-bit tag (`MatchTable.Tag`) is modelled only to show that the finding's witness also misses in the real table. The capacity is the requested one, but hashbrown may round it up. Insertion is proved to fit within the requested capacity, which covers the real one.
- The std and Fx hash sets of the naive and alternating engines are modelled as Dafny sets. Their hash functions do not change any result.
- Closures and `FnMut` boxes are modelled as classes whose fields are the captured variables. `VecDeque` becomes a `seq` that is reassigned.
- Windows.PolyWindows.BuildWithSalt requires k < 2^30, for the same reason as the line below.
- Implementations.PolyShorterSubstring, Implementations.PolyShorterSubstringAsWritten and Windows.PolyWindows.Build require k < 2^30. Then a window has fewer than 2^32 bytes and `as u32` in the remove size does not truncate. Larger k are not modelled.
- Strings are sequences of Unicode scalar values. `contains` is modelled at character level, which agrees with Rust's byte-level `str::contains` because UTF-8 is self-synchronising. That agreement is not proved here.
- The proptest generators and the `test_against_reference` property are not modelled as generators. The properties they sample are proved for all inputs instead: Implementations.NaiveIterSubstring gives the oracle's answer, and Spec.ShortInputs covers short inputs.
- The `test_no_substring` sentences ("Who lives in a pineapple ...") are not proved as a concrete example. They are covered by Lib.Substring's general contract.
- `#[deprecated]` attributes and the `build_fx_substring`/`build_sip_substring` hash helpers have no behaviour of their own. They are Windows.KeyedWindows with the matching hash function.

## Findings

| source | as written | input that shows it | evidently intended | confidence | as-written member | corrected member |
|---|---|---|---|---|---|---|
| src/implementations.rs:619-620 | each `build_rolling_polynomial_substring` call goes through `RollingPolynomial::from_buffer`, so the two extractors draw independent salts, and a common window is hashed differently on the two sides; the lookup keyed by hash then misses it | "substring" and "substring" with k = 9 and salts 2 and 255: the window hashes are 57879 and 16623256095473053777, whose top-7-bit tags are 0 and 115; hashbrown compares a stored key only when the tags match, so the real table misses too and the engine returns None instead of "substring" | one salt shared by both extractors (from `from_buffer_with_salt`), so that the engine returns the first window of the longer string found in the shorter | high, not executed: the witness rests on the 7-bit tag check of hashbrown's `find`, the rest of the table is not modelled | Implementations.PolyShorterSubstringAsWritten, Implementations.AsWrittenMissesCommonWindow | Implementations.PolyShorterSubstring |

The code draws a fresh salt per extractor. Two things in the source show that equal windows need one shared salt: `from_buffer_with_salt` exists to build a hash under a given salt (src/hashers.rs:42-46), and the rolling-hash test rebuilds its expected hash with `hash.salt` (src/hashers.rs:79-86). The as-written member follows the code. The corrected member passes one salt to both extractors through `from_buffer_with_salt`.
