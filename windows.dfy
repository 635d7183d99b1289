/**
 * The sliding windows the engines read: each call yields the next k
 * characters of a string as a byte slice of it, found through the byte
 * offsets `char_indices()` reports.
 *
 * `CharWindows` is the state `next_substring` updates (the `char_indices()`
 * iterator and the deque of window start offsets). `KeyedWindows` and
 * `PolyWindows` are the closures returned by the `build_*_substring`
 * functions: they keep a deque of (character, end offset) pairs and return
 * each window together with a hash of its bytes.
 */
module Windows {
  import opened Options
  import opened Utf8
  import opened Hashers
  import Spec

  function Min(a: nat, b: nat): nat
  {
    if a <= b then a else b
  }

  /**
   * The character range of the m-th entry of a builder's deque: the entry
   * pushed for character index m holds the character that ends where
   * character m starts (nothing for m = 0, nothing again past the end).
   */
  function EntryLo(n: nat, m: nat): nat
  {
    if m == 0 then 0 else Min(m - 1, n)
  }

  /** Character e's window, clipped to the end of the string. */
  function Clipped(s: seq<char>, e: nat, k: nat): seq<char>
  {
    s[Min(e, |s|)..Min(e + k, |s|)]
  }

  /** A clipped window is the full window while it fits, and shorter than k after that. */
  lemma ClippedWindow(s: seq<char>, e: nat, k: nat)
    requires k >= 1
    ensures e + k <= |s| ==> Clipped(s, e, k) == Spec.Win(s, k, e)
    ensures e + k > |s| ==> |Clipped(s, e, k)| < k
  {
  }

  /** `chars().skip(i)`: drops up to i characters from the front. */
  function Skip(s: seq<char>, i: nat): seq<char>
  {
    if i == 0 || s == [] then s else Skip(s[1..], i - 1)
  }

  /** `take(k)`: keeps up to k characters from the front. */
  function Take(s: seq<char>, k: nat): seq<char>
  {
    if k == 0 || s == [] then [] else [s[0]] + Take(s[1..], k - 1)
  }

  /**
   * The e-th text an extractor yields is what `chars().skip(e).take(k)`
   * collects, also once the windows run past the end of the string.
   */
  lemma {:induction false} ClippedIsSkipTake(s: seq<char>, e: nat, k: nat)
    ensures Clipped(s, e, k) == Take(Skip(s, e), k)
    decreases e, k
  {
    if e == 0 || s == [] {
      TakePrefix(s, k);
    } else {
      ClippedIsSkipTake(s[1..], e - 1, k);
      assert Clipped(s[1..], e - 1, k) == Clipped(s, e, k);
    }
  }

  lemma {:induction false} TakePrefix(s: seq<char>, k: nat)
    ensures Take(s, k) == s[..Min(k, |s|)]
  {
    if k != 0 && s != [] {
      TakePrefix(s[1..], k - 1);
    }
  }

  /** One step of `char_indices()` from character position `pos`: byte offset and character. */
  function CharIndex(s: seq<char>, pos: nat): (r: Option<(nat, char)>)
    requires pos <= |s|
    ensures r.Some? <==> pos < |s|
    ensures r.Some? ==> IsCharBoundary(s, r.value.0) && r.value.0 < |Encode(s)|
  {
    SliceAtOffsets(s, pos, |s|);
    if pos < |s| then
      OffsetStrict(s, pos, |s|);
      OffsetSlice(s, pos, |s|);
      Some((Offset(s, pos), s[pos]))
    else None
  }

  /** `cs.next().unwrap_or((source.len(), 'a')).0` once `pos` characters were read. */
  function NextOffset(s: seq<char>, pos: nat): (i: nat)
    requires pos <= |s|
    ensures i == Offset(s, pos)
  {
    var c := CharIndex(s, pos);
    OffsetSlice(s, pos, |s|);
    if c.Some? then c.value.0 else |Encode(s)|
  }

  /**
   * Pushing the next offset and popping the first moves the deque of start
   * offsets one character on, and the popped offset and the pushed one
   * bound the clipped window.
   */
  lemma ShiftOffsets(s: seq<char>, k: nat, e: nat, before: seq<nat>, i: nat)
    requires 1 <= k && |before| == k
    requires forall j :: 0 <= j < k ==> before[j] == Offset(s, Min(e + j, |s|))
    requires i == Offset(s, Min(e + k, |s|))
    ensures |(before + [i])[1..]| == k
    ensures forall j :: 0 <= j < k ==> (before + [i])[1..][j] == Offset(s, Min(e + 1 + j, |s|))
    ensures IsCharBoundary(s, before[0]) && IsCharBoundary(s, i) && before[0] <= i
    ensures SliceBytes(s, before[0], i) == Clipped(s, e, k)
  {
    assert before[0] == Offset(s, Min(e + 0, |s|));
    forall j | 0 <= j < k
      ensures (before + [i])[1..][j] == Offset(s, Min(e + 1 + j, |s|))
    {
      if j < k - 1 {
        assert (before + [i])[1..][j] == before[j + 1];
      }
    }
    SliceAtOffsets(s, Min(e, |s|), Min(e + k, |s|));
  }

  /**
   * The state `next_substring` keeps between calls, after e calls: the
   * iterator has read k characters past the first e, and the deque holds the
   * start offsets of characters e .. e + k - 1 (the string's length once
   * past its end).
   */
  ghost predicate OffsetsAt(s: seq<char>, k: nat, e: nat, pos: nat, indices: seq<nat>)
  {
    && 1 <= k <= |s|
    && pos == Min(k + e, |s|)
    && |indices| == k
    && forall j :: 0 <= j < k ==> indices[j] == Offset(s, Min(e + j, |s|))
  }

  /**
   * `next_substring`: reads the next character's offset, pushes it and pops
   * the first, and returns the window of the k characters from character e
   * on, clipped at the end of the string; both slice bounds are character
   * boundaries.
   */
  method NextSubstring(source: seq<char>, k: nat, ghost e: nat, pos: nat, indices: seq<nat>)
    returns (pos': nat, indices': seq<nat>, sub: seq<char>)
    requires OffsetsAt(source, k, e, pos, indices)
    ensures OffsetsAt(source, k, e + 1, pos', indices')
    ensures sub == Clipped(source, e, k)
  {
    var c := CharIndex(source, pos);
    pos' := if pos < |source| then pos + 1 else pos;
    var i: nat := if c.Some? then c.value.0 else |Encode(source)|;
    assert i == NextOffset(source, Min(k + e, |source|));
    ShiftOffsets(source, k, e, indices, i);
    var pushed := indices + [i];
    var start := pushed[0];
    indices' := pushed[1..];
    var end := indices'[|indices'| - 1];
    sub := SliceBytes(source, start, end);
  }

  /**
   * The iterator and the deque of window start offsets that
   * `next_substring` advances together.
   */
  class CharWindows {
    const source: seq<char>
    const k: nat
    /** Characters consumed from `source.char_indices()`. */
    var pos: nat
    /** `sub_indices`: the byte offsets of the next window's characters. */
    var indices: seq<nat>
    /** Windows returned so far. */
    ghost var calls: nat

    ghost predicate Valid()
      reads this
    {
      OffsetsAt(source, k, calls, pos, indices)
    }

    /** Pre-loads the offsets of the first k characters (`cs.next().unwrap()` k times). */
    constructor Preload(source: seq<char>, k: nat)
      requires 1 <= k <= |source|
      ensures this.source == source && this.k == k
      ensures Valid() && calls == 0
    {
      this.source := source;
      this.k := k;
      pos := 0;
      indices := [];
      calls := 0;
      new;
      for e := 0 to k
        invariant calls == 0
        invariant pos == e && |indices| == e
        invariant forall j :: 0 <= j < e ==> indices[j] == Offset(source, j)
      {
        var c := CharIndex(source, pos);
        pos := pos + 1;
        indices := indices + [c.value.0];
      }
    }

    /** `cs.next()` */
    method CharIndicesNext() returns (r: Option<(nat, char)>)
      requires pos <= |source|
      modifies this
      ensures indices == old(indices) && calls == old(calls)
      ensures r == CharIndex(source, old(pos))
      ensures pos == if old(pos) < |source| then old(pos) + 1 else old(pos)
    {
      r := CharIndex(source, pos);
      if pos < |source| {
        pos := pos + 1;
      }
    }

    /** One `next_substring` call on the iterator and deque this object holds. */
    method Next() returns (sub: seq<char>)
      requires Valid()
      modifies this
      ensures Valid() && calls == old(calls) + 1
      ensures sub == Clipped(source, old(calls), k)
    {
      var p, offsets;
      p, offsets, sub := NextSubstring(source, k, calls, pos, indices);
      pos, indices, calls := p, offsets, calls + 1;
    }

    /** Every character has been read. */
    method Exhausted() returns (b: bool)
      requires pos <= |source|
      modifies this
      ensures b <==> old(pos) == |source|
      ensures pos == if old(pos) < |source| then old(pos) + 1 else old(pos)
      ensures indices == old(indices) && calls == old(calls)
    {
      var c := CharIndicesNext();
      b := c.None?;
    }
  }

  /** The deque entry pushed for character index m: a character and the offset where it ends. */
  function Entry(s: seq<char>, m: nat): (seq<char>, nat)
  {
    (s[EntryLo(|s|, m)..Min(m, |s|)], Offset(s, Min(m, |s|)))
  }

  /**
   * A builder's state after e calls: k characters read past the first e,
   * the deque holding the entries for characters e .. e + k - 1, and the
   * start offset of the last character read.
   */
  ghost predicate EntriesAt(s: seq<char>, k: nat, e: nat, pos: nat, entries: seq<(seq<char>, nat)>, prevI: nat)
  {
    && 1 <= k <= |s|
    && pos == Min(k + e, |s|)
    && |entries| == k
    && EntriesFrom(s, e, entries)
    && prevI == Offset(s, Min(e + k - 1, |s|))
  }

  /** The deque holds the entries for characters e, e + 1, ... */
  ghost predicate EntriesFrom(s: seq<char>, e: nat, entries: seq<(seq<char>, nat)>)
  {
    forall j :: 0 <= j < |entries| ==> entries[j] == Entry(s, e + j)
  }

  /**
   * The pre-loading loop every builder runs: reads the first k characters,
   * pushing each character read with the offset where it ends.
   */
  method Preload(source: seq<char>, k: nat) returns (pos: nat, entries: seq<(seq<char>, nat)>, prevI: nat)
    requires 1 <= k <= |source|
    ensures EntriesAt(source, k, 0, pos, entries, prevI)
  {
    pos := 0;
    entries := [];
    prevI := 0;
    for e := 0 to k
      invariant pos == e && |entries| == e
      invariant forall j :: 0 <= j < e ==> entries[j] == Entry(source, j)
      invariant prevI == Offset(source, if e == 0 then 0 else e - 1)
    {
      var c := CharIndex(source, pos);
      var i := c.value.0;
      SliceAtOffsets(source, if e == 0 then 0 else e - 1, e);
      entries := entries + [(SliceBytes(source, prevI, i), i)];
      prevI := i;
      pos := pos + 1;
    }
  }

  /**
   * One call of a builder's closure: the character between the last two
   * offsets read is the entry for character e + k, the popped entry ends
   * where the window starts, and the deque moves one character on.
   */
  lemma ShiftEntries(s: seq<char>, k: nat, e: nat, pos: nat, before: seq<(seq<char>, nat)>, prevI: nat, i: nat)
    requires EntriesAt(s, k, e, pos, before, prevI)
    requires i == Offset(s, Min(e + k, |s|))
    ensures IsCharBoundary(s, prevI) && IsCharBoundary(s, i) && prevI <= i
    ensures IsCharBoundary(s, before[0].1) && before[0].1 <= i
    ensures SliceBytes(s, before[0].1, i) == Clipped(s, e, k)
    ensures SliceBytes(s, prevI, i) == Entry(s, e + k).0
  {
    assert before[0] == Entry(s, e + 0);
    SliceAtOffsets(s, Min(e + k - 1, |s|), Min(e + k, |s|));
    SliceAtOffsets(s, Min(e, |s|), Min(e + k, |s|));
  }

  /** Popping the first entry and pushing the new character's moves the deque one character on. */
  lemma StepEntries(s: seq<char>, k: nat, e: nat, pos: nat, before: seq<(seq<char>, nat)>, prevI: nat,
                    i: nat, pos': nat, after: seq<(seq<char>, nat)>)
    requires EntriesAt(s, k, e, pos, before, prevI)
    requires i == Offset(s, Min(e + k, |s|))
    requires pos' == (if pos < |s| then pos + 1 else pos)
    requires after == before[1..] + [Entry(s, e + k)]
    ensures EntriesAt(s, k, e + 1, pos', after, i)
  {
    assert after[k - 1] == Entry(s, e + k);
    forall j | 0 <= j < k
      ensures after[j] == Entry(s, e + 1 + j)
    {
      if j < k - 1 {
        assert after[j] == before[j + 1];
      }
    }
  }

  /**
   * The part of a builder's closure that moves the window: reads the next
   * character's offset, pops the first entry and pushes the character just
   * passed, and slices the window from the popped entry's offset.
   */
  method Advance(source: seq<char>, k: nat, ghost e: nat, pos: nat, entries: seq<(seq<char>, nat)>, prevI: nat)
    returns (pos': nat, entries': seq<(seq<char>, nat)>, prevI': nat, sub: seq<char>)
    requires EntriesAt(source, k, e, pos, entries, prevI)
    ensures EntriesAt(source, k, e + 1, pos', entries', prevI')
    ensures sub == Clipped(source, e, k)
    ensures entries[0].0 == source[EntryLo(|source|, e)..Min(e, |source|)]
    ensures entries'[k - 1].0 == source[Min(e + k - 1, |source|)..Min(e + k, |source|)]
  {
    var c := CharIndex(source, pos);
    var i: nat := if c.Some? then c.value.0 else |Encode(source)|;
    assert i == NextOffset(source, Min(k + e, |source|));
    ShiftEntries(source, k, e, pos, entries, prevI, i);
    var nextChar := SliceBytes(source, prevI, i);
    var oldOffset := entries[0].1;
    entries' := entries[1..] + [(nextChar, i)];
    pos' := if pos < |source| then pos + 1 else pos;
    StepEntries(source, k, e, pos, entries, prevI, i, pos', entries');
    prevI' := i;
    sub := SliceBytes(source, oldOffset, i);
  }

  /** One call of a keyed closure, on the window state it captures. */
  method KeyedStep(hasher: seq<u8> -> u64, source: seq<char>, k: nat, ghost e: nat, pos: nat,
                   entries: seq<(seq<char>, nat)>, prevI: nat)
    returns (pos': nat, entries': seq<(seq<char>, nat)>, prevI': nat, sub: seq<char>, h: u64)
    requires EntriesAt(source, k, e, pos, entries, prevI)
    ensures EntriesAt(source, k, e + 1, pos', entries', prevI')
    ensures sub == Clipped(source, e, k)
    ensures h == hasher(Encode(sub))
  {
    pos', entries', prevI', sub := Advance(source, k, e, pos, entries, prevI);
    h := hasher(Encode(sub));
  }

  /**
   * The closure returned by `build_fx_substring`, `build_sip_substring` and
   * (for the window it returns) `build_rolling_substring`: each call yields
   * the next window and `hasher` applied to its bytes.
   */
  class KeyedWindows {
    const source: seq<char>
    const k: nat
    const hasher: seq<u8> -> u64
    var pos: nat
    /** `prev_chars`: (character, offset where it ends) for the characters around the window. */
    var prevChars: seq<(seq<char>, nat)>
    /** `prev_i`: the start offset of the last character read. */
    var prevI: nat
    ghost var calls: nat

    ghost predicate Valid()
      reads this
    {
      EntriesAt(source, k, calls, pos, prevChars, prevI)
    }

    /** A builder's set-up: the pre-loading loop, then the closure's captured state. */
    constructor Build(source: seq<char>, k: nat, hasher: seq<u8> -> u64)
      requires 1 <= k <= |source|
      ensures this.source == source && this.k == k && this.hasher == hasher
      ensures Valid() && calls == 0
    {
      this.source := source;
      this.k := k;
      this.hasher := hasher;
      calls := 0;
      var p, entries, i := Preload(source, k);
      pos, prevChars, prevI := p, entries, i;
    }

    /** One call of the closure: the next clipped window and the hash of its bytes. */
    method Next() returns (sub: seq<char>, h: u64)
      requires Valid()
      modifies this
      ensures Valid() && calls == old(calls) + 1
      ensures sub == Clipped(source, old(calls), k)
      ensures h == hasher(Encode(sub))
    {
      pos, prevChars, prevI, sub, h := KeyedStep(hasher, source, k, calls, pos, prevChars, prevI);
      calls := calls + 1;
    }
  }

  /**
   * The bytes the rolling hash covers after e calls: from the character
   * before the next window to the last character read.
   */
  ghost function Covered(s: seq<char>, k: nat, e: nat): seq<u8>
    requires 1 <= k
  {
    Encode(s[EntryLo(|s|, e)..Min(e + k - 1, |s|)])
  }

  /**
   * One call rolls the covered bytes on: they start with the bytes of the
   * popped character, dropping those and appending the character just
   * passed gives the bytes covered after the call, which are the window's.
   * The exponent the closure hands to `remove` for byte 0 of the popped
   * character is the number of covered bytes.
   */
  lemma RollCovered(s: seq<char>, k: nat, e: nat, pos: nat, entries: seq<(seq<char>, nat)>, prevI: nat)
    requires EntriesAt(s, k, e, pos, entries, prevI)
    ensures |Encode(entries[0].0)| <= |Covered(s, k, e)|
    ensures Covered(s, k, e)[..|Encode(entries[0].0)|] == Encode(entries[0].0)
    ensures Covered(s, k, e)[|Encode(entries[0].0)|..] + Encode(s[Min(e + k - 1, |s|)..Min(e + k, |s|)])
         == Covered(s, k, e + 1)
    ensures Covered(s, k, e + 1) == Encode(Clipped(s, e, k))
    ensures entries[0].1 <= prevI
    ensures prevI - entries[0].1 + |Encode(entries[0].0)| == |Covered(s, k, e)| <= 4 * k
  {
    var n := |s|;
    var lo, mid, hi, top := EntryLo(n, e), Min(e, n), Min(e + k - 1, n), Min(e + k, n);
    assert entries[0] == Entry(s, e + 0);
    CoveredSplit(s, k, e);
    CoveredNext(s, k, e);
    OffsetSlice(s, mid, hi);
    EncodeBound(s[lo..hi]);
  }

  /** The covered bytes are the popped character's bytes, then those of the characters after it. */
  lemma CoveredSplit(s: seq<char>, k: nat, e: nat)
    requires 1 <= k <= |s|
    ensures Covered(s, k, e)
         == Encode(Entry(s, e).0) + Encode(s[Min(e, |s|)..Min(e + k - 1, |s|)])
  {
    var n := |s|;
    var lo, mid, hi := EntryLo(n, e), Min(e, n), Min(e + k - 1, n);
    assert s[lo..hi] == s[lo..mid] + s[mid..hi];
    EncodeAppend(s[lo..mid], s[mid..hi]);
  }

  /** After the call the covered bytes are those of the window just returned. */
  lemma CoveredNext(s: seq<char>, k: nat, e: nat)
    requires 1 <= k <= |s|
    ensures Covered(s, k, e + 1)
         == Encode(s[Min(e, |s|)..Min(e + k - 1, |s|)]) + Encode(s[Min(e + k - 1, |s|)..Min(e + k, |s|)])
    ensures Covered(s, k, e + 1) == Encode(Clipped(s, e, k))
  {
    var n := |s|;
    var mid, hi, top := Min(e, n), Min(e + k - 1, n), Min(e + k, n);
    assert EntryLo(n, e + 1) == mid && Min(e + 1 + k - 1, n) == top;
    assert s[mid..top] == s[mid..hi] + s[hi..top];
    EncodeAppend(s[mid..hi], s[hi..top]);
  }

  /**
   * The closure's `for_each` over the bytes of the character leaving the
   * window: byte j is removed with exponent `span - j`, the number of bytes
   * from it to the end of the hashed bytes (cast to `u32`).
   */
  method RollOut(hash: RollingPolynomial, oldBytes: seq<u8>, span: nat, ghost covered: seq<u8>)
    requires hash.hash == PolyHash(covered, hash.salt)
    requires |oldBytes| <= |covered| == span < 0x1_0000_0000 && covered[..|oldBytes|] == oldBytes
    modifies hash
    ensures hash.salt == old(hash.salt) && hash.hash == PolyHash(covered[|oldBytes|..], hash.salt)
  {
    var j := 0;
    while j < |oldBytes|
      invariant 0 <= j <= |oldBytes|
      invariant hash.salt == old(hash.salt) && hash.hash == PolyHash(covered[j..], hash.salt)
    {
      RemoveLeading(covered[j..], hash.salt);
      assert covered[j..][1..] == covered[j + 1..];
      assert covered[j..][0] == oldBytes[j];
      hash.Remove((span - j) % 0x1_0000_0000, oldBytes[j]);
      j := j + 1;
    }
  }

  /**
   * The rolling extractor's state after e calls: the window state, and a
   * hash `h` with salt `hashSalt` holding the polynomial hash of the covered
   * bytes under `salt`.
   */
  ghost predicate RollingAt(s: seq<char>, k: nat, e: nat, pos: nat, entries: seq<(seq<char>, nat)>, prevI: nat,
                            salt: u64, h: u64, hashSalt: u64)
  {
    && EntriesAt(s, k, e, pos, entries, prevI)
    && k < 0x4000_0000
    && hashSalt == salt
    && h == PolyHash(Covered(s, k, e), salt)
  }

  /**
   * The hash updates of one call of the closure: remove the bytes of the
   * popped character, then absorb those of the character just passed.
   */
  method RollHash(hash: RollingPolynomial, source: seq<char>, k: nat, ghost e: nat, pos: nat,
                  entries: seq<(seq<char>, nat)>, prevI: nat, nextChar: seq<char>,
                  ghost salt: u64, ghost pos': nat, ghost entries': seq<(seq<char>, nat)>, ghost prevI': nat)
    requires RollingAt(source, k, e, pos, entries, prevI, salt, hash.hash, hash.salt)
    requires EntriesAt(source, k, e + 1, pos', entries', prevI')
    requires nextChar == source[Min(e + k - 1, |source|)..Min(e + k, |source|)]
    modifies hash
    ensures RollingAt(source, k, e + 1, pos', entries', prevI', salt, hash.hash, hash.salt)
    ensures hash.hash == PolyHash(Encode(Clipped(source, e, k)), salt)
  {
    ghost var covered := Covered(source, k, e);
    RollCovered(source, k, e, pos, entries, prevI);
    var oldChar, oldOffset := entries[0].0, entries[0].1;
    var oldBytes := Encode(oldChar);
    RollOut(hash, oldBytes, prevI - oldOffset + |oldBytes|, covered);
    hash.UpdateBuffer(Encode(nextChar));
    AbsorbExtends(covered[|oldBytes|..], hash.salt, Encode(nextChar));
  }

  /** One call of the rolling closure, on the window state it captures and its hasher. */
  method PolyStep(hash: RollingPolynomial, source: seq<char>, k: nat, ghost e: nat, pos: nat,
                  entries: seq<(seq<char>, nat)>, prevI: nat, ghost salt: u64)
    returns (pos': nat, entries': seq<(seq<char>, nat)>, prevI': nat, sub: seq<char>, h: u64)
    requires RollingAt(source, k, e, pos, entries, prevI, salt, hash.hash, hash.salt)
    modifies hash
    ensures RollingAt(source, k, e + 1, pos', entries', prevI', salt, hash.hash, hash.salt)
    ensures sub == Clipped(source, e, k)
    ensures h == PolyHash(Encode(sub), salt)
  {
    pos', entries', prevI', sub := Advance(source, k, e, pos, entries, prevI);
    RollHash(hash, source, k, e, pos, entries, prevI, entries'[k - 1].0, salt, pos', entries', prevI');
    h := hash.Hash();
  }

  /**
   * The closure returned by `build_rolling_polynomial_substring`: the same
   * window state as `KeyedWindows`, and a `RollingPolynomial` that the
   * closure rolls along, removing the bytes of the character that leaves
   * and absorbing those of the character that enters.
   */
  class PolyWindows {
    const source: seq<char>
    const k: nat
    const hash: RollingPolynomial
    /** The salt `hash` was created with. */
    ghost const salt: u64
    var pos: nat
    var prevChars: seq<(seq<char>, nat)>
    var prevI: nat
    ghost var calls: nat

    /**
     * The window state, and `hash` holding the polynomial hash of the bytes
     * from the character before the next window to the last character read.
     */
    ghost predicate Valid()
      reads this, hash
    {
      RollingAt(source, k, calls, pos, prevChars, prevI, salt, hash.hash, hash.salt)
    }

    /** `build_rolling_polynomial_substring`: pre-loads k characters and hashes the first k - 1. */
    constructor Build(source: seq<char>, k: nat, draws: seq<u8>)
      requires 1 <= k <= |source| && k < 0x4000_0000
      requires exists i :: 0 <= i < |draws| && draws[i] >= 2
      ensures this.source == source && this.k == k && salt == FirstSalt(draws)
      ensures Valid() && calls == 0 && fresh(hash)
    {
      var p, entries, i := Preload(source, k);
      OffsetSlice(source, 0, k - 1);
      this.source := source;
      this.k := k;
      hash := new RollingPolynomial.FromBuffer(Encode(source)[..i], draws);
      salt := FirstSalt(draws);
      pos, prevChars, prevI := p, entries, i;
      calls := 0;
    }

    /** The same set-up with a salt chosen by the caller (`RollingPolynomial::from_buffer_with_salt`). */
    constructor BuildWithSalt(source: seq<char>, k: nat, salt: u64)
      requires 1 <= k <= |source| && k < 0x4000_0000
      ensures this.source == source && this.k == k && this.salt == salt
      ensures Valid() && calls == 0 && fresh(hash)
    {
      var p, entries, i := Preload(source, k);
      OffsetSlice(source, 0, k - 1);
      this.source := source;
      this.k := k;
      hash := new RollingPolynomial.FromBufferWithSalt(Encode(source)[..i], salt);
      this.salt := salt;
      pos, prevChars, prevI := p, entries, i;
      calls := 0;
    }

    /**
     * One call of the closure: the next clipped window, and the rolled hash,
     * which is the polynomial hash of the window's bytes.
     */
    method Next() returns (sub: seq<char>, h: u64)
      requires Valid()
      modifies this, hash
      ensures Valid() && calls == old(calls) + 1
      ensures sub == Clipped(source, old(calls), k)
      ensures h == PolyHash(Encode(sub), salt)
    {
      pos, prevChars, prevI, sub, h := PolyStep(hash, source, k, calls, pos, prevChars, prevI, salt);
      calls := calls + 1;
    }
  }
}
