/**
 * The matching engines. Each indexes the windows of one string in a hash
 * table and scans the windows of the other for one the table holds; they
 * differ in how windows are cut out (a vector of character offsets, the
 * `next_substring` deque, or a builder's closure), in the hash behind the
 * table, and in which string is indexed.
 *
 * `std::collections::HashSet` and `FxHashSet` of string slices are sets of
 * the slices' texts here: with a hash consistent with equality, membership
 * does not depend on which hash the set uses.
 */
module Implementations {
  import opened Options
  import opened Utf8
  import opened Hashers
  import opened Windows
  import opened MatchTable
  import Spec

  // ---- windows cut out with a vector of character offsets ----

  /**
   * `&s[cis[i]..*cis.get(i + k).unwrap_or(&s.len())]`: the window of k
   * characters at character i, sliced by byte offsets.
   */
  function SliceWindow(s: seq<char>, cis: seq<nat>, i: nat, k: nat): (w: seq<char>)
    requires cis == CharStarts(s) && i + k <= |s| && i < |s|
    ensures w == Spec.Win(s, k, i)
  {
    var start := cis[i];
    var end := if i + k < |cis| then cis[i + k] else |Encode(s)|;
    WindowOffsets(s, cis, i, k);
    SliceAtOffsets(s, i, i + k);
    SliceBytes(s, start, end)
  }

  /** The offsets `SliceWindow` slices at are those of the window's first character and of the one after it. */
  lemma WindowOffsets(s: seq<char>, cis: seq<nat>, i: nat, k: nat)
    requires cis == CharStarts(s) && i + k <= |s| && i < |s|
    ensures cis[i] == Offset(s, i)
    ensures (if i + k < |cis| then cis[i + k] else |Encode(s)|) == Offset(s, i + k)
  {
    if i + k == |s| {
      assert s[..|s|] == s;
    }
  }

  /**
   * `_naive_substring` and `_naive_prereserve_substring` (which differ only
   * in the table's initial capacity): every window of s1 goes into a set,
   * then the first window of s2 found in the set is the answer.
   */
  method NaiveSubstring(s1: seq<char>, s2: seq<char>, k: nat) returns (r: Option<seq<char>>)
    ensures r == Spec.ReferenceSubstring(s1, s2, k)
  {
    if k == 0 {
      return Some([]);
    }
    var cis1 := CharStarts(s1);
    var cis2 := CharStarts(s2);
    if |cis1| < k || |cis2| < k {
      Spec.ShortInputs(s1, s2, k);
      return None;
    }
    var substrings := SlicedWindows(s1, cis1, k);
    for i := 0 to |cis2| - k + 1
      invariant Spec.FirstCommon(s2, s1, k, i) == Spec.FirstCommon(s2, s1, k, 0)
    {
      var sub := SliceWindow(s2, cis2, i, k);
      Spec.OccursIffWindow(s1, k, sub);
      if sub in substrings {
        return Some(sub);
      }
    }
    return None;
  }

  /** The first loop of the naive engines: the set of every window of `s`, each sliced by byte offsets. */
  method SlicedWindows(s: seq<char>, cis: seq<nat>, k: nat) returns (substrings: set<seq<char>>)
    requires cis == CharStarts(s) && 1 <= k <= |s|
    ensures substrings == Spec.AllWindows(s, k)
  {
    substrings := {};
    for i := 0 to |cis| - k + 1
      invariant substrings == Spec.Windows(s, k, i)
    {
      var sub := SliceWindow(s, cis, i, k);
      substrings := substrings + {sub};
    }
  }

  // ---- windows cut out with `next_substring` ----

  /**
   * The two loops of the `next_substring` engines: every window of `index`
   * goes into a set (after which its iterator is exhausted), then the
   * windows of `scan` are checked in order against the set.
   */
  method IndexThenScan(index: seq<char>, scan: seq<char>, k: nat) returns (r: Option<seq<char>>)
    requires 1 <= k <= |index| && k <= |scan|
    ensures r == Spec.FirstCommon(scan, index, k, 0)
  {
    var substrings: set<seq<char>> := {};
    var cs1 := new CharWindows.Preload(index, k);
    var cs2 := new CharWindows.Preload(scan, k);
    for i := k to |index| + 1
      invariant cs1.Valid() && cs1.calls == i - k
      invariant substrings == Spec.Windows(index, k, i - k)
      modifies cs1
    {
      ClippedWindow(index, cs1.calls, k);
      var sub := cs1.Next();
      substrings := substrings + {sub};
    }
    var done := cs1.Exhausted();
    assert done;
    assert substrings == Spec.AllWindows(index, k);
    for i := k to |scan| + 1
      invariant cs2.Valid() && cs2.calls == i - k
      invariant Spec.FirstCommon(scan, index, k, cs2.calls) == Spec.FirstCommon(scan, index, k, 0)
      modifies cs2
    {
      ClippedWindow(scan, cs2.calls, k);
      var sub := cs2.Next();
      Spec.OccursIffWindow(index, k, sub);
      if sub in substrings {
        return Some(sub);
      }
    }
    done := cs2.Exhausted();
    assert done;
    return None;
  }

  /**
   * `_naive_prereserve_iter_substring` and
   * `_naive_prereserve_iter_fx_substring` (which differ only in the hash
   * the set uses): s1 is indexed and s2 scanned, so the answer is the
   * oracle's.
   */
  method NaiveIterSubstring(s1: seq<char>, s2: seq<char>, k: nat) returns (r: Option<seq<char>>)
    ensures r == Spec.ReferenceSubstring(s1, s2, k)
  {
    if k == 0 {
      return Some([]);
    }
    if |s1| < k || |s2| < k {
      Spec.ShortInputs(s1, s2, k);
      return None;
    }
    r := IndexThenScan(s1, s2, k);
  }

  /**
   * `_naive_prereserve_iter_fx_shorter_substring`: the string with fewer
   * characters is indexed (s1 on a tie) and the other scanned.
   */
  method ShorterSubstring(s1: seq<char>, s2: seq<char>, k: nat) returns (r: Option<seq<char>>)
    ensures r == Spec.ShorterFirstSubstring(s1, s2, k)
  {
    if k == 0 {
      return Some([]);
    }
    if |s1| < k || |s2| < k {
      Spec.ShortInputs(s1, s2, k);
      return None;
    }
    var (shorter, longer) := if |s1| <= |s2| then (s1, s2) else (s2, s1);
    r := IndexThenScan(shorter, longer, k);
  }

  // ---- the rolling-hash engines: a RawTable keyed by the builders' hashes ----

  /** The table holds each window of `ws` under its hash, and nothing else. */
  ghost predicate Indexes(entries: seq<(u64, seq<char>)>, ws: set<seq<char>>, hashOf: seq<u8> -> u64)
  {
    && (forall i :: 0 <= i < |entries| ==> entries[i].1 in ws && entries[i].0 == hashOf(Encode(entries[i].1)))
    && (forall w :: w in ws ==> (hashOf(Encode(w)), w) in entries)
  }

  /** A lookup finds a text exactly when it is indexed and was hashed to the hash looked up. */
  lemma IndexedFind(entries: seq<(u64, seq<char>)>, ws: set<seq<char>>, hashOf: seq<u8> -> u64,
                    hash: u64, key: seq<char>)
    requires Indexes(entries, ws, hashOf)
    ensures (exists i :: 0 <= i < |entries| && entries[i] == (hash, key))
        <==> key in ws && hashOf(Encode(key)) == hash
  {
    if key in ws && hashOf(Encode(key)) == hash {
      var i :| 0 <= i < |entries| && entries[i] == (hashOf(Encode(key)), key);
    }
  }

  /** Looking a window up and inserting it when missing indexes one more window. */
  lemma IndexesStep(entries: seq<(u64, seq<char>)>, entries': seq<(u64, seq<char>)>, ws: set<seq<char>>,
                    hashOf: seq<u8> -> u64, sub: seq<char>)
    requires Indexes(entries, ws, hashOf)
    requires entries' == entries + [(hashOf(Encode(sub)), sub)] || (entries' == entries && sub in ws)
    ensures Indexes(entries', ws + {sub}, hashOf)
  {
    if entries' != entries {
      forall w | w in ws + {sub}
        ensures (hashOf(Encode(w)), w) in entries'
      {
        if w != sub {
          var i :| 0 <= i < |entries| && entries[i] == (hashOf(Encode(w)), w);
          assert entries'[i] == entries[i];
        } else {
          assert entries'[|entries|] == (hashOf(Encode(w)), w);
        }
      }
    }
  }

  /**
   * One turn of the insertion loop: looks the window up under its hash and,
   * when it is missing, inserts it, which cannot fail while the table has
   * room for it.
   */
  method InsertWindow(substrings: RawTable, ghost ws: set<seq<char>>, ghost hashOf: seq<u8> -> u64,
                      hash: u64, sub: seq<char>)
    requires Indexes(substrings.entries, ws, hashOf) && hash == hashOf(Encode(sub))
    requires |substrings.entries| < substrings.capacity
    modifies substrings
    ensures Indexes(substrings.entries, ws + {sub}, hashOf)
    ensures |substrings.entries| <= |old(substrings.entries)| + 1
  {
    ghost var before := substrings.entries;
    IndexedFind(substrings.entries, ws, hashOf, hash, sub);
    var found := substrings.Find(hash, sub);
    if !found {
      var ok := substrings.TryInsertNoGrow(hash, sub);
      assert ok;
    }
    IndexesStep(before, substrings.entries, ws, hashOf, sub);
  }

  /**
   * The insertion loop of the rolling-hash engines: each window of `shorter`
   * is looked up under its hash and inserted when missing. Every insertion
   * succeeds, because the table is created with room for one entry per
   * character of `shorter` and holds at most one per window.
   */
  method IndexKeyed(shorter: seq<char>, k: nat, subFn: KeyedWindows) returns (substrings: RawTable)
    requires subFn.Valid() && subFn.calls == 0 && subFn.source == shorter && subFn.k == k
    modifies subFn
    ensures fresh(substrings)
    ensures subFn.Valid() && subFn.calls == |shorter| - k + 1
    ensures Indexes(substrings.entries, Spec.AllWindows(shorter, k), subFn.hasher)
  {
    substrings := new RawTable.WithCapacity(|shorter|);
    for i := k to |shorter| + 1
      invariant subFn.Valid() && subFn.calls == i - k
      invariant Indexes(substrings.entries, Spec.Windows(shorter, k, i - k), subFn.hasher)
      invariant |substrings.entries| <= i - k
      modifies subFn, substrings
    {
      ghost var ws := Spec.Windows(shorter, k, i - k);
      ClippedWindow(shorter, subFn.calls, k);
      var sub, hash := subFn.Next();
      InsertWindow(substrings, ws, subFn.hasher, hash, sub);
    }
  }

  /**
   * The lookup loop of the rolling-hash engines: the windows of `longer`
   * are looked up in order under their hashes, and the first one found is
   * returned.
   */
  method ScanKeyed(shorter: seq<char>, longer: seq<char>, k: nat, subFn: KeyedWindows, substrings: RawTable)
    returns (r: Option<seq<char>>)
    requires 1 <= k <= |shorter| && k <= |longer|
    requires subFn.Valid() && subFn.calls == 0 && subFn.source == longer && subFn.k == k
    requires Indexes(substrings.entries, Spec.AllWindows(shorter, k), subFn.hasher)
    modifies subFn
    ensures r == Spec.FirstCommon(longer, shorter, k, 0)
    ensures subFn.Valid() && (r.None? ==> subFn.calls == |longer| - k + 1)
  {
    for i := k to |longer| + 1
      invariant subFn.Valid() && subFn.calls == i - k
      invariant Spec.FirstCommon(longer, shorter, k, subFn.calls) == Spec.FirstCommon(longer, shorter, k, 0)
    {
      ClippedWindow(longer, subFn.calls, k);
      var sub, hash := subFn.Next();
      IndexedFind(substrings.entries, Spec.AllWindows(shorter, k), subFn.hasher, hash, sub);
      Spec.OccursIffWindow(shorter, k, sub);
      var found := substrings.Find(hash, sub);
      if found {
        return Some(sub);
      }
    }
    return None;
  }

  /**
   * `_naive_prereserve_iter_rolling_adler_shorter_substring`: the shorter
   * string's windows go into a `RawTable` under their Adler-32 hashes, then
   * the longer string's windows are looked up under theirs.
   */
  method RollingAdlerShorterSubstring(s1: seq<char>, s2: seq<char>, k: nat, adler32: seq<u8> -> u64)
    returns (r: Option<seq<char>>)
    ensures r == Spec.ShorterFirstSubstring(s1, s2, k)
  {
    if k == 0 {
      return Some([]);
    }
    if |s1| < k || |s2| < k {
      Spec.ShortInputs(s1, s2, k);
      return None;
    }
    var (shorter, longer) := if |s1| <= |s2| then (s1, s2) else (s2, s1);
    var shortSubFn := new KeyedWindows.Build(shorter, k, adler32);
    var longSubFn := new KeyedWindows.Build(longer, k, adler32);
    var substrings := IndexKeyed(shorter, k, shortSubFn);
    ClippedWindow(shorter, shortSubFn.calls, k);
    var tail, tailHash := shortSubFn.Next();
    assert |tail| < k;
    r := ScanKeyed(shorter, longer, k, longSubFn, substrings);
    if r.Some? {
      return;
    }
    ClippedWindow(longer, longSubFn.calls, k);
    tail, tailHash := longSubFn.Next();
    assert |tail| < k;
    return None;
  }

  // ---- the rolling polynomial engine ----

  /** The key function of a table filled from polynomial windows hashed with `salt`. */
  function PolyHashOf(salt: u64): seq<u8> -> u64
  {
    bs => PolyHash(bs, salt)
  }

  /**
   * The insertion loop over a polynomial builder: as for the keyed
   * builders, every window goes in under its hash, and no insertion fails.
   */
  method IndexPoly(shorter: seq<char>, k: nat, subFn: PolyWindows) returns (substrings: RawTable)
    requires subFn.Valid() && subFn.calls == 0 && subFn.source == shorter && subFn.k == k
    modifies subFn, subFn.hash
    ensures fresh(substrings)
    ensures subFn.Valid() && subFn.calls == |shorter| - k + 1
    ensures Indexes(substrings.entries, Spec.AllWindows(shorter, k), PolyHashOf(subFn.salt))
  {
    substrings := new RawTable.WithCapacity(|shorter|);
    for i := k to |shorter| + 1
      invariant subFn.Valid() && subFn.calls == i - k
      invariant Indexes(substrings.entries, Spec.Windows(shorter, k, i - k), PolyHashOf(subFn.salt))
      invariant |substrings.entries| <= i - k
      modifies subFn, subFn.hash, substrings
    {
      ghost var ws := Spec.Windows(shorter, k, i - k);
      ClippedWindow(shorter, subFn.calls, k);
      var sub, hash := subFn.Next();
      InsertWindow(substrings, ws, PolyHashOf(subFn.salt), hash, sub);
    }
  }

  /**
   * The lookup loop over a polynomial builder whose salt may differ from
   * the one the table was filled with: a window is found when it is indexed
   * and both salts give it the same hash.
   */
  method ScanPoly(shorter: seq<char>, longer: seq<char>, k: nat, ghost tableSalt: u64, subFn: PolyWindows,
                  substrings: RawTable)
    returns (r: Option<seq<char>>)
    requires 1 <= k <= |shorter| && k <= |longer|
    requires subFn.Valid() && subFn.calls == 0 && subFn.source == longer && subFn.k == k
    requires Indexes(substrings.entries, Spec.AllWindows(shorter, k), PolyHashOf(tableSalt))
    modifies subFn, subFn.hash
    ensures r == FirstSameHash(longer, shorter, k, 0, tableSalt, subFn.salt)
    ensures subFn.Valid() && (r.None? ==> subFn.calls == |longer| - k + 1)
  {
    for i := k to |longer| + 1
      invariant subFn.Valid() && subFn.calls == i - k
      invariant FirstSameHash(longer, shorter, k, subFn.calls, tableSalt, subFn.salt)
             == FirstSameHash(longer, shorter, k, 0, tableSalt, subFn.salt)
    {
      ClippedWindow(longer, subFn.calls, k);
      var sub, hash := subFn.Next();
      IndexedFind(substrings.entries, Spec.AllWindows(shorter, k), PolyHashOf(tableSalt), hash, sub);
      Spec.OccursIffWindow(shorter, k, sub);
      var found := substrings.Find(hash, sub);
      if found {
        return Some(sub);
      }
    }
    return None;
  }

  /**
   * `_naive_prereserve_iter_rolling_poly_shorter_substring` as written:
   * each of the two builders draws its own salt (`from_buffer` calls
   * `new`), so the shorter string's windows are stored under hashes taken
   * with one salt and the longer string's are looked up under hashes taken
   * with another.
   */
  method PolyShorterSubstringAsWritten(s1: seq<char>, s2: seq<char>, k: nat, draws1: seq<u8>, draws2: seq<u8>)
    returns (r: Option<seq<char>>)
    requires k < 0x4000_0000
    requires exists i :: 0 <= i < |draws1| && draws1[i] >= 2
    requires exists i :: 0 <= i < |draws2| && draws2[i] >= 2
    ensures r == PolyShorterAsWritten(s1, s2, k, FirstSalt(draws1), FirstSalt(draws2))
  {
    if k == 0 {
      return Some([]);
    }
    if |s1| < k || |s2| < k {
      return None;
    }
    var (shorter, longer) := if |s1| <= |s2| then (s1, s2) else (s2, s1);
    var shortSubFn := new PolyWindows.Build(shorter, k, draws1);
    var longSubFn := new PolyWindows.Build(longer, k, draws2);
    r := PolyIndexThenScan(shorter, longer, k, shortSubFn, longSubFn);
  }

  /**
   * `_naive_prereserve_iter_rolling_poly_shorter_substring` with one salt
   * drawn and shared by both builders (`from_buffer_with_salt`): the answer
   * is the shorter-first search's.
   */
  method PolyShorterSubstring(s1: seq<char>, s2: seq<char>, k: nat, draws: seq<u8>) returns (r: Option<seq<char>>)
    requires k < 0x4000_0000
    requires exists i :: 0 <= i < |draws| && draws[i] >= 2
    ensures r == Spec.ShorterFirstSubstring(s1, s2, k)
  {
    if k == 0 {
      return Some([]);
    }
    if |s1| < k || |s2| < k {
      Spec.ShortInputs(s1, s2, k);
      return None;
    }
    var (shorter, longer) := if |s1| <= |s2| then (s1, s2) else (s2, s1);
    assert Spec.ShorterFirstSubstring(s1, s2, k) == Spec.ReferenceSubstring(shorter, longer, k);
    var salt := SampleSalt(draws);
    var shortSubFn := new PolyWindows.BuildWithSalt(shorter, k, salt);
    var longSubFn := new PolyWindows.BuildWithSalt(longer, k, salt);
    r := PolyIndexThenScan(shorter, longer, k, shortSubFn, longSubFn);
    SharedSaltFirst(longer, shorter, k, 0, salt);
  }

  /**
   * The two loops of the polynomial engine, with the sanity checks after
   * each: once a builder has returned every window, its next window is
   * shorter than k.
   */
  method PolyIndexThenScan(shorter: seq<char>, longer: seq<char>, k: nat, shortSubFn: PolyWindows, longSubFn: PolyWindows)
    returns (r: Option<seq<char>>)
    requires 1 <= k <= |shorter| && k <= |longer|
    requires shortSubFn.Valid() && shortSubFn.calls == 0 && shortSubFn.source == shorter && shortSubFn.k == k
    requires longSubFn.Valid() && longSubFn.calls == 0 && longSubFn.source == longer && longSubFn.k == k
    requires {shortSubFn, shortSubFn.hash} !! {longSubFn, longSubFn.hash}
    modifies shortSubFn, shortSubFn.hash, longSubFn, longSubFn.hash
    ensures r == FirstSameHash(longer, shorter, k, 0, shortSubFn.salt, longSubFn.salt)
  {
    var substrings := IndexPoly(shorter, k, shortSubFn);
    ClippedWindow(shorter, shortSubFn.calls, k);
    var tail, tailHash := shortSubFn.Next();
    assert |tail| < k;
    r := ScanPoly(shorter, longer, k, shortSubFn.salt, longSubFn, substrings);
    if r.Some? {
      return;
    }
    ClippedWindow(longer, longSubFn.calls, k);
    tail, tailHash := longSubFn.Next();
    assert |tail| < k;
  }

  /**
   * What the polynomial engine as written returns for salts `salt1` (the
   * shorter string's) and `salt2` (the longer string's).
   */
  function PolyShorterAsWritten(s1: seq<char>, s2: seq<char>, k: nat, salt1: u64, salt2: u64): Option<seq<char>>
  {
    if k == 0 then Some([])
    else if |s1| < k || |s2| < k then None
    else if |s1| <= |s2| then FirstSameHash(s2, s1, k, 0, salt1, salt2)
    else FirstSameHash(s1, s2, k, 0, salt1, salt2)
  }

  /**
   * The first window of `scan`, from window `from` on, that occurs in
   * `index` and has the same polynomial hash under both salts.
   */
  function FirstSameHash(scan: seq<char>, index: seq<char>, k: nat, from: nat, salt1: u64, salt2: u64)
    : Option<seq<char>>
    requires k <= |scan| && from <= |scan| - k + 1
    decreases |scan| - k + 1 - from
  {
    if from == |scan| - k + 1 then None
    else
      var w := Spec.Win(scan, k, from);
      if Spec.Occurs(w, index) && PolyHash(Encode(w), salt1) == PolyHash(Encode(w), salt2) then Some(w)
      else FirstSameHash(scan, index, k, from + 1, salt1, salt2)
  }

  /** With one salt the hash condition always holds, and the search is the first common window. */
  lemma {:induction false} SharedSaltFirst(scan: seq<char>, index: seq<char>, k: nat, from: nat, salt: u64)
    requires k <= |scan| && from <= |scan| - k + 1
    ensures FirstSameHash(scan, index, k, from, salt, salt) == Spec.FirstCommon(scan, index, k, from)
    decreases |scan| - k + 1 - from
  {
    if from < |scan| - k + 1 {
      SharedSaltFirst(scan, index, k, from + 1, salt);
    }
  }

  /** Whatever the search with two salts finds is a window of `scan` that occurs in `index`. */
  lemma {:induction false} FirstSameHashSound(scan: seq<char>, index: seq<char>, k: nat, from: nat,
                                              salt1: u64, salt2: u64)
    requires k <= |scan| && from <= |scan| - k + 1
    requires FirstSameHash(scan, index, k, from, salt1, salt2).Some?
    ensures exists i: nat | from <= i && i + k <= |scan| ::
      FirstSameHash(scan, index, k, from, salt1, salt2).value == Spec.Win(scan, k, i)
    ensures Spec.Occurs(FirstSameHash(scan, index, k, from, salt1, salt2).value, index)
    decreases |scan| - k + 1 - from
  {
    var w := Spec.Win(scan, k, from);
    if !(Spec.Occurs(w, index) && PolyHash(Encode(w), salt1) == PolyHash(Encode(w), salt2)) {
      FirstSameHashSound(scan, index, k, from + 1, salt1, salt2);
    }
  }

  /**
   * The engine as written never returns a wrong answer: what it finds is a
   * common window of k characters. With equal salts it is the shorter-first
   * search.
   */
  lemma PolyAsWrittenSpec(s1: seq<char>, s2: seq<char>, k: nat, salt1: u64, salt2: u64)
    ensures PolyShorterAsWritten(s1, s2, k, salt1, salt2).Some? ==>
      Spec.UnorderedSubstringCorrect(PolyShorterAsWritten(s1, s2, k, salt1, salt2).value, s1, s2, k)
    ensures salt1 == salt2 ==> PolyShorterAsWritten(s1, s2, k, salt1, salt2) == Spec.ShorterFirstSubstring(s1, s2, k)
  {
    if k == 0 {
      assert Spec.Win(s1, 0, 0) == [] && Spec.Win(s2, 0, 0) == [];
    } else if |s1| < k || |s2| < k {
      Spec.ShortInputs(s1, s2, k);
    } else {
      var (index, scan) := if |s1| <= |s2| then (s1, s2) else (s2, s1);
      SharedSaltFirst(scan, index, k, 0, salt1);
      if FirstSameHash(scan, index, k, 0, salt1, salt2).Some? {
        FirstSameHashSound(scan, index, k, 0, salt1, salt2);
        var i: nat :| i + k <= |scan| && FirstSameHash(scan, index, k, 0, salt1, salt2).value == Spec.Win(scan, k, i);
        Spec.WindowOccurs(scan, k, i);
      }
    }
  }

  /**
   * The two salts lose a common window: for s1 = s2 = "substring" and
   * k = 9, with salts 2 and 255 the window's hashes are 57879 and
   * 16623256095473053777, so the engine as written finds nothing, while
   * "substring" is the shorter-first answer. The two hashes also carry
   * different tags (0 and 115), and hashbrown compares a stored text only
   * when its tag matches the one looked up, so the lookup misses in the real
   * table as well.
   */
  lemma AsWrittenMissesCommonWindow()
    ensures PolyShorterAsWritten("substring", "substring", 9, 2, 255) == None
    ensures Spec.ShorterFirstSubstring("substring", "substring", 9) == Some("substring")
    ensures Tag(PolyHash(Encode("substring"), 2)) != Tag(PolyHash(Encode("substring"), 255))
  {
    var w := Spec.Win("substring", 9, 0);
    assert w == "substring";
    WitnessHashes();
    Spec.WindowOccurs("substring", 9, 0);
  }

  /** The hashes of "substring" under salts 2 and 255, and their tags. */
  lemma WitnessHashes()
    ensures PolyHash(Encode("substring"), 2) == 57879
    ensures PolyHash(Encode("substring"), 255) == 16623256095473053777
    ensures Tag(57879) == 0 && Tag(16623256095473053777) == 115
  {
    WitnessHash2();
    WitnessHash255();
    WitnessTags();
  }

  lemma WitnessHash2()
    ensures PolyHash(Encode("substring"), 2) == 57879
  {
    EncodeWitness();
    WitnessSum2();
  }

  lemma WitnessHash255()
    ensures PolyHash(Encode("substring"), 255) == 16623256095473053777
  {
    EncodeWitness();
    WitnessSum255();
  }

  /** 57879 lies in the lowest 2^57 block, 16623256095473053777 in block 115. */
  lemma WitnessTags()
    ensures Tag(57879) == 0 && Tag(16623256095473053777) == 115
  {
  }

  /** The UTF-8 bytes of "substring", one ASCII byte per character. */
  lemma EncodeWitness()
    ensures Encode("substring") == [115, 117, 98, 115, 116, 114, 105, 110, 103]
  {
    assert "substring" == "subs" + "tring";
    EncodeAppend("subs", "tring");
    EncodeSubs();
    EncodeTring();
  }

  lemma EncodeSubs()
    ensures Encode("subs") == [115, 117, 98, 115]
  {
  }

  lemma EncodeTring()
    ensures Encode("tring") == [116, 114, 105, 110, 103]
  {
  }

  /** The unreduced polynomial of the bytes of "substring" under salt 2. */
  lemma WitnessSum2()
    ensures PolySum([115, 117, 98, 115, 116, 114, 105, 110, 103], 2) == 57879
  {
  }

  /** The unreduced polynomial of the bytes of "substring" under salt 255. */
  lemma WitnessSum255()
    ensures PolySum([115, 117, 98, 115, 116, 114, 105, 110, 103], 255) == 2064211848277233283153
  {
  }

  // ---- the alternating engine ----

  /** No window among the first `c1` of s1 equals one among the first `c2` of s2. */
  ghost predicate NoCommonBefore(s1: seq<char>, s2: seq<char>, k: nat, c1: nat, c2: nat)
  {
    forall a: nat, b: nat | a < c1 && b < c2 && a + k <= |s1| && b + k <= |s2| ::
      Spec.Win(s1, k, a) != Spec.Win(s2, k, b)
  }

  /** A window of s1 that is also among the first windows of s2 is a correct unordered answer. */
  lemma FoundInOther(s1: seq<char>, s2: seq<char>, k: nat, a: nat, count: nat)
    requires a + k <= |s1| && (count == 0 || count - 1 + k <= |s2|)
    requires Spec.Win(s1, k, a) in Spec.Windows(s2, k, count)
    ensures Spec.UnorderedSubstringCorrect(Spec.Win(s1, k, a), s1, s2, k)
    ensures Spec.HasCommonWindow(s1, s2, k)
  {
    Spec.WindowsMember(s2, k, count, Spec.Win(s1, k, a));
    var b: nat :| b < count && Spec.Win(s2, k, b) == Spec.Win(s1, k, a);
    Spec.WindowOccurs(s1, k, a);
    Spec.WindowOccurs(s2, k, b);
  }

  /**
   * One round of the alternating loop that finds nothing keeps the first
   * `c + 1` windows of each string apart.
   */
  lemma AlternateRound(s1: seq<char>, s2: seq<char>, k: nat, c: nat)
    requires c + k <= |s1| && c + k <= |s2|
    requires NoCommonBefore(s1, s2, k, c, c)
    requires Spec.Win(s1, k, c) !in Spec.Windows(s2, k, c + 1)
    requires Spec.Win(s2, k, c) !in Spec.Windows(s1, k, c + 1)
    ensures NoCommonBefore(s1, s2, k, c + 1, c + 1)
  {
    Spec.WindowsMember(s2, k, c + 1, Spec.Win(s1, k, c));
    Spec.WindowsMember(s1, k, c + 1, Spec.Win(s2, k, c));
  }

  /**
   * The state of the alternating loop after `c` rounds without a hit: each
   * set holds the first `c` windows of its string, and none of those
   * windows of s1 equals one of s2.
   */
  ghost predicate Phase1At(s1: seq<char>, s2: seq<char>, k: nat, c: nat, t1: set<seq<char>>, t2: set<seq<char>>)
  {
    && (c == 0 || (c - 1 + k <= |s1| && c - 1 + k <= |s2|))
    && t1 == Spec.Windows(s1, k, c) && t2 == Spec.Windows(s2, k, c)
    && NoCommonBefore(s1, s2, k, c, c)
  }

  /**
   * One round of the alternating loop: after inserting both new windows, a
   * hit in either set is a correct answer, and no hit keeps the loop state.
   */
  lemma Phase1Step(s1: seq<char>, s2: seq<char>, k: nat, c: nat, t1: set<seq<char>>, t2: set<seq<char>>,
                   sub1: seq<char>, sub2: seq<char>)
    requires 1 <= k && c + k <= |s1| && c + k <= |s2|
    requires Phase1At(s1, s2, k, c, t1, t2)
    requires sub1 == Clipped(s1, c, k) && sub2 == Clipped(s2, c, k)
    ensures sub1 in t2 + {sub2} ==> Spec.UnorderedSubstringCorrect(sub1, s1, s2, k) && Spec.HasCommonWindow(s1, s2, k)
    ensures sub2 in t1 + {sub1} ==> Spec.UnorderedSubstringCorrect(sub2, s1, s2, k) && Spec.HasCommonWindow(s1, s2, k)
    ensures sub1 !in t2 + {sub2} && sub2 !in t1 + {sub1} ==> Phase1At(s1, s2, k, c + 1, t1 + {sub1}, t2 + {sub2})
  {
    ClippedWindow(s1, c, k);
    ClippedWindow(s2, c, k);
    assert Spec.Windows(s1, k, c + 1) == t1 + {sub1};
    assert Spec.Windows(s2, k, c + 1) == t2 + {sub2};
    if sub1 in t2 + {sub2} {
      FoundInOther(s1, s2, k, c, c + 1);
    }
    if sub2 in t1 + {sub1} {
      FoundInOther(s2, s1, k, c, c + 1);
      Spec.CommonWindowSymmetric(s1, s2, k);
    }
    if sub1 !in t2 + {sub2} && sub2 !in t1 + {sub1} {
      AlternateRound(s1, s2, k, c);
    }
  }

  /**
   * The first phase of `_alternate_prereserve_iter_fx_substring`: both
   * strings advance one window per round; each window goes into its own
   * string's set and is then looked up in the other string's set. It stops
   * at the first hit or once the string with fewer characters is used up.
   */
  method AlternatePhase1(s1: seq<char>, s2: seq<char>, k: nat, cs1: CharWindows, cs2: CharWindows)
    returns (r: Option<seq<char>>, substrings1: set<seq<char>>, substrings2: set<seq<char>>)
    requires 1 <= k <= |s1| && k <= |s2| && cs1 != cs2
    requires cs1.Valid() && cs1.calls == 0 && cs1.source == s1 && cs1.k == k
    requires cs2.Valid() && cs2.calls == 0 && cs2.source == s2 && cs2.k == k
    modifies cs1, cs2
    ensures cs1.Valid() && cs2.Valid()
    ensures r.Some? ==> Spec.UnorderedSubstringCorrect(r.value, s1, s2, k) && Spec.HasCommonWindow(s1, s2, k)
    ensures r.None? ==>
      && cs1.calls == cs2.calls == Min(|s1|, |s2|) - k + 1
      && Phase1At(s1, s2, k, cs1.calls, substrings1, substrings2)
  {
    substrings1, substrings2 := {}, {};
    for i := k to Min(|s1|, |s2|) + 1
      invariant cs1.Valid() && cs2.Valid() && cs1.calls == cs2.calls == i - k
      invariant Phase1At(s1, s2, k, i - k, substrings1, substrings2)
    {
      ghost var t1, t2 := substrings1, substrings2;
      var sub1 := cs1.Next();
      substrings1 := substrings1 + {sub1};
      var sub2 := cs2.Next();
      substrings2 := substrings2 + {sub2};
      Phase1Step(s1, s2, k, i - k, t1, t2, sub1, sub2);
      if sub1 in substrings2 {
        return Some(sub1), substrings1, substrings2;
      } else if sub2 in substrings1 {
        return Some(sub2), substrings1, substrings2;
      }
    }
    return None, substrings1, substrings2;
  }

  /**
   * One round of the second phase: a window of the longer string found in
   * the shorter string's set is a correct answer, and one not found keeps
   * the windows apart for one more round.
   */
  lemma Phase2Step(shorter: seq<char>, longer: seq<char>, k: nat, c: nat, table: set<seq<char>>, sub: seq<char>)
    requires 1 <= k <= |shorter| && c + k <= |longer|
    requires table == Spec.AllWindows(shorter, k)
    requires NoCommonBefore(shorter, longer, k, |shorter| - k + 1, c)
    requires sub == Clipped(longer, c, k)
    ensures sub in table ==> Spec.UnorderedSubstringCorrect(sub, shorter, longer, k)
    ensures sub in table ==> Spec.HasCommonWindow(shorter, longer, k)
    ensures sub !in table ==> NoCommonBefore(shorter, longer, k, |shorter| - k + 1, c + 1)
  {
    ClippedWindow(longer, c, k);
    Spec.OccursIffWindow(shorter, k, sub);
    if sub in table {
      FoundInOther(longer, shorter, k, c, |shorter| - k + 1);
      Spec.CommonWindowSymmetric(shorter, longer, k);
    } else {
      Spec.WindowsMember(shorter, k, |shorter| - k + 1, sub);
    }
  }

  /** Once every window of both strings has been compared, no common window exists. */
  lemma NoCommonAtAll(s1: seq<char>, s2: seq<char>, k: nat)
    requires k <= |s1| && k <= |s2|
    requires NoCommonBefore(s1, s2, k, |s1| - k + 1, |s2| - k + 1)
    ensures !Spec.HasCommonWindow(s1, s2, k)
  {
  }

  /**
   * The second phase: the string with more characters goes on alone, each
   * window looked up in the other string's set, which by now holds all of
   * that string's windows.
   */
  method AlternatePhase2(shorter: seq<char>, longer: seq<char>, k: nat, cs: CharWindows, table: set<seq<char>>)
    returns (r: Option<seq<char>>)
    requires 1 <= k <= |shorter| <= |longer|
    requires cs.Valid() && cs.calls == |shorter| - k + 1 && cs.source == longer && cs.k == k
    requires table == Spec.AllWindows(shorter, k)
    requires NoCommonBefore(shorter, longer, k, |shorter| - k + 1, cs.calls)
    modifies cs
    ensures cs.Valid()
    ensures r.Some? ==> Spec.UnorderedSubstringCorrect(r.value, shorter, longer, k)
    ensures r.None? <==> !Spec.HasCommonWindow(shorter, longer, k)
    ensures r.None? ==> cs.calls == |longer| - k + 1
  {
    for i := |shorter| + 1 to |longer| + 1
      invariant cs.Valid() && cs.calls == i - k
      invariant NoCommonBefore(shorter, longer, k, |shorter| - k + 1, cs.calls)
    {
      ghost var c := cs.calls;
      var sub := cs.Next();
      Phase2Step(shorter, longer, k, c, table, sub);
      if sub in table {
        return Some(sub);
      }
    }
    NoCommonAtAll(shorter, longer, k);
    return None;
  }

  /**
   * `_alternate_prereserve_iter_fx_substring`: alternates insertion and
   * lookup between the two strings, then finishes the longer one alone.
   * Whatever it returns is a common window of k characters, and it returns
   * nothing exactly when there is none.
   */
  method AlternateSubstring(s1: seq<char>, s2: seq<char>, k: nat) returns (r: Option<seq<char>>)
    ensures k == 0 ==> r == Some([])
    ensures r.Some? && k > 0 ==> Spec.UnorderedSubstringCorrect(r.value, s1, s2, k)
    ensures r.None? <==> k > 0 && !Spec.HasCommonWindow(s1, s2, k)
  {
    if k == 0 {
      return Some([]);
    }
    if |s1| < k || |s2| < k {
      return None;
    }
    var cs1 := new CharWindows.Preload(s1, k);
    var cs2 := new CharWindows.Preload(s2, k);
    var substrings1, substrings2;
    r, substrings1, substrings2 := AlternatePhase1(s1, s2, k, cs1, cs2);
    if r.Some? {
      return;
    }
    if |s1| <= |s2| {
      r := AlternatePhase2(s1, s2, k, cs2, substrings1);
    } else {
      r := AlternatePhase2(s2, s1, k, cs1, substrings2);
      Spec.CommonWindowSymmetric(s1, s2, k);
    }
    if r.Some? {
      return;
    }
    var done1 := cs1.Exhausted();
    var done2 := cs2.Exhausted();
    assert done1 && done2;
  }
}
