/**
 * What the matching engines compute, stated on characters.
 *
 * A "window" is a run of k consecutive characters. `ReferenceSubstring` is
 * the test oracle of the library: the first window of the second string
 * that occurs anywhere in the first. `ShorterFirstSubstring` is the same
 * search with the shorter string indexed and the longer one scanned, and
 * `UnorderedSubstringCorrect` is the oracle for the engines that promise
 * only some common window.
 */
module Spec {
  import opened Options

  /** The k characters of s that start at character i. */
  function Win(s: seq<char>, k: nat, i: nat): (w: seq<char>)
    requires i + k <= |s|
    ensures |w| == k
    ensures forall j :: 0 <= j < k ==> w[j] == s[i + j]
  {
    s[i..i + k]
  }

  /** `s.contains(sub)`: sub occurs in s at some character position. */
  predicate Occurs(sub: seq<char>, s: seq<char>)
  {
    exists i: nat | i <= |s| - |sub| :: Win(s, |sub|, i) == sub
  }

  /** The set of the first `count` windows of length k of s. */
  function Windows(s: seq<char>, k: nat, count: nat): (ws: set<seq<char>>)
    requires count == 0 || count - 1 + k <= |s|
  {
    if count == 0 then {} else Windows(s, k, count - 1) + {Win(s, k, count - 1)}
  }

  /** Every window of length k of s. */
  function AllWindows(s: seq<char>, k: nat): set<seq<char>>
    requires k <= |s|
  {
    Windows(s, k, |s| - k + 1)
  }

  /** Some window of s1 equals some window of s2. */
  predicate HasCommonWindow(s1: seq<char>, s2: seq<char>, k: nat)
  {
    exists i: nat, j: nat | i + k <= |s1| && j + k <= |s2| :: Win(s1, k, i) == Win(s2, k, j)
  }

  /** `unordered_substring_correct`: sub has k characters and occurs in both strings. */
  predicate UnorderedSubstringCorrect(sub: seq<char>, s1: seq<char>, s2: seq<char>, k: nat)
  {
    |sub| == k && Occurs(sub, s1) && Occurs(sub, s2)
  }

  /** The first window of `scan`, from window `from` on, that occurs in `index`. */
  function FirstCommon(scan: seq<char>, index: seq<char>, k: nat, from: nat): Option<seq<char>>
    requires k <= |scan| && from <= |scan| - k + 1
    decreases |scan| - k + 1 - from
  {
    if from == |scan| - k + 1 then None
    else if Occurs(Win(scan, k, from), index) then Some(Win(scan, k, from))
    else FirstCommon(scan, index, k, from + 1)
  }

  /** `substring_reference_impl`: the first window of s2 that occurs in s1. */
  function ReferenceSubstring(s1: seq<char>, s2: seq<char>, k: nat): Option<seq<char>>
  {
    if k == 0 then Some([])
    else if |s2| < k then None
    else FirstCommon(s2, s1, k, 0)
  }

  /**
   * The result of the engines that index the shorter string and scan the
   * longer one: the first window of the longer string that occurs in the
   * shorter; s2 is scanned when the lengths are equal.
   */
  function ShorterFirstSubstring(s1: seq<char>, s2: seq<char>, k: nat): Option<seq<char>>
  {
    if |s1| <= |s2| then ReferenceSubstring(s1, s2, k) else ReferenceSubstring(s2, s1, k)
  }

  // ---- windows ----

  lemma {:induction false} WindowsMember(s: seq<char>, k: nat, count: nat, w: seq<char>)
    requires count == 0 || count - 1 + k <= |s|
    ensures w in Windows(s, k, count) <==> exists i: nat | i < count :: Win(s, k, i) == w
  {
    if count > 0 {
      WindowsMember(s, k, count - 1, w);
    }
  }

  /** Occurring in s is the same as being one of its windows. */
  lemma OccursIffWindow(s: seq<char>, k: nat, w: seq<char>)
    requires |w| == k <= |s|
    ensures Occurs(w, s) <==> w in AllWindows(s, k)
  {
    WindowsMember(s, k, |s| - k + 1, w);
  }

  /** A window occurs in its own string. */
  lemma WindowOccurs(s: seq<char>, k: nat, i: nat)
    requires i + k <= |s|
    ensures Occurs(Win(s, k, i), s)
  {
    assert Win(s, |Win(s, k, i)|, i) == Win(s, k, i);
  }

  // ---- the first common window ----

  /** Windows that do not occur can be skipped. */
  lemma {:induction false} FirstCommonSkip(scan: seq<char>, index: seq<char>, k: nat, from: nat, upto: nat)
    requires k <= |scan| && from <= upto <= |scan| - k + 1
    requires forall j: nat | from <= j < upto :: !Occurs(Win(scan, k, j), index)
    ensures FirstCommon(scan, index, k, from) == FirstCommon(scan, index, k, upto)
    decreases upto
  {
    if from < upto {
      FirstCommonSkip(scan, index, k, from, upto - 1);
    }
  }

  /**
   * A first common window is a window of `scan` at or after `from` that
   * occurs in `index`, and no earlier one from `from` on does.
   */
  lemma {:induction false} FirstCommonFound(scan: seq<char>, index: seq<char>, k: nat, from: nat)
    requires k <= |scan| && from <= |scan| - k + 1
    requires FirstCommon(scan, index, k, from).Some?
    ensures exists i: nat | from <= i && i + k <= |scan| ::
      && FirstCommon(scan, index, k, from).value == Win(scan, k, i)
      && Occurs(Win(scan, k, i), index)
      && forall j: nat | from <= j < i :: !Occurs(Win(scan, k, j), index)
    decreases |scan| - k + 1 - from
  {
    if !Occurs(Win(scan, k, from), index) {
      FirstCommonFound(scan, index, k, from + 1);
      var i: nat :| from + 1 <= i && i + k <= |scan|
        && FirstCommon(scan, index, k, from + 1).value == Win(scan, k, i)
        && Occurs(Win(scan, k, i), index)
        && forall j: nat | from + 1 <= j < i :: !Occurs(Win(scan, k, j), index);
      assert forall j: nat | from <= j < i :: !Occurs(Win(scan, k, j), index);
    }
  }

  /** There is no first common window exactly when no window from `from` on occurs. */
  lemma {:induction false} FirstCommonNone(scan: seq<char>, index: seq<char>, k: nat, from: nat)
    requires k <= |scan| && from <= |scan| - k + 1
    ensures FirstCommon(scan, index, k, from).None? <==>
      forall j: nat | from <= j && j + k <= |scan| :: !Occurs(Win(scan, k, j), index)
    decreases |scan| - k + 1 - from
  {
    if from < |scan| - k + 1 && !Occurs(Win(scan, k, from), index) {
      FirstCommonNone(scan, index, k, from + 1);
    }
  }

  // ---- the reference oracle ----

  lemma CommonWindowIffOccurs(s1: seq<char>, s2: seq<char>, k: nat)
    requires k <= |s2|
    ensures HasCommonWindow(s1, s2, k) <==> exists j: nat | j + k <= |s2| :: Occurs(Win(s2, k, j), s1)
  {
    if HasCommonWindow(s1, s2, k) {
      var i: nat, j: nat :| i + k <= |s1| && j + k <= |s2| && Win(s1, k, i) == Win(s2, k, j);
      assert Win(s1, |Win(s2, k, j)|, i) == Win(s2, k, j);
    }
    if exists j: nat | j + k <= |s2| :: Occurs(Win(s2, k, j), s1) {
      var j: nat :| j + k <= |s2| && Occurs(Win(s2, k, j), s1);
      var i: nat :| i <= |s1| - k && Win(s1, k, i) == Win(s2, k, j);
      assert i + k <= |s1|;
    }
  }

  /**
   * The oracle's answer: the empty string for k = 0; otherwise a window of s2
   * that occurs in s1 and is preceded in s2 by no such window, or nothing
   * exactly when the two strings share no window of k characters.
   */
  lemma ReferenceSpec(s1: seq<char>, s2: seq<char>, k: nat)
    ensures k == 0 ==> ReferenceSubstring(s1, s2, k) == Some([])
    ensures ReferenceSubstring(s1, s2, k).Some? && k > 0 ==>
      exists j: nat | j + k <= |s2| ::
        && ReferenceSubstring(s1, s2, k).value == Win(s2, k, j)
        && Occurs(Win(s2, k, j), s1)
        && forall j': nat | j' < j :: !Occurs(Win(s2, k, j'), s1)
    ensures ReferenceSubstring(s1, s2, k).None? <==> k > 0 && !HasCommonWindow(s1, s2, k)
  {
    if k > 0 && |s2| >= k {
      FirstCommonNone(s2, s1, k, 0);
      if FirstCommon(s2, s1, k, 0).Some? {
        FirstCommonFound(s2, s1, k, 0);
      }
      CommonWindowIffOccurs(s1, s2, k);
    }
  }

  /** Whatever the oracle returns is a correct unordered answer. */
  lemma ReferenceCorrect(s1: seq<char>, s2: seq<char>, k: nat)
    requires ReferenceSubstring(s1, s2, k).Some?
    ensures UnorderedSubstringCorrect(ReferenceSubstring(s1, s2, k).value, s1, s2, k)
  {
    ReferenceSpec(s1, s2, k);
    var r := ReferenceSubstring(s1, s2, k).value;
    if k == 0 {
      assert Win(s1, 0, 0) == r && Win(s2, 0, 0) == r;
    } else {
      var j: nat :| j + k <= |s2| && r == Win(s2, k, j) && Occurs(r, s1);
      WindowOccurs(s2, k, j);
    }
  }

  /** Two strings share a window of k characters in either order. */
  lemma CommonWindowSymmetric(s1: seq<char>, s2: seq<char>, k: nat)
    ensures HasCommonWindow(s1, s2, k) <==> HasCommonWindow(s2, s1, k)
  {
    if HasCommonWindow(s1, s2, k) {
      var i: nat, j: nat :| i + k <= |s1| && j + k <= |s2| && Win(s1, k, i) == Win(s2, k, j);
      assert Win(s2, k, j) == Win(s1, k, i);
    }
    if HasCommonWindow(s2, s1, k) {
      var j: nat, i: nat :| j + k <= |s2| && i + k <= |s1| && Win(s2, k, j) == Win(s1, k, i);
      assert Win(s1, k, i) == Win(s2, k, j);
    }
  }

  /** If either string is shorter than k > 0, nothing is found. */
  lemma ShortInputs(s1: seq<char>, s2: seq<char>, k: nat)
    requires k > 0 && (|s1| < k || |s2| < k)
    ensures ReferenceSubstring(s1, s2, k) == None
    ensures ShorterFirstSubstring(s1, s2, k) == None
  {
    ReferenceSpec(s1, s2, k);
    ReferenceSpec(s2, s1, k);
  }

  // ---- the shorter-first search ----

  /**
   * Indexing the shorter string still yields a common window, and finds
   * none exactly when there is none; when s1 is not longer than s2 it is
   * the oracle's answer.
   */
  lemma ShorterFirstSpec(s1: seq<char>, s2: seq<char>, k: nat)
    ensures |s1| <= |s2| ==> ShorterFirstSubstring(s1, s2, k) == ReferenceSubstring(s1, s2, k)
    ensures ShorterFirstSubstring(s1, s2, k).Some? ==>
      UnorderedSubstringCorrect(ShorterFirstSubstring(s1, s2, k).value, s1, s2, k)
    ensures ShorterFirstSubstring(s1, s2, k).None? <==> k > 0 && !HasCommonWindow(s1, s2, k)
  {
    ReferenceSpec(s1, s2, k);
    ReferenceSpec(s2, s1, k);
    CommonWindowSymmetric(s1, s2, k);
    if ShorterFirstSubstring(s1, s2, k).Some? {
      if |s1| <= |s2| {
        ReferenceCorrect(s1, s2, k);
      } else {
        ReferenceCorrect(s2, s1, k);
      }
    }
  }

  /**
   * The shorter-first search is not the oracle when s1 is the longer string:
   * for "bac" and "ab" with k = 1 the oracle answers "a" (first in s2) and
   * the shorter-first search answers "b" (first in s1).
   */
  lemma ShorterFirstMayDiffer()
    ensures ReferenceSubstring("bac", "ab", 1) == Some("a")
    ensures ShorterFirstSubstring("bac", "ab", 1) == Some("b")
  {
    assert Win("bac", 1, 1) == "a" == Win("ab", 1, 0);
    assert Win("ab", 1, 1) == "b" == Win("bac", 1, 0);
    assert Occurs("a", "bac");
    assert Occurs("b", "ab");
    assert FirstCommon("ab", "bac", 1, 0) == Some("a");
    assert FirstCommon("bac", "ab", 1, 0) == Some("b");
  }
}
