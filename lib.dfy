/**
 * The crate's public entry points, its reference implementation and the
 * examples its unit tests check.
 *
 * `substring` and `unordered_substring` forward to one engine each; the
 * copies of the engines kept beside them are the engines modelled in
 * `Implementations`.
 */
module Lib {
  import opened Options
  import Spec
  import Implementations

  /**
   * `substring`: the first window of s2, in order, that also occurs in s1
   * (found with the prereserving FxHashSet engine).
   */
  method Substring(s1: seq<char>, s2: seq<char>, k: nat) returns (r: Option<seq<char>>)
    ensures r == Spec.ReferenceSubstring(s1, s2, k)
    ensures k == 0 ==> r == Some([])
    ensures r.Some? ==> Spec.UnorderedSubstringCorrect(r.value, s1, s2, k)
    ensures r.None? <==> k > 0 && !Spec.HasCommonWindow(s1, s2, k)
  {
    r := Implementations.NaiveIterSubstring(s1, s2, k);
    Spec.ReferenceSpec(s1, s2, k);
    if r.Some? {
      Spec.ReferenceCorrect(s1, s2, k);
    }
  }

  /** `unordered_substring`: some common window of k characters, if there is one. */
  method UnorderedSubstring(s1: seq<char>, s2: seq<char>, k: nat) returns (r: Option<seq<char>>)
    ensures k == 0 ==> r == Some([])
    ensures r.Some? && k > 0 ==> Spec.UnorderedSubstringCorrect(r.value, s1, s2, k)
    ensures r.None? <==> k > 0 && !Spec.HasCommonWindow(s1, s2, k)
  {
    r := Implementations.AlternateSubstring(s1, s2, k);
  }

  /** `has_substring`: the two strings share a window of k characters. */
  method HasSubstring(s1: seq<char>, s2: seq<char>, k: nat) returns (b: bool)
    ensures b <==> k == 0 || Spec.HasCommonWindow(s1, s2, k)
  {
    var r := Substring(s1, s2, k);
    b := r.Some?;
  }

  /**
   * `substring_reference_impl`: tries the windows of s2 in order and
   * returns the first one that s1 contains.
   */
  method SubstringReferenceImpl(s1: seq<char>, s2: seq<char>, k: nat) returns (r: Option<seq<char>>)
    ensures r.Some? ==> |r.value| == k && Spec.Occurs(r.value, s1)
    ensures r.Some? && k > 0 ==> exists i: nat | i + k <= |s2| :: r.value == Spec.Win(s2, k, i)
    ensures r.None? <==> k > 0 && !Spec.HasCommonWindow(s1, s2, k)
    ensures r == Spec.ReferenceSubstring(s1, s2, k)
  {
    Spec.ReferenceSpec(s1, s2, k);
    if k == 0 {
      assert Spec.Win(s1, 0, 0) == [];
      return Some([]);
    }
    if |s2| < k {
      return None;
    }
    for i := 0 to |s2| - k + 1
      invariant Spec.FirstCommon(s2, s1, k, i) == Spec.FirstCommon(s2, s1, k, 0)
    {
      var sub := s2[i..i + k];
      if Spec.Occurs(sub, s1) {
        return Some(sub);
      }
    }
    return None;
  }

  // ---- the unit tests' examples ----

  /** A window of k characters that occurs in both strings. */
  lemma CommonWindowExample(s1: seq<char>, s2: seq<char>, k: nat, i: nat, j: nat)
    requires i + k <= |s1| && j + k <= |s2| && s1[i..i + k] == s2[j..j + k]
    ensures Spec.HasCommonWindow(s1, s2, k)
    ensures Spec.UnorderedSubstringCorrect(s1[i..i + k], s1, s2, k)
  {
    assert Spec.Win(s1, k, i) == Spec.Win(s2, k, j);
    Spec.WindowOccurs(s1, k, i);
    Spec.WindowOccurs(s2, k, j);
  }

  /** Two strings of exactly k characters share a window only when they are equal. */
  lemma {:induction false} WholeStrings(s1: seq<char>, s2: seq<char>)
    requires |s1| == |s2|
    ensures Spec.HasCommonWindow(s1, s2, |s1|) <==> s1 == s2
    ensures Spec.ReferenceSubstring(s1, s2, |s1|) == if s1 == s2 || |s1| == 0 then Some(s2) else None
  {
    var k := |s1|;
    if s1 == s2 {
      CommonWindowExample(s1, s2, k, 0, 0);
    } else {
      forall i: nat, j: nat | i + k <= |s1| && j + k <= |s2|
        ensures Spec.Win(s1, k, i) != Spec.Win(s2, k, j)
      {
        assert i == 0 && j == 0;
        assert Spec.Win(s1, k, 0) == s1 && Spec.Win(s2, k, 0) == s2;
      }
    }
    Spec.ReferenceSpec(s1, s2, k);
    if k > 0 && s1 == s2 {
      assert Spec.Win(s2, k, 0) == s2 && Spec.Win(s1, k, 0) == s1;
      assert Spec.Occurs(Spec.Win(s2, k, 0), s1);
    }
  }

  /** An answer that must hold k characters of a k-character string is that string. */
  lemma WholeStringAnswer(sub: seq<char>, s1: seq<char>, s2: seq<char>)
    requires Spec.UnorderedSubstringCorrect(sub, s1, s2, |s1|)
    ensures sub == s1
  {
    var i: nat :| i <= |s1| - |sub| && Spec.Win(s1, |sub|, i) == sub;
    assert i == 0;
  }

  /** `test_string_of_length_k`: "Test" against "Test" finds "Test", against "Uhoh" nothing. */
  lemma LengthKExample()
    ensures Spec.ReferenceSubstring("Test", "Test", 4) == Some("Test")
    ensures Spec.HasCommonWindow("Test", "Test", 4)
    ensures Spec.ReferenceSubstring("Test", "Uhoh", 4) == None
    ensures !Spec.HasCommonWindow("Test", "Uhoh", 4)
  {
    WholeStrings("Test", "Test");
    assert "Test"[0] != "Uhoh"[0];
    WholeStrings("Test", "Uhoh");
  }

  /** `test_case_sensitive`: "Test" and "test" differ in their first character. */
  lemma CaseSensitiveExample()
    ensures Spec.ReferenceSubstring("Test", "test", 4) == None
    ensures !Spec.HasCommonWindow("Test", "test", 4)
  {
    assert "Test"[0] != "test"[0];
    WholeStrings("Test", "test");
  }

  /** `test_no_string` and `test_shorter_strings`: a string shorter than k has no window. */
  lemma ShorterThanKExample(s1: seq<char>, s2: seq<char>, k: nat)
    requires k > 0 && (|s1| < k || |s2| < k)
    ensures Spec.ReferenceSubstring(s1, s2, k) == None
    ensures !Spec.HasCommonWindow(s1, s2, k)
  {
    Spec.ShortInputs(s1, s2, k);
    Spec.ReferenceSpec(s1, s2, k);
  }

  /** No two neighbouring characters of s form a pair in ps. */
  predicate PairsAbsent(s: seq<char>, ps: set<(char, char)>)
  {
    |s| < 2 || ((s[0], s[1]) !in ps && PairsAbsent(s[1..], ps))
  }

  lemma {:induction false} PairsAbsentAt(s: seq<char>, ps: set<(char, char)>, i: nat)
    requires PairsAbsent(s, ps) && i + 1 < |s|
    ensures (s[i], s[i + 1]) !in ps
  {
    if i > 0 {
      PairsAbsentAt(s[1..], ps, i - 1);
    }
  }

  lemma {:induction false} PairsAbsentAppend(a: seq<char>, b: seq<char>, ps: set<(char, char)>)
    requires PairsAbsent(a, ps) && PairsAbsent(b, ps)
    requires |a| == 0 || |b| == 0 || (a[|a| - 1], b[0]) !in ps
    ensures PairsAbsent(a + b, ps)
  {
    if |a| >= 1 {
      assert (a + b)[1..] == a[1..] + b;
      if |a| >= 2 {
        PairsAbsentAppend(a[1..], b, ps);
      }
    } else {
      assert a + b == b;
    }
  }

  /** A text holding a pair from ps does not occur in a string that holds none. */
  lemma PairBlocks(w: seq<char>, s: seq<char>, ps: set<(char, char)>, p: nat)
    requires p + 1 < |w| && (w[p], w[p + 1]) in ps && PairsAbsent(s, ps)
    ensures !Spec.Occurs(w, s)
  {
    if Spec.Occurs(w, s) {
      var i: nat :| i <= |s| - |w| && Spec.Win(s, |w|, i) == w;
      assert s[i + p] == w[p] && s[i + p + 1] == w[p + 1];
      PairsAbsentAt(s, ps, i + p);
    }
  }

  /** The two sentences of `test_substring`, in pieces. */
  const Normal: seq<char> := "This is" + (" a test" + (" string" + (". - Nor" + ("mal Per" + "son"))))
  const PirateHead: seq<char> := "Here be another test"
  const Pirate: seq<char> := PirateHead + " string. Yaargh. - Pirate"

  /** Neighbouring characters of `Pirate`'s opening that `Normal` never has. */
  const Blocked: set<(char, char)> :=
    {('H', 'e'), (' ', 'b'), ('b', 'e'), ('e', ' '), ('a', 'n'), ('t', 'h'), ('h', 'e'), ('r', ' ')}

  /** Each piece of `Normal` lacks the blocked pairs. */
  lemma NormalPiece0()
    ensures PairsAbsent("This is", Blocked)
  {
  }

  lemma NormalPiece1()
    ensures PairsAbsent(" a test", Blocked)
  {
  }

  lemma NormalPiece2()
    ensures PairsAbsent(" string", Blocked)
  {
  }

  lemma NormalPiece3()
    ensures PairsAbsent(". - Nor", Blocked)
  {
  }

  lemma NormalPiece4()
    ensures PairsAbsent("mal Per", Blocked)
  {
  }

  lemma NormalPiece5()
    ensures PairsAbsent("son", Blocked)
  {
  }

  /** The last three pieces of `Normal` together lack the blocked pairs. */
  lemma NormalEndLacksBlocked()
    ensures PairsAbsent(". - Nor" + ("mal Per" + "son"), Blocked)
  {
    NormalPiece3();
    NormalPiece4();
    NormalPiece5();
    PairsAbsentAppend("mal Per", "son", Blocked);
    PairsAbsentAppend(". - Nor", "mal Per" + "son", Blocked);
  }

  lemma NormalLacksBlocked()
    ensures PairsAbsent(Normal, Blocked)
  {
    NormalPiece0();
    NormalPiece1();
    NormalPiece2();
    NormalEndLacksBlocked();
    PairsAbsentAppend(" string", ". - Nor" + ("mal Per" + "son"), Blocked);
    PairsAbsentAppend(" a test", " string" + (". - Nor" + ("mal Per" + "son")), Blocked);
    PairsAbsentAppend("This is", " a test" + (" string" + (". - Nor" + ("mal Per" + "son"))), Blocked);
  }

  /** The blocked pair at each position where one starts in `PirateHead`. */
  lemma PirateHeadPair(q: nat)
    requires q == 0 || q == 4 || q == 5 || q == 6 || q == 8 || q == 11 || q == 12 || q == 14
    ensures q + 1 < |PirateHead| && (PirateHead[q], PirateHead[q + 1]) in Blocked
  {
    assert PirateHead == "Here " + ("be an" + ("other" + " test"));
  }

  /** Every window of 5 characters before position 15 of `Pirate` holds a pair `Normal` lacks. */
  lemma PirateEarlyWindows(j: nat)
    requires j < 15
    ensures !Spec.Occurs(Spec.Win(Pirate, 5, j), Normal)
  {
    var q: nat :=
      if j == 0 then 0
      else if j == 1 then 4
      else if j <= 5 then 5
      else if j == 6 then 6
      else if j <= 8 then 8
      else if j <= 11 then 11
      else if j == 12 then 12
      else 14;
    PirateHeadPair(q);
    assert Pirate[q] == PirateHead[q] && Pirate[q + 1] == PirateHead[q + 1];
    NormalLacksBlocked();
    PairBlocks(Spec.Win(Pirate, 5, j), Normal, Blocked, q - j);
  }

  /**
   * `test_substring`: with k = 5 the first window of the second sentence
   * that the first sentence contains is " test".
   */
  lemma SentenceExample()
    ensures Spec.ReferenceSubstring(Normal, Pirate, 5) == Some(" test")
    ensures Spec.HasCommonWindow(Normal, Pirate, 5)
  {
    forall j: nat | j < 15
      ensures !Spec.Occurs(Spec.Win(Pirate, 5, j), Normal)
    {
      PirateEarlyWindows(j);
    }
    Spec.FirstCommonSkip(Pirate, Normal, 5, 0, 15);
    assert Spec.Win(Pirate, 5, 15) == " test" == Spec.Win(Normal, 5, 9);
    assert Spec.Occurs(Spec.Win(Pirate, 5, 15), Normal);
    CommonWindowExample(Normal, Pirate, 5, 9, 15);
  }

  /**
   * `test_string_of_length_k_unordered` and `test_case_sensitive_unordered`:
   * any answer `unordered_substring` may give for "Test" against "Test" is
   * "Test", and against "Uhoh" or "test" it must give nothing.
   */
  lemma UnorderedLengthKExample()
    ensures Spec.HasCommonWindow("Test", "Test", 4)
    ensures forall sub | Spec.UnorderedSubstringCorrect(sub, "Test", "Test", 4) :: sub == "Test"
    ensures !Spec.HasCommonWindow("Test", "Uhoh", 4)
    ensures !Spec.HasCommonWindow("Test", "test", 4)
  {
    LengthKExample();
    CaseSensitiveExample();
    forall sub | Spec.UnorderedSubstringCorrect(sub, "Test", "Test", 4)
      ensures sub == "Test"
    {
      WholeStringAnswer(sub, "Test", "Test");
    }
  }
}
