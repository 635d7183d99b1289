/**
 * `preprocess_string`: drops every `\r` and `\n` byte and collapses each run
 * of spaces to one space. The filter runs on the UTF-8 bytes of the input and
 * the result is re-validated as UTF-8; `Preprocess` proves that this
 * re-validation cannot fail.
 */
module Helpers {
  import opened Utf8

  const CR: u8 := 0x0D
  const LF: u8 := 0x0A
  const SPACE: u8 := 0x20

  // ---- the byte pipeline, as the source writes it ----

  /** `bytes().filter(|b| *b != b'\r' && *b != b'\n')` */
  function StripLineBreaks(bs: seq<u8>): seq<u8>
  {
    if bs == [] then []
    else (if bs[0] == CR || bs[0] == LF then [] else [bs[0]]) + StripLineBreaks(bs[1..])
  }

  /**
   * The `filter_map` over the byte pairs (prev, bs[0]), (bs[0], bs[1]), ...:
   * each second byte is kept unless both bytes of its pair are spaces.
   */
  function CollapseSpaces(prev: u8, bs: seq<u8>): seq<u8>
    decreases |bs|
  {
    if bs == [] then []
    else (if prev == SPACE && bs[0] == SPACE then [] else [bs[0]]) + CollapseSpaces(bs[0], bs[1..])
  }

  /**
   * The bytes `preprocess_string` hands to `String::from_utf8`: the first
   * surviving byte is paired with a 0 byte (`once((0u8, first))`), so it is
   * always kept.
   */
  function PreprocessBytes(bs: seq<u8>): seq<u8>
  {
    if |bs| == 0 then []
    else
      var stripped := StripLineBreaks(bs);
      if stripped == [] then [] else CollapseSpaces(0, stripped)
  }

  // ---- the same filter on characters ----

  function StripLineBreakChars(s: seq<char>): seq<char>
  {
    if s == [] then []
    else (if s[0] == '\r' || s[0] == '\n' then [] else [s[0]]) + StripLineBreakChars(s[1..])
  }

  function CollapseSpaceChars(prev: char, s: seq<char>): seq<char>
    decreases |s|
  {
    if s == [] then []
    else (if prev == ' ' && s[0] == ' ' then [] else [s[0]]) + CollapseSpaceChars(s[0], s[1..])
  }

  /**
   * `preprocess_string`. The bytes of the result are exactly the bytes the
   * source filters out of the input's bytes, so those bytes are valid UTF-8
   * and `String::from_utf8(..).unwrap()` never panics.
   */
  function Preprocess(s: seq<char>): (r: seq<char>)
    ensures Encode(r) == PreprocessBytes(Encode(s))
  {
    EncodeEmpty(s);
    StripEncode(s);
    if |s| == 0 then []
    else
      var stripped := StripLineBreakChars(s);
      EncodeEmpty(stripped);
      if stripped == [] then []
      else
        CollapseEncode(0, '\0', stripped);
        CollapseSpaceChars('\0', stripped)
  }

  // ---- the byte filter commutes with encoding ----

  lemma EncodeEmpty(s: seq<char>)
    ensures (Encode(s) == []) == (s == [])
  {
  }

  lemma {:induction false} StripAppend(a: seq<u8>, b: seq<u8>)
    ensures StripLineBreaks(a + b) == StripLineBreaks(a) + StripLineBreaks(b)
  {
    if a == [] {
      assert a + b == b;
    } else {
      assert (a + b)[1..] == a[1..] + b;
      StripAppend(a[1..], b);
    }
  }

  /** A byte that is not ASCII is never a line break or a space. */
  ghost predicate AllHigh(bs: seq<u8>)
  {
    forall j :: 0 <= j < |bs| ==> bs[j] >= 0x80
  }

  lemma {:induction false} StripKeepsHigh(bs: seq<u8>)
    requires AllHigh(bs)
    ensures StripLineBreaks(bs) == bs
  {
    if bs != [] {
      StripKeepsHigh(bs[1..]);
    }
  }

  lemma {:induction false} StripEncode(s: seq<char>)
    ensures StripLineBreaks(Encode(s)) == Encode(StripLineBreakChars(s))
  {
    if s != [] {
      var c := s[0];
      StripAppend(EncodeChar(c), Encode(s[1..]));
      StripEncode(s[1..]);
      if c as int < 0x80 {
        assert EncodeChar(c) == [c as int];
        assert StripLineBreaks([c as int]) == (if c == '\r' || c == '\n' then [] else [c as int]);
        EncodeSingle(c);
      } else {
        StripKeepsHigh(EncodeChar(c));
        EncodeSingle(c);
      }
      var head := if c == '\r' || c == '\n' then [] else [c];
      EncodeAppend(head, StripLineBreakChars(s[1..]));
    }
  }

  lemma {:induction false} CollapseKeepsHigh(prev: u8, bs: seq<u8>, rest: seq<u8>)
    requires AllHigh(bs) && bs != []
    ensures CollapseSpaces(prev, bs + rest) == bs + CollapseSpaces(bs[|bs| - 1], rest)
    decreases |bs|
  {
    assert (bs + rest)[1..] == bs[1..] + rest;
    if |bs| > 1 {
      CollapseKeepsHigh(bs[0], bs[1..], rest);
    }
  }

  lemma {:induction false} CollapseEncode(prevByte: u8, prevChar: char, s: seq<char>)
    requires (prevByte == SPACE) == (prevChar == ' ')
    ensures CollapseSpaces(prevByte, Encode(s)) == Encode(CollapseSpaceChars(prevChar, s))
    decreases |s|
  {
    if s != [] {
      var c := s[0];
      var e := EncodeChar(c);
      CollapseEncode(e[|e| - 1], c, s[1..]);
      var head := if prevChar == ' ' && c == ' ' then [] else [c];
      EncodeAppend(head, CollapseSpaceChars(c, s[1..]));
      EncodeSingle(c);
      if c as int < 0x80 {
        assert e == [c as int];
        assert (e + Encode(s[1..]))[1..] == Encode(s[1..]);
      } else {
        CollapseKeepsHigh(prevByte, e, Encode(s[1..]));
      }
    }
  }

  // ---- properties of the byte pipeline ----

  /** The bytes other than `\r`, `\n` and space, in order. */
  function Significant(bs: seq<u8>): seq<u8>
  {
    if bs == [] then []
    else (if bs[0] == CR || bs[0] == LF || bs[0] == SPACE then [] else [bs[0]]) + Significant(bs[1..])
  }

  lemma SignificantCons(b: u8, rest: seq<u8>)
    ensures Significant([b] + rest) == (if b == CR || b == LF || b == SPACE then [] else [b]) + Significant(rest)
  {
    assert ([b] + rest)[1..] == rest;
  }

  ghost predicate NoLineBreaks(bs: seq<u8>)
  {
    forall i :: 0 <= i < |bs| ==> bs[i] != CR && bs[i] != LF
  }

  ghost predicate NoDoubleSpace(bs: seq<u8>)
  {
    forall i :: 0 <= i < |bs| - 1 ==> !(bs[i] == SPACE && bs[i + 1] == SPACE)
  }

  lemma StripFacts(bs: seq<u8>)
    ensures NoLineBreaks(StripLineBreaks(bs))
    ensures Significant(StripLineBreaks(bs)) == Significant(bs)
    ensures StripLineBreaks(bs) == [] <==> forall i :: 0 <= i < |bs| ==> bs[i] == CR || bs[i] == LF
    ensures forall x: u8 :: x != CR && x != LF ==> multiset(StripLineBreaks(bs))[x] == multiset(bs)[x]
  {
    StripRemovesBreaks(bs);
    StripKeepsSignificant(bs);
    StripEmpty(bs);
    StripKeepsCounts(bs);
  }

  /** Every byte other than `\r` and `\n`, spaces included, survives as often as it occurs. */
  lemma {:induction false} StripKeepsCounts(bs: seq<u8>)
    ensures forall x: u8 :: x != CR && x != LF ==> multiset(StripLineBreaks(bs))[x] == multiset(bs)[x]
  {
    if bs != [] {
      StripKeepsCounts(bs[1..]);
      var head: seq<u8> := if bs[0] == CR || bs[0] == LF then [] else [bs[0]];
      assert StripLineBreaks(bs) == head + StripLineBreaks(bs[1..]);
      assert bs == [bs[0]] + bs[1..];
    }
  }

  lemma {:induction false} StripRemovesBreaks(bs: seq<u8>)
    ensures NoLineBreaks(StripLineBreaks(bs))
  {
    if bs != [] {
      StripRemovesBreaks(bs[1..]);
      var rest := StripLineBreaks(bs[1..]);
      var head: seq<u8> := if bs[0] == CR || bs[0] == LF then [] else [bs[0]];
      assert StripLineBreaks(bs) == head + rest;
      assert forall i :: 0 <= i < |rest| ==> (head + rest)[|head| + i] == rest[i];
    }
  }

  lemma {:induction false} StripKeepsSignificant(bs: seq<u8>)
    ensures Significant(StripLineBreaks(bs)) == Significant(bs)
  {
    if bs != [] {
      StripKeepsSignificant(bs[1..]);
      var rest := StripLineBreaks(bs[1..]);
      if !(bs[0] == CR || bs[0] == LF) {
        SignificantCons(bs[0], rest);
      } else {
        assert StripLineBreaks(bs) == rest;
      }
    }
  }

  lemma {:induction false} StripEmpty(bs: seq<u8>)
    ensures StripLineBreaks(bs) == [] <==> forall i :: 0 <= i < |bs| ==> bs[i] == CR || bs[i] == LF
  {
    if bs != [] {
      StripEmpty(bs[1..]);
      assert forall i :: 1 <= i < |bs| ==> bs[i] == bs[1..][i - 1];
    }
  }

  lemma {:induction false} CollapseKeepsNoLineBreaks(prev: u8, bs: seq<u8>)
    requires NoLineBreaks(bs)
    ensures NoLineBreaks(CollapseSpaces(prev, bs))
    decreases |bs|
  {
    if bs != [] {
      assert NoLineBreaks(bs[1..]) by {
        assert forall i :: 0 <= i < |bs| - 1 ==> bs[1..][i] == bs[i + 1];
      }
      CollapseKeepsNoLineBreaks(bs[0], bs[1..]);
    }
  }

  lemma {:induction false} CollapseNoDoubleSpace(prev: u8, bs: seq<u8>)
    ensures NoDoubleSpace(CollapseSpaces(prev, bs))
    ensures prev == SPACE && CollapseSpaces(prev, bs) != [] ==> CollapseSpaces(prev, bs)[0] != SPACE
    decreases |bs|
  {
    if bs != [] {
      CollapseNoDoubleSpace(bs[0], bs[1..]);
      var rest := CollapseSpaces(bs[0], bs[1..]);
      if !(prev == SPACE && bs[0] == SPACE) {
        var r := [bs[0]] + rest;
        assert forall i :: 1 <= i < |r| ==> r[i] == rest[i - 1];
      } else {
        assert CollapseSpaces(prev, bs) == rest;
      }
    }
  }

  lemma {:induction false} CollapseSignificant(prev: u8, bs: seq<u8>)
    ensures Significant(CollapseSpaces(prev, bs)) == Significant(bs)
    decreases |bs|
  {
    if bs != [] {
      CollapseSignificant(bs[0], bs[1..]);
      var rest := CollapseSpaces(bs[0], bs[1..]);
      if !(prev == SPACE && bs[0] == SPACE) {
        SignificantCons(bs[0], rest);
      } else {
        assert CollapseSpaces(prev, bs) == rest;
      }
    }
  }

  lemma {:induction false} CollapseAfterSpace(bs: seq<u8>)
    requires forall i :: 0 <= i < |bs| ==> bs[i] == SPACE
    ensures CollapseSpaces(SPACE, bs) == []
  {
    if bs != [] {
      CollapseAfterSpace(bs[1..]);
    }
  }

  lemma {:induction false} StripKeepsSpaces(bs: seq<u8>)
    requires forall i :: 0 <= i < |bs| ==> bs[i] == SPACE
    ensures StripLineBreaks(bs) == bs
  {
    if bs != [] {
      StripKeepsSpaces(bs[1..]);
    }
  }

  /** The output holds no `\r` or `\n` byte and never two adjacent spaces. */
  lemma PreprocessClean(bs: seq<u8>)
    ensures NoLineBreaks(PreprocessBytes(bs))
    ensures NoDoubleSpace(PreprocessBytes(bs))
  {
    StripFacts(bs);
    CollapseKeepsNoLineBreaks(0, StripLineBreaks(bs));
    CollapseNoDoubleSpace(0, StripLineBreaks(bs));
  }

  /** Every byte other than `\r`, `\n` and space is kept, in its original order. */
  lemma PreprocessKeepsText(bs: seq<u8>)
    ensures Significant(PreprocessBytes(bs)) == Significant(bs)
  {
    StripFacts(bs);
    CollapseSignificant(0, StripLineBreaks(bs));
  }

  /**
   * The output is empty exactly when the input is empty or made only of `\r`
   * and `\n`; otherwise its first byte is the first byte that is not a line break.
   */
  lemma PreprocessEmptyOrFirstKept(bs: seq<u8>)
    ensures PreprocessBytes(bs) == [] <==> forall i :: 0 <= i < |bs| ==> bs[i] == CR || bs[i] == LF
    ensures StripLineBreaks(bs) != [] ==> PreprocessBytes(bs)[0] == StripLineBreaks(bs)[0]
  {
    StripFacts(bs);
  }

  /** An input made only of spaces becomes one space. */
  // ---- an independent reference: one space per run of spaces ----

  /** The leading run of spaces of `bs` removed. */
  function DropSpaces(bs: seq<u8>): (r: seq<u8>)
    ensures |r| <= |bs| && r == bs[|bs| - |r|..]
    ensures r == [] || r[0] != SPACE
    ensures forall i :: 0 <= i < |bs| - |r| ==> bs[i] == SPACE
  {
    if bs != [] && bs[0] == SPACE then DropSpaces(bs[1..]) else bs
  }

  /** Every maximal run of spaces replaced by a single space; every other byte kept. */
  function CollapseRuns(bs: seq<u8>): seq<u8>
    decreases |bs|
  {
    if bs == [] then []
    else if bs[0] == SPACE then [SPACE] + CollapseRuns(DropSpaces(bs[1..]))
    else [bs[0]] + CollapseRuns(bs[1..])
  }

  /** After a space, the leading run of spaces contributes nothing. */
  lemma {:induction false} CollapseSkipsRun(bs: seq<u8>)
    ensures CollapseSpaces(SPACE, bs) == CollapseSpaces(SPACE, DropSpaces(bs))
    decreases |bs|
  {
    if bs != [] && bs[0] == SPACE {
      CollapseSkipsRun(bs[1..]);
    }
  }

  /** Once the run is over, the pairwise filter is the run-based one. */
  lemma {:induction false} CollapseIsRuns(prev: u8, bs: seq<u8>)
    requires prev != SPACE
    ensures CollapseSpaces(prev, bs) == CollapseRuns(bs)
    decreases |bs|
  {
    if bs != [] {
      if bs[0] != SPACE {
        CollapseIsRuns(bs[0], bs[1..]);
      } else {
        var d := DropSpaces(bs[1..]);
        CollapseSkipsRun(bs[1..]);
        CollapseIsRuns(0, d);
        if d != [] {
          assert CollapseSpaces(SPACE, d) == CollapseSpaces(0, d);
        }
      }
    }
  }

  /**
   * `preprocess_string` strips spaces down to a single space: its bytes are
   * the input without line breaks, with each run of spaces replaced by one.
   */
  lemma PreprocessCollapsesRuns(bs: seq<u8>)
    ensures PreprocessBytes(bs) == CollapseRuns(StripLineBreaks(bs))
  {
    if StripLineBreaks(bs) != [] {
      CollapseIsRuns(0, StripLineBreaks(bs));
    }
  }

  lemma PreprocessAllSpaces(bs: seq<u8>)
    requires |bs| > 0 && forall i :: 0 <= i < |bs| ==> bs[i] == SPACE
    ensures PreprocessBytes(bs) == [SPACE]
  {
    StripKeepsSpaces(bs);
    CollapseAfterSpace(bs[1..]);
  }


  // ---- the character filter, piece by piece ----

  lemma {:induction false} StripCharsAppend(a: seq<char>, b: seq<char>)
    ensures StripLineBreakChars(a + b) == StripLineBreakChars(a) + StripLineBreakChars(b)
  {
    if a == [] {
      assert a + b == b;
    } else {
      assert (a + b)[1..] == a[1..] + b;
      StripCharsAppend(a[1..], b);
    }
  }

  /** Collapsing a concatenation: the second part is paired with the last character of the first. */
  lemma {:induction false} CollapseCharsAppend(prev: char, a: seq<char>, b: seq<char>)
    requires a != []
    ensures CollapseSpaceChars(prev, a + b) == CollapseSpaceChars(prev, a) + CollapseSpaceChars(a[|a| - 1], b)
    decreases |a|
  {
    var c := a[0];
    var h := if prev == ' ' && c == ' ' then [] else [c];
    assert (a + b)[0] == c && (a + b)[1..] == a[1..] + b;
    assert CollapseSpaceChars(prev, a + b) == h + CollapseSpaceChars(c, a[1..] + b);
    if |a| > 1 {
      assert CollapseSpaceChars(prev, a) == h + CollapseSpaceChars(c, a[1..]);
      assert a[1..][|a[1..]| - 1] == a[|a| - 1];
      CollapseCharsAppend(c, a[1..], b);
    } else {
      assert a[1..] == [] && a[|a| - 1] == c;
      assert CollapseSpaceChars(prev, a) == h;
    }
  }

  /** No two adjacent spaces, counting `prev` as the character before `s`. */
  ghost predicate SingleSpaced(prev: char, s: seq<char>)
  {
    && (prev == ' ' && s != [] ==> s[0] != ' ')
    && forall i :: 0 <= i < |s| - 1 ==> !(s[i] == ' ' && s[i + 1] == ' ')
  }

  lemma {:induction false} CollapseClean(prev: char, s: seq<char>)
    requires SingleSpaced(prev, s)
    ensures CollapseSpaceChars(prev, s) == s
    decreases |s|
  {
    if s != [] {
      assert s == [s[0]] + s[1..];
      assert SingleSpaced(s[0], s[1..]) by {
        assert forall i :: 0 <= i < |s| - 1 ==> s[1..][i] == s[i + 1];
      }
      CollapseClean(s[0], s[1..]);
    }
  }

  lemma {:induction false} StripClean(s: seq<char>)
    requires forall i :: 0 <= i < |s| ==> s[i] != '\r' && s[i] != '\n'
    ensures StripLineBreakChars(s) == s
  {
    if s != [] {
      assert s == [s[0]] + s[1..];
      StripClean(s[1..]);
    }
  }

  /** Stripping a string cut into seven pieces, three of them free of line breaks. */
  lemma StripChain(a: seq<char>, p: seq<char>, b: seq<char>, r: seq<char>, t: seq<char>, u: seq<char>, c: seq<char>)
    requires StripLineBreakChars(a) == [] && StripLineBreakChars(c) == []
    requires StripLineBreakChars(p) == p && StripLineBreakChars(r) == r
    requires StripLineBreakChars(t) == t && StripLineBreakChars(u) == u
    ensures StripLineBreakChars(a + (p + (b + (r + (t + (u + c))))))
         == p + (StripLineBreakChars(b) + (r + (t + u)))
  {
    StripCharsAppend(a, p + (b + (r + (t + (u + c)))));
    StripCharsAppend(p, b + (r + (t + (u + c))));
    StripCharsAppend(b, r + (t + (u + c)));
    StripCharsAppend(r, t + (u + c));
    StripCharsAppend(t, u + c);
    StripCharsAppend(u, c);
  }

  /** A piece that collapses to itself and ends in a space passes unchanged. */
  lemma KeepPiece(prev: char, a: seq<char>, b: seq<char>)
    requires a != [] && a[|a| - 1] == ' ' && CollapseSpaceChars(prev, a) == a
    ensures CollapseSpaceChars(prev, a + b) == a + CollapseSpaceChars(' ', b)
  {
    CollapseCharsAppend(prev, a, b);
  }

  /** A piece of spaces that follows a space is dropped. */
  lemma DropPiece(a: seq<char>, b: seq<char>)
    requires a != [] && a[|a| - 1] == ' ' && CollapseSpaceChars(' ', a) == []
    ensures CollapseSpaceChars(' ', a + b) == CollapseSpaceChars(' ', b)
  {
    CollapseCharsAppend(' ', a, b);
  }

  /** Collapsing kept, dropped, kept, dropped and kept pieces in turn. */
  lemma CollapseChain(p: seq<char>, q: seq<char>, r: seq<char>, t: seq<char>, u: seq<char>)
    requires p != [] && q != [] && r != [] && t != []
    requires p[|p| - 1] == ' ' && q[|q| - 1] == ' ' && r[|r| - 1] == ' ' && t[|t| - 1] == ' '
    requires CollapseSpaceChars('\0', p) == p && CollapseSpaceChars(' ', q) == []
    requires CollapseSpaceChars(' ', r) == r && CollapseSpaceChars(' ', t) == []
    requires CollapseSpaceChars(' ', u) == u
    ensures CollapseSpaceChars('\0', p + (q + (r + (t + u)))) == p + (r + u)
  {
    DropPiece(t, u);
    KeepPiece(' ', r, t + u);
    DropPiece(q, r + (t + u));
    KeepPiece('\0', p, q + (r + (t + u)));
  }

  // ---- the examples of helpers.rs, one fact per piece ----

  lemma StripExampleBreaks()
    ensures StripLineBreakChars("\r") == [] && StripLineBreakChars("\n") == []
    ensures StripLineBreakChars("\r\n\r ") == " " && StripLineBreakChars("  ") == "  "
  {
  }

  lemma StripExampleHead()
    ensures StripLineBreakChars("This is a ") == "This is a "
  {
    StripClean("This is a ");
  }

  lemma StripExampleMiddle()
    ensures StripLineBreakChars("test string. ") == "test string. "
  {
    StripClean("test string. ");
  }

  lemma StripExampleTail()
    ensures StripLineBreakChars("- Normal Person") == "- Normal Person"
  {
    StripClean("- Normal Person");
  }

  lemma CollapseExampleHead()
    ensures CollapseSpaceChars('\0', "This is a ") == "This is a "
  {
    CollapseClean('\0', "This is a ");
  }

  lemma CollapseExampleMiddle()
    ensures CollapseSpaceChars(' ', "test string. ") == "test string. "
  {
    CollapseClean(' ', "test string. ");
  }

  lemma CollapseExampleTail()
    ensures CollapseSpaceChars(' ', "- Normal Person") == "- Normal Person"
  {
    CollapseClean(' ', "- Normal Person");
  }

  lemma CollapseExampleRuns()
    ensures CollapseSpaceChars(' ', " ") == [] && CollapseSpaceChars(' ', "  ") == []
  {
  }

  /**
   * The mixed example: "\rThis is a \r\n\r test string.   - Normal Person\n"
   * becomes "This is a test string. - Normal Person". Both strings are
   * written as concatenations of the pieces the proof works on.
   */
  lemma PreprocessExample()
    ensures Preprocess("\r" + ("This is a " + ("\r\n\r " + ("test string. " + ("  " + ("- Normal Person" + "\n"))))))
         == "This is a " + ("test string. " + "- Normal Person")
  {
    StripExampleBreaks();
    StripExampleHead();
    StripExampleMiddle();
    StripExampleTail();
    StripChain("\r", "This is a ", "\r\n\r ", "test string. ", "  ", "- Normal Person", "\n");
    CollapseExampleHead();
    CollapseExampleMiddle();
    CollapseExampleTail();
    CollapseExampleRuns();
    CollapseChain("This is a ", " ", "test string. ", "  ", "- Normal Person");
  }

  /** Line breaks alone give the empty string; spaces alone give one space. */
  lemma PreprocessLineBreaksExample()
    ensures Preprocess("\n\r\r\n\r") == ""
  {
  }

  lemma PreprocessSpacesExample()
    ensures Preprocess("       ") == " "
  {
    StripClean("       ");
    assert CollapseSpaceChars(' ', "      ") == [];
    assert CollapseSpaceChars('\0', "       ") == " ";
  }
}
