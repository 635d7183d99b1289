/**
 * UTF-8 encoding of Unicode scalar values (section 3 of RFC 3629) and the
 * byte offsets at which the characters of a string start. A Rust `&str` is
 * modelled as the sequence of its characters; its bytes are `Encode(s)` and
 * `s.len()` is `|Encode(s)|`.
 */
module Utf8 {

  type u8 = x: int | 0 <= x < 0x100

  /** Number of bytes in the UTF-8 encoding of `c`. */
  function CharLen(c: char): (n: nat)
    ensures 1 <= n <= 4
  {
    if c as int < 0x80 then 1
    else if c as int < 0x800 then 2
    else if c as int < 0x1_0000 then 3
    else 4
  }

  /** The UTF-8 encoding of one scalar value. */
  function EncodeChar(c: char): (bs: seq<u8>)
    ensures |bs| == CharLen(c)
    // ASCII encodes as itself ...
    ensures c as int < 0x80 ==> bs == [c as int]
    // ... and no byte of a multi-byte sequence is an ASCII byte
    ensures c as int >= 0x80 ==> forall j :: 0 <= j < |bs| ==> bs[j] >= 0x80
  {
    var v := c as int;
    if v < 0x80 then [v]
    else if v < 0x800 then [0xC0 + v / 0x40, 0x80 + v % 0x40]
    else if v < 0x1_0000 then [0xE0 + v / 0x1000, 0x80 + (v / 0x40) % 0x40, 0x80 + v % 0x40]
    else [0xF0 + v / 0x4_0000, 0x80 + (v / 0x1000) % 0x40, 0x80 + (v / 0x40) % 0x40, 0x80 + v % 0x40]
  }

  /** The bytes of a string (`s.as_bytes()`). */
  function Encode(s: seq<char>): seq<u8>
  {
    if s == [] then [] else EncodeChar(s[0]) + Encode(s[1..])
  }

  /** The byte offset at which character `i` starts; `Offset(s, |s|)` is `s.len()`. */
  function Offset(s: seq<char>, i: nat): nat
    requires i <= |s|
  {
    |Encode(s[..i])|
  }

  /** Rust's `is_char_boundary`: `b` is the start of a character or the end of `s`. */
  ghost predicate IsCharBoundary(s: seq<char>, b: nat)
  {
    b <= |Encode(s)| && exists i :: 0 <= i <= |s| && Offset(s, i) == b
  }

  lemma {:induction false} EncodeAppend(a: seq<char>, b: seq<char>)
    ensures Encode(a + b) == Encode(a) + Encode(b)
  {
    if a != [] {
      assert (a + b)[1..] == a[1..] + b;
      EncodeAppend(a[1..], b);
    } else {
      assert a + b == b;
    }
  }

  /** Every character takes at most four bytes. */
  lemma {:induction false} EncodeBound(s: seq<char>)
    ensures |Encode(s)| <= 4 * |s|
  {
    if s != [] {
      EncodeBound(s[1..]);
    }
  }

  lemma EncodeSingle(c: char)
    ensures Encode([c]) == EncodeChar(c)
  {
    assert [c][1..] == [];
  }

  /** The bytes of `s[i..j]` are exactly the bytes between the offsets of `i` and `j`. */
  lemma {:induction false} OffsetSlice(s: seq<char>, i: nat, j: nat)
    requires i <= j <= |s|
    ensures Offset(s, |s|) == |Encode(s)|
    ensures Offset(s, i) + |Encode(s[i..j])| == Offset(s, j) <= |Encode(s)|
    ensures Encode(s[i..j]) == Encode(s)[Offset(s, i)..Offset(s, j)]
  {
    assert s[..|s|] == s;
    assert s[..j] == s[..i] + s[i..j];
    assert s == s[..j] + s[j..];
    EncodeAppend(s[..i], s[i..j]);
    EncodeAppend(s[..j], s[j..]);
  }

  /** Every character takes at least one byte, so offsets strictly increase. */
  lemma OffsetStrict(s: seq<char>, i: nat, j: nat)
    requires i < j <= |s|
    ensures Offset(s, i) < Offset(s, j)
  {
    OffsetSlice(s, i, j);
  }

  lemma OffsetCons(s: seq<char>, i: nat)
    requires 1 <= i <= |s|
    ensures Offset(s, i) == CharLen(s[0]) + Offset(s[1..], i - 1)
  {
    assert s[..i][1..] == s[1..][..i - 1];
  }

  lemma BoundaryOfTail(s: seq<char>, b: nat)
    requires IsCharBoundary(s, b) && b != 0
    ensures |s| > 0 && CharLen(s[0]) <= b && IsCharBoundary(s[1..], b - CharLen(s[0]))
  {
    var i :| 0 <= i <= |s| && Offset(s, i) == b;
    assert s[..0] == [];
    assert i != 0;
    OffsetCons(s, i);
    OffsetSlice(s[1..], i - 1, i - 1);
  }

  /** No two character positions share a byte offset. */
  lemma OffsetInjective(s: seq<char>, i: nat)
    requires i <= |s|
    ensures forall j :: 0 <= j <= |s| && Offset(s, j) == Offset(s, i) ==> j == i
  {
    forall j | 0 <= j <= |s| && Offset(s, j) == Offset(s, i)
      ensures j == i
    {
      if j < i {
        OffsetStrict(s, j, i);
      } else if i < j {
        OffsetStrict(s, i, j);
      }
    }
  }

  /** The character index of a byte offset on a character boundary: the only position at that offset. */
  function CharIndexOf(s: seq<char>, b: nat): (i: nat)
    requires IsCharBoundary(s, b)
    ensures i <= |s| && Offset(s, i) == b
    ensures forall j :: 0 <= j <= |s| && Offset(s, j) == b ==> j == i
    decreases |s|
  {
    if b == 0 then
      assert s[..0] == [];
      OffsetInjective(s, 0);
      0
    else
      BoundaryOfTail(s, b);
      var j := CharIndexOf(s[1..], b - CharLen(s[0]));
      OffsetCons(s, j + 1);
      OffsetInjective(s, j + 1);
      j + 1
  }

  /**
   * Rust's `&s[start..end]`: defined only when both ends are character
   * boundaries (Rust panics otherwise); the result is the string whose bytes
   * are bytes `start..end` of `s`.
   */
  function SliceBytes(s: seq<char>, start: nat, end: nat): (r: seq<char>)
    requires IsCharBoundary(s, start) && IsCharBoundary(s, end) && start <= end
    ensures Encode(r) == Encode(s)[start..end]
  {
    var i := CharIndexOf(s, start);
    var j := CharIndexOf(s, end);
    if j < i then OffsetStrict(s, j, i); [] else
    OffsetSlice(s, i, j);
    s[i..j]
  }

  /** Slicing at the offsets of characters `i` and `j` yields the characters `i..j`. */
  lemma {:induction false} SliceAtOffsets(s: seq<char>, i: nat, j: nat)
    requires i <= j <= |s|
    ensures IsCharBoundary(s, Offset(s, i)) && IsCharBoundary(s, Offset(s, j))
    ensures Offset(s, i) <= Offset(s, j)
    ensures SliceBytes(s, Offset(s, i), Offset(s, j)) == s[i..j]
  {
    OffsetSlice(s, i, j);
    var i' := CharIndexOf(s, Offset(s, i));
    var j' := CharIndexOf(s, Offset(s, j));
  }

  /** The first component of `s.char_indices().unzip()`: the start offset of each character. */
  function CharStarts(s: seq<char>): (r: seq<nat>)
    ensures |r| == |s|
    ensures forall i :: 0 <= i < |s| ==> r[i] == Offset(s, i)
    // the offsets strictly increase and all lie inside the string's bytes
    ensures forall i, j :: 0 <= i < j < |s| ==> r[i] < r[j]
    ensures forall i :: 0 <= i < |s| ==> r[i] < |Encode(s)|
  {
    OffsetsIncrease(s);
    seq(|s|, i requires 0 <= i < |s| => Offset(s, i))
  }

  /** Offsets grow with the character index, up to the byte length of the whole string. */
  lemma OffsetsIncrease(s: seq<char>)
    ensures forall i, j :: 0 <= i < j <= |s| ==> Offset(s, i) < Offset(s, j)
    ensures Offset(s, |s|) == |Encode(s)|
  {
    assert s[..|s|] == s;
    forall i, j | 0 <= i < j <= |s|
      ensures Offset(s, i) < Offset(s, j)
    {
      OffsetStrict(s, i, j);
    }
  }
}
