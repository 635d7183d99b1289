/**
 * The rolling polynomial hash: for a salt `a` and bytes b_0 .. b_(l-1) the
 * hash is b_0·a^(l-1) + b_1·a^(l-2) + ... + b_(l-1)·a^0, computed with
 * wrapping 64-bit arithmetic, that is modulo 2^64.
 */
module Hashers {
  import opened Utf8

  const WORD: int := 0x1_0000_0000_0000_0000

  type u64 = x: int | 0 <= x < 0x1_0000_0000_0000_0000
  type u32 = x: int | 0 <= x < 0x1_0000_0000

  function Pow(b: int, e: nat): int
  {
    if e == 0 then 1 else b * Pow(b, e - 1)
  }

  /** Σ bs[i]·salt^(|bs|-1-i), over the unbounded integers. */
  function PolySum(bs: seq<u8>, salt: int): int
  {
    if bs == [] then 0 else bs[0] * Pow(salt, |bs| - 1) + PolySum(bs[1..], salt)
  }

  /** The hash of `bs` under `salt`: the polynomial reduced modulo 2^64. */
  function PolyHash(bs: seq<u8>, salt: int): u64
  {
    PolySum(bs, salt) % WORD
  }

  /** `hash.wrapping_mul(salt).wrapping_add(byte)`: the new hash after `update`. */
  function UpdateHash(h: u64, salt: u64, b: u8): u64
  {
    (h * salt % WORD + b) % WORD
  }

  /** `hash.wrapping_sub(byte.wrapping_mul(salt.wrapping_pow(size - 1)))`: the new hash after `remove`. */
  function RemoveHash(h: u64, salt: u64, size: u32, b: u8): u64
    requires size >= 1
  {
    (h - b * (Pow(salt, size - 1) % WORD) % WORD) % WORD
  }

  /** The hash after `update` has absorbed every byte of `bs`, in order, starting from `h`. */
  function Absorb(h: u64, salt: u64, bs: seq<u8>): u64
    decreases |bs|
  {
    if bs == [] then h else Absorb(UpdateHash(h, salt, bs[0]), salt, bs[1..])
  }

  /** `rand::random::<u8>()` sampled until the value is at least 2: the first draw >= 2. */
  function FirstSalt(draws: seq<u8>): (salt: u64)
    requires exists i :: 0 <= i < |draws| && draws[i] >= 2
    ensures 2 <= salt <= 255
    ensures exists i :: 0 <= i < |draws| && draws[i] == salt && forall j :: 0 <= j < i ==> draws[j] < 2
  {
    if draws[0] >= 2 then draws[0]
    else
      assert draws == [draws[0]] + draws[1..];
      FirstSalt(draws[1..])
  }

  // ---- modular arithmetic ----

  lemma ModShift(x: int, m: int)
    ensures (x + WORD * m) % WORD == x % WORD
  {
  }

  lemma ModOfSum(x: int, y: int)
    ensures (x % WORD + y) % WORD == (x + y) % WORD
  {
    ModShift(x % WORD + y, x / WORD);
  }

  lemma ModOfDiff(x: int, y: int)
    ensures (x - y % WORD) % WORD == (x - y) % WORD
  {
    ModShift(x - y, y / WORD);
  }

  lemma ModOfProd(a: int, x: int)
    ensures a * (x % WORD) % WORD == a * x % WORD
  {
    var q := x / WORD;
    assert x == WORD * q + x % WORD;
    assert a * x == a * (x % WORD) + WORD * (a * q);
    ModShift(a * (x % WORD), a * q);
  }

  lemma {:induction false} PowAdd(b: int, x: nat, y: nat)
    ensures Pow(b, x + y) == Pow(b, x) * Pow(b, y)
  {
    if x > 0 {
      PowAdd(b, x - 1, y);
      assert Pow(b, x + y) == b * Pow(b, x - 1 + y);
    }
  }

  // ---- the polynomial ----

  /** Concatenation shifts the left part up by |b| powers of the salt. */
  lemma {:induction false} PolySumAppend(a: seq<u8>, b: seq<u8>, salt: int)
    ensures PolySum(a + b, salt) == PolySum(a, salt) * Pow(salt, |b|) + PolySum(b, salt)
  {
    if a == [] {
      assert a + b == b;
    } else {
      assert (a + b)[1..] == a[1..] + b;
      PolySumAppend(a[1..], b, salt);
      PowAdd(salt, |a| - 1, |b|);
      var c, p, q := a[0] as int, Pow(salt, |a| - 1), Pow(salt, |b|);
      var r, t := PolySum(a[1..], salt), PolySum(b, salt);
      assert PolySum(a + b, salt) == c * (p * q) + (r * q + t);
      assert PolySum(a, salt) == c * p + r;
      Regroup(c, p, q, r, t);
    }
  }

  lemma Regroup(c: int, p: int, q: int, r: int, t: int)
    ensures c * (p * q) + (r * q + t) == (c * p + r) * q + t
  {
  }

  /** `update(x)` turns the hash of `a` into the hash of `a + [x]`. */
  lemma UpdateExtends(a: seq<u8>, salt: u64, x: u8)
    ensures UpdateHash(PolyHash(a, salt), salt, x) == PolyHash(a + [x], salt)
  {
    PolySumAppend(a, [x], salt);
    assert PolySum([x], salt) == x by { assert [x][1..] == []; }
    assert Pow(salt, 1) == salt;
    var p := PolySum(a, salt);
    var y := p * salt;
    assert PolySum(a + [x], salt) == y + x;
    calc {
      UpdateHash(PolyHash(a, salt), salt, x);
      ((p % WORD) * salt % WORD + x) % WORD;
      { assert (p % WORD) * salt == salt * (p % WORD); ModOfProd(salt, p); assert salt * p == y; }
      (y % WORD + x) % WORD;
      { ModOfSum(y, x); }
      (y + x) % WORD;
    }
  }

  /** `update_buffer(b)` turns the hash of `a` into the hash of `a + b`. */
  lemma {:induction false} AbsorbExtends(a: seq<u8>, salt: u64, b: seq<u8>)
    ensures Absorb(PolyHash(a, salt), salt, b) == PolyHash(a + b, salt)
    decreases |b|
  {
    if b == [] {
      assert a + b == a;
    } else {
      UpdateExtends(a, salt, b[0]);
      AbsorbExtends(a + [b[0]], salt, b[1..]);
      assert a + [b[0]] + b[1..] == a + b;
    }
  }

  /** Hashing from scratch (`from_buffer_with_salt`) yields the polynomial modulo 2^64. */
  lemma FromScratch(salt: u64, bs: seq<u8>)
    ensures Absorb(0, salt, bs) == PolySum(bs, salt) % WORD
  {
    assert PolyHash([], salt) == 0;
    AbsorbExtends([], salt, bs);
    assert [] + bs == bs;
  }

  /** `remove(|bs|, bs[0])` turns the hash of `bs` into the hash of `bs[1..]`. */
  lemma RemoveLeading(bs: seq<u8>, salt: u64)
    requires |bs| >= 1 && |bs| < 0x1_0000_0000
    ensures RemoveHash(PolyHash(bs, salt), salt, |bs|, bs[0]) == PolyHash(bs[1..], salt)
  {
    var p := Pow(salt, |bs| - 1);
    var whole := PolySum(bs, salt);
    assert whole == bs[0] * p + PolySum(bs[1..], salt);
    ModOfProd(bs[0], p);
    ModOfDiff(whole % WORD, bs[0] * (p % WORD));
    ModOfDiff(whole % WORD, bs[0] * p);
    ModOfSum(whole, -(bs[0] * p));
  }

  /**
   * The rolling law: from the hash of bytes [0, n), removing byte 0 with size n
   * and then adding byte n gives the hash of bytes [1, n + 1) with the same salt.
   */
  lemma RollingLaw(bs: seq<u8>, salt: u64, next: u8)
    requires |bs| >= 1 && |bs| < 0x1_0000_0000
    ensures UpdateHash(RemoveHash(PolyHash(bs, salt), salt, |bs|, bs[0]), salt, next)
            == PolyHash(bs[1..] + [next], salt)
  {
    RemoveLeading(bs, salt);
    UpdateExtends(bs[1..], salt, next);
  }

  /** The loop of `new()`: draw random bytes until one is at least 2. */
  method SampleSalt(draws: seq<u8>) returns (salt: u64)
    requires exists i :: 0 <= i < |draws| && draws[i] >= 2
    ensures 2 <= salt <= 255 && salt == FirstSalt(draws)
  {
    var n := 0;
    salt := draws[0];
    assert draws[0..] == draws;
    while salt < 2
      invariant n < |draws| && salt == draws[n]
      invariant forall j :: 0 <= j < n ==> draws[j] < 2
      invariant exists i :: n <= i < |draws| && draws[i] >= 2
      invariant FirstSalt(draws) == FirstSalt(draws[n..])
      decreases |draws| - n
    {
      SkipSmallDraw(draws, n);
      n := n + 1;
      salt := draws[n];
    }
  }

  /** A draw below 2 is skipped: the salt comes from the draws after it. */
  lemma SkipSmallDraw(draws: seq<u8>, n: nat)
    requires n < |draws| && draws[n] < 2
    requires exists i :: n <= i < |draws| && draws[i] >= 2
    ensures exists i :: n + 1 <= i < |draws| && draws[i] >= 2
    ensures FirstSalt(draws[n..]) == FirstSalt(draws[n + 1..])
  {
    assert draws[n..][0] == draws[n] && draws[n..][1..] == draws[n + 1..];
  }

  class RollingPolynomial {
    var hash: u64
    var salt: u64

    /** `new()`: a fresh, empty hash with a random salt in [2, 255]. */
    constructor New(draws: seq<u8>)
      requires exists i :: 0 <= i < |draws| && draws[i] >= 2
      ensures hash == 0 && salt == FirstSalt(draws) && 2 <= salt <= 255
    {
      var s := SampleSalt(draws);
      hash := 0;
      salt := s;
    }

    /** `with_salt(salt)`: an empty hash with the given salt. */
    constructor WithSalt(salt: u64)
      ensures hash == 0 && this.salt == salt
    {
      hash := 0;
      this.salt := salt;
    }

    /** `from_buffer(bytes)`: the hash of `bytes` under a random salt. */
    constructor FromBuffer(bytes: seq<u8>, draws: seq<u8>)
      requires exists i :: 0 <= i < |draws| && draws[i] >= 2
      ensures salt == FirstSalt(draws) && 2 <= salt <= 255
      ensures hash == PolyHash(bytes, salt)
    {
      var s := SampleSalt(draws);
      hash := 0;
      salt := s;
      new;
      UpdateBuffer(bytes);
      FromScratch(salt, bytes);
    }

    /** `from_buffer_with_salt(bytes, salt)`: the hash of `bytes` under `salt`. */
    constructor FromBufferWithSalt(bytes: seq<u8>, salt: u64)
      ensures this.salt == salt && hash == PolyHash(bytes, salt)
    {
      hash := 0;
      this.salt := salt;
      new;
      UpdateBuffer(bytes);
      FromScratch(salt, bytes);
    }

    method Update(b: u8)
      modifies this
      ensures salt == old(salt) && hash == UpdateHash(old(hash), salt, b)
    {
      hash := (hash * salt % WORD + b) % WORD;
    }

    /** `size - 1` underflows on u32 when `size` is 0, so the caller must pass `size >= 1`. */
    method Remove(size: u32, b: u8)
      requires size >= 1
      modifies this
      ensures salt == old(salt) && hash == RemoveHash(old(hash), salt, size, b)
    {
      var power := Pow(salt, size - 1) % WORD;
      hash := (hash - b * power % WORD) % WORD;
    }

    method UpdateBuffer(bytes: seq<u8>)
      modifies this
      ensures salt == old(salt) && hash == Absorb(old(hash), salt, bytes)
    {
      for i := 0 to |bytes|
        invariant salt == old(salt)
        invariant Absorb(old(hash), salt, bytes) == Absorb(hash, salt, bytes[i..])
      {
        assert bytes[i..][1..] == bytes[i + 1..];
        Update(bytes[i]);
      }
    }

    method Hash() returns (h: u64)
      ensures h == hash
    {
      h := hash;
    }

    method Salt() returns (s: u64)
      ensures s == salt
    {
      s := salt;
    }
  }
}
