/**
 * Bytes and the big-endian readings of a byte sequence that the Base62
 * encoder (System.Numerics.BigInteger with isBigEndian: true) and the
 * timestamp writer (BinaryPrimitives.WriteInt64BigEndian) rely on.
 */
module Bytes {

  newtype byte = x: int | 0 <= x < 256

  function Pow(b: nat, e: nat): (r: nat)
    ensures b > 0 ==> r > 0
  {
    if e == 0 then 1 else b * Pow(b, e - 1)
  }

  /** The unsigned value of `s`, most significant byte first. */
  function Unsigned(s: seq<byte>): nat {
    if s == [] then 0 else s[0] as nat * Pow(256, |s| - 1) + Unsigned(s[1..])
  }

  /**
   * The two's-complement value of `s`, most significant byte first, as
   * BigInteger reads it: the empty sequence is 0, and a first byte of 0x80
   * or more makes the value negative.
   */
  function Signed(s: seq<byte>): int {
    if s != [] && s[0] >= 0x80 then Unsigned(s) - Pow(256, |s|) else Unsigned(s)
  }

  /** The low `n` bytes of `u`, most significant first. */
  function BigEndian(u: nat, n: nat): (s: seq<byte>)
    ensures |s| == n
  {
    if n == 0 then [] else [((u / Pow(256, n - 1)) % 256) as byte] + BigEndian(u, n - 1)
  }

  lemma {:induction false} UnsignedBound(s: seq<byte>)
    ensures Unsigned(s) < Pow(256, |s|)
  {
    if s != [] {
      var p := Pow(256, |s| - 1);
      UnsignedBound(s[1..]);
      MulLe(s[0] as int, 255, p);
    }
  }

  /** A first byte below 0x80 (or no byte at all) gives a non-negative value, one of 0x80 or more a negative one. */
  lemma SignOfSigned(s: seq<byte>)
    ensures Signed(s) < 0 <==> s != [] && s[0] >= 0x80
  {
    if s != [] && s[0] >= 0x80 {
      UnsignedBound(s);
    }
  }

  /** A zero byte in front of a non-negative value changes nothing: BigInteger drops it. */
  lemma LeadingZeroByte(s: seq<byte>)
    requires s == [] || s[0] < 0x80
    ensures Signed([0] + s) == Signed(s)
  {
    assert ([0] + s)[1..] == s;
  }

  lemma {:induction false} AllZeroBytes(s: seq<byte>)
    requires forall i :: 0 <= i < |s| ==> s[i] == 0
    ensures Signed(s) == 0
  {
    if s != [] {
      AllZeroBytes(s[1..]);
    }
  }

  lemma MulLe(a: int, b: int, c: nat)
    requires a <= b
    ensures a * c <= b * c
  {
  }

  lemma Distrib(a: int, b: int, c: int)
    ensures (a - b) * c == a * c - b * c
    ensures (a + b) * c == a * c + b * c
    ensures (a * b) * c == a * (b * c)
  {
  }

  /** `u % m` and `u / m` are determined by any quotient/remainder split of `u`. */
  lemma ModUnique(u: nat, m: nat, k: nat, t: nat)
    requires m > 0 && u == k * m + t && t < m
    ensures u % m == t && u / m == k
  {
    var q, r := u / m, u % m;
    assert u == q * m + r;
    if k > q {
      Distrib(k, q, m);
      MulLe(1, k - q, m);
    } else if k < q {
      Distrib(q, k, m);
      MulLe(1, q - k, m);
    }
  }

  lemma ModSplit(u: nat, p: nat)
    requires p > 0
    ensures ((u / p) % 256) * p + u % p == u % (256 * p)
  {
    var q, r := u / p, u % p;
    var a, b := q / 256, q % 256;
    assert u == q * p + r;
    assert q == a * 256 + b;
    Distrib(a * 256, b, p);
    Distrib(a, 256, p);
    MulLe(b, 255, p);
    ModUnique(u, 256 * p, a, b * p + r);
  }

  /** Writing the low `n` bytes of `u` and reading them back gives `u` modulo 256^n. */
  lemma {:induction false} UnsignedOfBigEndian(u: nat, n: nat)
    ensures Unsigned(BigEndian(u, n)) == u % Pow(256, n)
  {
    if n > 0 {
      var p := Pow(256, n - 1);
      var s := BigEndian(u, n);
      UnsignedOfBigEndian(u, n - 1);
      assert s[1..] == BigEndian(u, n - 1);
      ModSplit(u, p);
    }
  }

  /** Byte `k` (counted from the most significant) of the low `n` bytes of `u`. */
  lemma {:induction false} BigEndianAt(u: nat, n: nat, k: nat)
    requires k < n
    ensures BigEndian(u, n)[k] == ((u / Pow(256, n - 1 - k)) % 256) as byte
  {
    if k > 0 {
      BigEndianAt(u, n - 1, k - 1);
    }
  }
}
