/** Bytes and big-endian numbers, as the wire formats of the repository use them. */
module Bytes {
  import opened Common

  type byte = b: int | 0 <= b < 256

  type bytes = seq<byte>

  function Pow256(n: nat): (p: nat)
    ensures p > 0
  {
    if n == 0 then 1 else 256 * Pow256(n - 1)
  }

  /** The n low-order bytes of v, most significant first. */
  function Encode(v: nat, n: nat): (s: bytes)
    ensures |s| == n
    decreases n
  {
    if n == 0 then [] else Encode(v / 256, n - 1) + [v % 256]
  }

  function Decode(s: bytes): nat {
    if s == [] then 0 else Decode(s[..|s| - 1]) * 256 + s[|s| - 1]
  }

  lemma {:induction false} DecodeEncode(v: nat, n: nat)
    ensures Decode(Encode(v, n)) == v % Pow256(n)
    decreases n
  {
    if n != 0 {
      DecodeEncode(v / 256, n - 1);
      assert Encode(v, n)[..n - 1] == Encode(v / 256, n - 1);
      ModStep(v, Pow256(n - 1));
    }
  }

  lemma ModStep(v: nat, p: nat)
    requires p > 0
    ensures v % (256 * p) == (v / 256) % p * 256 + v % 256
  {
    var q, r := v / 256, v % 256;
    var a, b := q / p, q % p;
    assert q == a * p + b;
    assert v == 256 * (a * p + b) + r == (256 * p) * a + (256 * b + r);
    assert 0 <= 256 * b + r < 256 * p by { assert b <= p - 1; }
    QuotientUnique(v, 256 * p, a, 256 * b + r);
  }

  lemma {:induction false} DecodeBound(s: bytes)
    ensures Decode(s) < Pow256(|s|)
  {
    if s != [] {
      DecodeBound(s[..|s| - 1]);
    }
  }

  lemma {:induction false} EncodeDecode(s: bytes)
    ensures Encode(Decode(s), |s|) == s
  {
    if s != [] {
      var n := |s| - 1;
      EncodeDecode(s[..n]);
      assert Decode(s) / 256 == Decode(s[..n]) && Decode(s) % 256 == s[n];
      assert s == s[..n] + [s[n]];
    }
  }

  /** Leading zeros do not change the value. */
  lemma {:induction false} DecodeZeros(k: nat, s: bytes)
    ensures Decode(seq(k, _ => 0) + s) == Decode(s)
    decreases |s|, k
  {
    if s == [] {
      if k > 0 {
        assert seq(k, _ => 0) + s == seq(k, _ => 0);
        assert (seq(k, _ => 0) + s)[..k - 1] == seq(k - 1, _ => 0) + [];
        DecodeZeros(k - 1, []);
      }
    } else {
      var n := |s| - 1;
      assert (seq(k, _ => 0) + s)[..k + n] == seq(k, _ => 0) + s[..n];
      DecodeZeros(k, s[..n]);
    }
  }
}
