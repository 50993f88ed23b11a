/** Machine integers, byte strings, and the modulo-256 sums both serial protocols rely on. */
module Bytes {

  type uint8 = x: int | 0 <= x < 0x100
  type uint16 = x: int | 0 <= x < 0x1_0000
  type uint32 = x: int | 0 <= x < 0x1_0000_0000

  /** The all-zero byte string of length `n`. */
  function Zeros(n: nat): (s: seq<uint8>)
    ensures |s| == n
    ensures forall i :: 0 <= i < n ==> s[i] == 0
  {
    seq(n, i => 0)
  }

  /** A little-endian pair read as a 16-bit integer. */
  function ReadLe16(lo: uint8, hi: uint8): uint16 {
    lo + 0x100 * hi
  }

  /** Both nibbles are decimal digits. */
  predicate IsBcd(b: uint8) {
    b / 0x10 <= 9 && b % 0x10 <= 9
  }

  predicate AllBcd(s: seq<uint8>) {
    forall i :: 0 <= i < |s| ==> IsBcd(s[i])
  }

  /** The unbounded sum of a byte string. */
  function Total(s: seq<uint8>): nat {
    if s == [] then 0 else Total(s[..|s| - 1]) + s[|s| - 1]
  }

  /** The sum as an 8-bit accumulator leaves it. */
  function Checksum(s: seq<uint8>): uint8 {
    Total(s) % 0x100
  }

  /** How an 8-bit accumulator takes in one more byte. */
  lemma ChecksumSnoc(s: seq<uint8>, b: uint8)
    ensures Checksum(s + [b]) == (Checksum(s) as int + b as int) % 0x100
  {
    assert (s + [b])[..|s|] == s;
  }

  lemma ChecksumNothing()
    ensures Checksum([]) == 0
  {
  }

  lemma {:induction false} TotalConcat(a: seq<uint8>, b: seq<uint8>)
    ensures Total(a + b) == Total(a) + Total(b)
  {
    if b == [] {
      assert a + b == a;
    } else {
      assert (a + b)[..|a + b| - 1] == a + b[..|b| - 1];
      TotalConcat(a, b[..|b| - 1]);
    }
  }

  lemma {:induction false} TotalUpdate(s: seq<uint8>, i: nat, b: uint8)
    requires i < |s|
    ensures Total(s[i := b]) == Total(s) - s[i] + b
  {
    var n := |s| - 1;
    if i == n {
      assert s[i := b][..n] == s[..n];
    } else {
      assert s[i := b][..n] == s[..n][i := b];
      TotalUpdate(s[..n], i, b);
    }
  }

  /** An 8-bit sum notices every change of a single byte. */
  lemma ChecksumSeesChange(s: seq<uint8>, i: nat, b: uint8)
    requires i < |s| && b != s[i]
    ensures Checksum(s[i := b]) != Checksum(s)
  {
    TotalUpdate(s, i, b);
  }
}
