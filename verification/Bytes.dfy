/** Bytes, digests, little-endian integers and the small result types shared by every module. */
module Bytes {
  type byte = x: int | 0 <= x < 256

  /** A 32-byte BLAKE3 output. */
  type Digest = d: seq<byte> | |d| == 32 witness seq(32, _ => 0)

  /** The hash function is a parameter of everything that hashes: nothing below relies on what it computes. */
  type Hasher = seq<byte> -> Digest

  datatype Option<+T> = None | Some(value: T)

  datatype Result<+T> = Ok(value: T) | Err

  function ZeroDigest(): Digest {
    seq(32, _ => 0)
  }

  /** The bytes of an ASCII literal. */
  function Ascii(s: string): (r: seq<byte>)
    ensures |r| == |s|
  {
    seq(|s|, i requires 0 <= i < |s| => s[i] as int % 256)
  }

  function Pow256(k: nat): (r: nat)
    ensures r > 0
  {
    if k == 0 then 1 else 256 * Pow256(k - 1)
  }

  /** `n` in `k` little-endian bytes; a larger `n` loses its high bytes, as a truncating cast does. */
  function EncodeLE(n: nat, k: nat): (r: seq<byte>)
    ensures |r| == k
    decreases k
  {
    if k == 0 then [] else [n % 256] + EncodeLE(n / 256, k - 1)
  }

  function DecodeLE(s: seq<byte>): (n: nat)
    ensures n < Pow256(|s|)
  {
    if s == [] then 0 else s[0] + 256 * DecodeLE(s[1..])
  }

  lemma {:induction false} DecodeEncodeLE(n: nat, k: nat)
    requires n < Pow256(k)
    ensures DecodeLE(EncodeLE(n, k)) == n
    decreases k
  {
    if k > 0 {
      assert EncodeLE(n, k)[1..] == EncodeLE(n / 256, k - 1);
      DecodeEncodeLE(n / 256, k - 1);
    }
  }

  lemma {:induction false} EncodeDecodeLE(s: seq<byte>)
    ensures EncodeLE(DecodeLE(s), |s|) == s
  {
    if s != [] {
      var rest := DecodeLE(s[1..]);
      assert (s[0] + 256 * rest) / 256 == rest && (s[0] + 256 * rest) % 256 == s[0];
      EncodeDecodeLE(s[1..]);
    }
  }

  lemma Pow256Eight()
    ensures Pow256(4) == 0x1_0000_0000
    ensures Pow256(8) == 0x1_0000_0000_0000_0000
  {
    assert Pow256(4) == 256 * (256 * (256 * (256 * Pow256(0))));
    assert Pow256(8) == 256 * (256 * (256 * (256 * Pow256(4))));
  }

  function Joined(parts: seq<seq<byte>>): seq<byte> {
    if parts == [] then [] else parts[0] + Joined(parts[1..])
  }

  /** A slice is the join of its two halves. */
  lemma Glue<T>(s: seq<T>, i: nat, j: nat, k: nat)
    requires i <= j <= k <= |s|
    ensures s[i..k] == s[i..j] + s[j..k]
  {
  }

  /** A tail that begins with `a + b`. */
  lemma PeelTail<T>(s: seq<T>, from: nat, a: seq<T>, b: seq<T>)
    requires from <= |s| && a + b <= s[from..]
    ensures from + |a| <= |s|
    ensures s == s[..from] + a + s[from + |a|..]
    ensures b <= s[from + |a|..]
  {
    var t := s[from..];
    assert t[..|a| + |b|] == a + b;
    assert t[..|a|] == a;
    assert t[|a|..][..|b|] == b;
    assert s[from + |a|..] == t[|a|..];
    assert s == s[..from] + t[..|a|] + t[|a|..];
  }

  /** The parts of a five-part join, by position. */
  lemma JoinOfFive<T>(a: seq<T>, b: seq<T>, c: seq<T>, d: seq<T>, e: seq<T>)
    ensures var s := a + b + c + d + e;
            var i, j, k, l := |a|, |a| + |b|, |a| + |b| + |c|, |a| + |b| + |c| + |d|;
            && s[0..i] == a && s[i..j] == b && s[j..k] == c && s[k..l] == d && s[l..l + |e|] == e
  {
  }

  /** The parts of a three-part record that lies between `before` and `after`. */
  lemma JoinBetween<T>(before: seq<T>, a: seq<T>, b: seq<T>, c: seq<T>, after: seq<T>)
    ensures var s := before + (a + b + c) + after;
            var i := |before| + |a|;
            && a <= s[|before|..]
            && s[i..i + |b|] == b
            && s[i + |b|..i + |b| + |c|] == c
  {
    var s := before + (a + b + c) + after;
    assert s[|before|..] == a + (b + c + after);
  }

  lemma SliceOfPrefix<T>(s: seq<T>, v: nat, i: nat, j: nat)
    requires i <= j <= v <= |s|
    ensures s[..v][i..j] == s[i..j]
  {
  }

  /** The front of a tail is the front of any slice that starts there. */
  lemma FrontOfSlice<T>(s: seq<T>, i: nat, j: nat, n: nat)
    requires i + n <= j <= |s|
    ensures s[i..][..n] == s[i..j][..n]
    ensures s[i + n..j] == s[i..j][n..]
  {
  }

  lemma Regroup<T>(a: seq<T>, b: seq<T>, c: seq<T>)
    ensures a + (b + c) == a + b + c
  {
  }

  lemma SubsetSize<T>(a: set<T>, b: set<T>)
    requires a <= b
    ensures |a| <= |b|
  {
    var rest := b - a;
    assert b == a + rest;
    assert |a + rest| == |a| + |rest|;
  }

  lemma SliceOfTail<T>(s: seq<T>, at: nat, i: nat, j: nat)
    requires at <= |s| && i <= j <= |s| - at
    ensures s[at..][i..j] == s[at + i..at + j] && s[at..][j..] == s[at + j..]
  {
  }

  lemma PrefixOfPrefix<T>(s: seq<T>, v: nat, i: nat)
    requires i <= v <= |s|
    ensures s[..v][..i] == s[..i]
  {
  }

  /** Putting back a slice that another sequence shares. */
  lemma SharedSlice<T>(s: seq<T>, other: seq<T>, i: nat, j: nat)
    requires i <= j <= |s| && j <= |other| && other[i..j] == s[i..j]
    ensures other == other[..i] + s[i..j] + other[j..]
  {
  }
}
