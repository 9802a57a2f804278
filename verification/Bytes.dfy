/** Bytes, little-endian numbers and the few sequence operations that stand for
    `memcpy` and `memset` in the modelled C and Java code. */
module Bytes {

  type byte = x: int | 0 <= x < 256

  const SECTOR := 512

  function Pow256(n: nat): (p: nat)
    ensures p > 0
  {
    if n == 0 then 1 else 256 * Pow256(n - 1)
  }

  /** The number whose little-endian representation is `s`. */
  function FromLe(s: seq<byte>): (v: nat)
    ensures v < Pow256(|s|)
  {
    if s == [] then 0 else s[0] + 256 * FromLe(s[1..])
  }

  /** The `n` low bytes of `v`, least significant first. */
  function ToLe(v: nat, n: nat): (s: seq<byte>)
    ensures |s| == n
  {
    if n == 0 then [] else [v % 256] + ToLe(v / 256, n - 1)
  }

  lemma {:induction false} FromToLe(v: nat, n: nat)
    ensures v < Pow256(n) ==> FromLe(ToLe(v, n)) == v
  {
    if n > 0 {
      FromToLe(v / 256, n - 1);
      assert ToLe(v, n)[1..] == ToLe(v / 256, n - 1);
    }
  }

  lemma Pow256At8()
    ensures Pow256(2) == 0x1_0000 && Pow256(4) == 0x1_0000_0000 && Pow256(8) == 0x1_0000_0000_0000_0000
  {
    assert Pow256(1) == 256;
    assert Pow256(2) == 0x1_0000;
    assert Pow256(3) == 0x100_0000;
    assert Pow256(4) == 0x1_0000_0000;
    assert Pow256(5) == 0x100_0000_0000;
    assert Pow256(6) == 0x1_0000_0000_0000;
    assert Pow256(7) == 0x100_0000_0000_0000;
  }

  function Zeros(n: nat): (s: seq<byte>)
    ensures |s| == n
  {
    seq(n, _ => 0)
  }

  predicate IsZero(s: seq<byte>) {
    forall i :: 0 <= i < |s| ==> s[i] == 0
  }

  /** The first `n` bytes of a file holding `s`: what lies past its end reads as zero. */
  function Padded(s: seq<byte>, n: nat): (r: seq<byte>)
    ensures |r| == n
  {
    seq(n, i requires 0 <= i => if i < |s| then s[i] else 0)
  }

  /** `s` with the bytes from `at` on replaced by `data`. */
  function Splice<T>(s: seq<T>, at: nat, data: seq<T>): (r: seq<T>)
    requires at + |data| <= |s|
    ensures |r| == |s|
    ensures forall k :: 0 <= k < |s| ==> r[k] == if at <= k < at + |data| then data[k - at] else s[k]
  {
    s[..at] + data + s[at + |data|..]
  }

  /** Two writes to adjacent parts of an array. */
  lemma TwoParts<T>(s0: seq<T>, s1: seq<T>, s2: seq<T>, at: nat, k: nat, n: nat)
    requires |s0| == |s1| == |s2| && at + k + n <= |s0|
    requires s1[..at] == s0[..at] && s1[at + k..] == s0[at + k..]
    requires s2[..at + k] == s1[..at + k] && s2[at + k + n..] == s1[at + k + n..]
    ensures s2[..at] == s0[..at] && s2[at + k + n..] == s0[at + k + n..]
    ensures s2[at..at + k + n] == s1[at..at + k] + s2[at + k..at + k + n]
  {
    assert s2[..at] == s2[..at + k][..at] == s1[..at];
    assert s2[at..at + k] == s2[..at + k][at..] == s1[at..at + k];
    assert s1[at + k + n..] == s1[at + k..][n..];
  }

  /** A write inside a part of an array, seen from that part. */
  lemma SpliceInside<T>(s: seq<T>, from: nat, n: nat, at: nat, data: seq<T>)
    requires from + n <= |s| && at + |data| <= n
    ensures Splice(s, from + at, data)[from..from + n] == Splice(s[from..from + n], at, data)
  {
  }

  /** `memcpy(dst + at, src, |src|)`. */
  method CopyIn(dst: array<byte>, at: nat, src: seq<byte>)
    requires at + |src| <= dst.Length
    modifies dst
    ensures dst[..] == Splice(old(dst[..]), at, src)
    ensures dst[at..at + |src|] == src
    ensures dst[..at] == old(dst[..at]) && dst[at + |src|..] == old(dst[at + |src|..])
  {
    forall k | 0 <= k < |src| {
      dst[at + k] := src[k];
    }
  }
}
