/** Bytes and the one copy primitive every component uses. */
module Bytes {

  type byte = x: int | 0 <= x < 256

  /** `n` zero bytes. */
  function Zeros(n: nat): (r: seq<byte>)
    ensures |r| == n
  {
    seq(n, _ => 0)
  }

  /** `dst` with `n` bytes at `at` replaced by the bytes of `src` that start at `from`. */
  function Blit(dst: seq<byte>, at: nat, src: seq<byte>, from: nat, n: nat): (r: seq<byte>)
    requires at + n <= |dst| && from + n <= |src|
    ensures |r| == |dst|
    ensures forall i :: at <= i < at + n ==> r[i] == src[from + i - at]
    ensures forall i :: 0 <= i < |r| && !(at <= i < at + n) ==> r[i] == dst[i]
  {
    dst[..at] + src[from..from + n] + dst[at + n..]
  }

  /** What a copy leaves in front of its end. */
  lemma BlitAppends(dst: seq<byte>, at: nat, src: seq<byte>, from: nat, n: nat)
    requires at + n <= |dst| && from + n <= |src|
    ensures Blit(dst, at, src, from, n)[..at + n] == dst[..at] + src[from..from + n]
  {
  }

  /** The byte copy the runtime performs, in place. */
  method CopyBytes(dst: array<byte>, at: nat, src: seq<byte>, from: nat, n: nat)
    requires at + n <= dst.Length && from + n <= |src|
    modifies dst
    ensures dst[..] == Blit(old(dst[..]), at, src, from, n)
  {
    for j := 0 to n
      invariant forall i :: 0 <= i < dst.Length ==>
        dst[i] == if at <= i < at + j then src[from + i - at] else old(dst[i])
    {
      dst[at + j] := src[from + j];
    }
  }
}
