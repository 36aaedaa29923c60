/** The UTF-8 validator, against the encoding of RFC 3629 sections 3 and 4. */
module Utf8 {
  import opened Bytes

  // ── The encoding (RFC 3629, section 3) ──

  /** A Unicode scalar value: a code point that is not a surrogate. */
  type Scalar = cp: nat | cp <= 0x10FFFF && !(0xD800 <= cp <= 0xDFFF)

  function Encode(cp: Scalar): (r: seq<byte>)
    ensures 1 <= |r| <= 4
  {
    if cp < 0x80 then [cp]
    else if cp < 0x800 then [0xC0 + cp / 64, 0x80 + cp % 64]
    else if cp < 0x10000 then [0xE0 + cp / 64 / 64, 0x80 + cp / 64 % 64, 0x80 + cp % 64]
    else [0xF0 + cp / 64 / 64 / 64, 0x80 + cp / 64 / 64 % 64, 0x80 + cp / 64 % 64, 0x80 + cp % 64]
  }

  function EncodeAll(cps: seq<Scalar>): seq<byte> {
    if cps == [] then [] else Encode(cps[0]) + EncodeAll(cps[1..])
  }

  /** The byte string is the encoding of some sequence of scalar values. */
  ghost predicate IsUtf8(s: seq<byte>) {
    exists cps :: EncodeAll(cps) == s
  }

  // ── What the scan decides, one sequence at a time ──

  /** The sequence length a first byte announces; 0 for a byte that cannot start a sequence. */
  function SeqLen(c: byte): (n: nat)
    ensures n <= 4
  {
    if c < 0x80 then 1 else if c < 0xC0 then 0 else if c < 0xE0 then 2
    else if c < 0xF0 then 3 else if c < 0xF8 then 4 else 0
  }

  /** The least code point that needs a sequence of length `n`. */
  function MinCp(n: nat): nat {
    if n <= 1 then 0 else if n == 2 then 0x80 else if n == 3 then 0x800 else 0x10000
  }

  /** The bits the first byte contributes: `c & (0x7F >> n)`, six bits of an ASCII byte included. */
  function LeadBits(c: byte, n: nat): nat {
    if n == 1 then c % 64 else if n == 2 then c % 32 else if n == 3 then c % 16 else c % 8
  }

  predicate IsContinuation(b: byte) { 0x80 <= b < 0xC0 }

  /** The code point accumulated from the first `j` bytes of a sequence of length `n`. */
  function Accumulated(s: seq<byte>, n: nat, j: nat): nat
    requires 1 <= j <= |s|
  {
    if j == 1 then LeadBits(s[0], n) else Accumulated(s, n, j - 1) * 64 + s[j - 1] % 64
  }

  predicate Continued(s: seq<byte>, j: nat)
    requires 1 <= j <= |s|
  {
    forall k :: 1 <= k < j ==> IsContinuation(s[k])
  }

  /** The scan accepts the sequence at the front of `s`. */
  predicate Accepts(s: seq<byte>)
    requires |s| > 0
  {
    var n := SeqLen(s[0]);
    && n > 0 && n <= |s| && Continued(s, n)
    && var cp := Accumulated(s, n, n);
       MinCp(n) <= cp && !(0xD800 <= cp <= 0xDFFF) && cp <= 0x10FFFF
  }

  /** The scan accepts all of `s`. */
  predicate AcceptsAll(s: seq<byte>) {
    s == [] || (Accepts(s) && AcceptsAll(s[SeqLen(s[0])..]))
  }

  /** The masks and shifts of the scan, on bytes. */
  lemma MasksAreRemainders(c: bv8)
    ensures c & (0x7F >> 1) == c % 64 && c & (0x7F >> 2) == c % 32
    ensures c & (0x7F >> 3) == c % 16 && c & (0x7F >> 4) == c % 8 && c & 0x3F == c % 64
    ensures c & 0xC0 == 0x80 <==> 0x80 <= c < 0xC0
  {
  }

  // ── One sequence ──

  /** Six more bits. */
  function Push6(hi: nat, b: int): nat { hi * 64 + b % 64 }

  lemma Digit(hi: nat, b: int)
    ensures Push6(hi, b) / 64 == hi && Push6(hi, b) % 64 == b % 64
  {
  }

  lemma Undigit(cp: nat)
    ensures Push6(cp / 64, cp) == cp
    ensures Push6(cp / 64, 0x80 + cp % 64) == cp
  {
  }

  /** The accumulation loop, unrolled. */
  lemma Unrolled(s: seq<byte>, n: nat)
    requires 1 <= n <= |s| && n <= 4
    ensures var a := LeadBits(s[0], n);
      Accumulated(s, n, n) ==
      if n == 1 then a else if n == 2 then Push6(a, s[1]) else if n == 3 then Push6(Push6(a, s[1]), s[2])
      else Push6(Push6(Push6(a, s[1]), s[2]), s[3])
  {
    assert Accumulated(s, n, 1) == LeadBits(s[0], n);
    if n > 1 {
      assert Accumulated(s, n, 2) == Push6(Accumulated(s, n, 1), s[1]);
    }
    if n > 2 {
      assert Accumulated(s, n, 3) == Push6(Accumulated(s, n, 2), s[2]);
    }
  }

  /** Six-bit groups of an accepted sequence put back into bytes. */
  lemma ThreeBytes(a: nat, b: byte, c: byte)
    requires a < 16 && IsContinuation(b) && IsContinuation(c)
    ensures var cp := Push6(Push6(a, b), c);
      0x800 <= cp && !(0xD800 <= cp <= 0xDFFF) ==> cp < 0x10000 && Encode(cp) == [0xE0 + a, b, c]
  {
    var hi := Push6(a, b);
    Digit(a, b);
    Digit(hi, c);
    var cp := Push6(hi, c);
    assert hi < 1024 && cp < 0x10000;
    hide Push6;
    assert 0x80 + b % 64 == b && 0x80 + c % 64 == c;
  }

  lemma FourBytes(a: nat, b: byte, c: byte, d: byte)
    requires a < 8 && IsContinuation(b) && IsContinuation(c) && IsContinuation(d)
    ensures var cp := Push6(Push6(Push6(a, b), c), d);
      0x10000 <= cp <= 0x10FFFF ==> Encode(cp) == [0xF0 + a, b, c, d]
  {
    var hi, mid := Push6(a, b), Push6(Push6(a, b), c);
    Digit(a, b);
    Digit(hi, c);
    Digit(mid, d);
    hide Push6;
    assert 0x80 + b % 64 == b && 0x80 + c % 64 == c && 0x80 + d % 64 == d;
  }

  lemma FrontTwo(s: seq<byte>)
    requires |s| >= 2 && SeqLen(s[0]) == 2 && Accepts(s)
    ensures Encode(Accumulated(s, 2, 2)) == s[..2]
  {
    Unrolled(s, 2);
    Digit(LeadBits(s[0], 2), s[1]);
    assert s[..2] == [s[0], s[1]] && IsContinuation(s[1]);
  }

  lemma FrontThree(s: seq<byte>)
    requires |s| >= 3 && SeqLen(s[0]) == 3 && Accepts(s)
    ensures Encode(Accumulated(s, 3, 3)) == s[..3]
  {
    hide Accumulated;
    hide Encode;
    hide Push6;
    Unrolled(s, 3);
    assert s[..3] == [s[0], s[1], s[2]] && IsContinuation(s[1]) && IsContinuation(s[2]);
    ThreeBytes(LeadBits(s[0], 3), s[1], s[2]);
  }

  lemma FrontFour(s: seq<byte>)
    requires |s| >= 4 && SeqLen(s[0]) == 4 && Accepts(s)
    ensures Encode(Accumulated(s, 4, 4)) == s[..4]
  {
    hide Accumulated;
    hide Encode;
    hide Push6;
    Unrolled(s, 4);
    assert s[..4] == [s[0], s[1], s[2], s[3]];
    assert IsContinuation(s[1]) && IsContinuation(s[2]) && IsContinuation(s[3]);
    FourBytes(LeadBits(s[0], 4), s[1], s[2], s[3]);
  }

  /** The scalar an accepted sequence encodes. */
  function FrontScalar(s: seq<byte>): (cp: Scalar)
    requires |s| > 0 && Accepts(s)
    ensures Encode(cp) == s[..SeqLen(s[0])]
  {
    var n := SeqLen(s[0]);
    if n == 1 then
      assert s[..1] == [s[0]];
      s[0]
    else if n == 2 then FrontTwo(s); Accumulated(s, 2, 2)
    else if n == 3 then FrontThree(s); Accumulated(s, 3, 3)
    else FrontFour(s); Accumulated(s, 4, 4)
  }

  lemma LeadOfEncoding(cp: Scalar)
    requires cp >= 0x80
    ensures var e := Encode(cp);
      LeadBits(e[0], |e|) == if |e| == 2 then cp / 64 else if |e| == 3 then cp / 64 / 64 else cp / 64 / 64 / 64
  {
  }

  /** Reading an encoding back gives the scalar. */
  lemma EncodingAccumulates(cp: Scalar, s: seq<byte>)
    requires Encode(cp) <= s && cp >= 0x80
    ensures Accumulated(s, |Encode(cp)|, |Encode(cp)|) == cp
  {
    hide Push6;
    hide Accumulated;
    hide LeadBits;
    var n := |Encode(cp)|;
    assert forall k :: 0 <= k < n ==> s[k] == Encode(cp)[k];
    Unrolled(s, n);
    LeadOfEncoding(cp);
    Undigit(cp);
    if n >= 3 {
      Undigit(cp / 64);
    }
    if n == 4 {
      Undigit(cp / 64 / 64);
    }
  }

  /** Every sequence that starts with a scalar's encoding is accepted, at that encoding's length. */
  lemma EncodingAccepted(cp: Scalar, s: seq<byte>)
    requires Encode(cp) <= s
    ensures Accepts(s) && SeqLen(s[0]) == |Encode(cp)|
  {
    hide Accumulated;
    var e := Encode(cp);
    assert forall k :: 0 <= k < |e| ==> s[k] == e[k];
    if cp >= 0x80 {
      EncodingAccumulates(cp, s);
    } else {
      Unrolled(s, 1);
    }
  }

  // ── All sequences ──

  /** The scalars of an accepted byte string. */
  function DecodeAll(s: seq<byte>): (cps: seq<Scalar>)
    requires AcceptsAll(s)
    ensures EncodeAll(cps) == s
  {
    if s == [] then []
    else
      var n := SeqLen(s[0]);
      var cp := FrontScalar(s);
      var rest := DecodeAll(s[n..]);
      assert ([cp] + rest)[1..] == rest;
      assert s == s[..n] + s[n..];
      [cp] + rest
  }

  lemma {:induction false} EncodingsAccepted(cps: seq<Scalar>)
    ensures AcceptsAll(EncodeAll(cps))
  {
    if cps == [] {
    } else {
      var e, rest := Encode(cps[0]), EncodeAll(cps[1..]);
      EncodingAccepted(cps[0], e + rest);
      assert (e + rest)[|e|..] == rest;
      EncodingsAccepted(cps[1..]);
    }
  }

  /** The scan accepts exactly the concatenations of encodings of scalar values: no overlong
      form, no surrogate, nothing above 0x10FFFF, no truncated or stray byte. */
  lemma AcceptsExactlyUtf8(s: seq<byte>)
    ensures AcceptsAll(s) <==> IsUtf8(s)
  {
    if AcceptsAll(s) {
      assert EncodeAll(DecodeAll(s)) == s;
    }
    if IsUtf8(s) {
      var cps :| EncodeAll(cps) == s;
      EncodingsAccepted(cps);
    }
  }

  /** An encoding determines its scalars. */
  lemma {:induction false} EncodingIsUnique(a: seq<Scalar>, b: seq<Scalar>)
    requires EncodeAll(a) == EncodeAll(b)
    ensures a == b
  {
    if a == [] || b == [] {
      assert a != [] ==> |EncodeAll(a)| >= 1;
      assert b != [] ==> |EncodeAll(b)| >= 1;
    } else {
      var s := EncodeAll(a);
      var ea, eb := Encode(a[0]), Encode(b[0]);
      assert ea <= s && eb <= s;
      EncodingAccepted(a[0], s);
      EncodingAccepted(b[0], s);
      assert ea == s[..|ea|] && eb == s[..|eb|];
      OneEncoding(a[0], b[0]);
      assert EncodeAll(a[1..]) == s[|ea|..] && EncodeAll(b[1..]) == s[|eb|..];
      EncodingIsUnique(a[1..], b[1..]);
      assert a == [a[0]] + a[1..] && b == [b[0]] + b[1..];
    }
  }

  lemma OneEncoding(a: Scalar, b: Scalar)
    requires Encode(a) == Encode(b)
    ensures a == b
  {
    if a >= 0x80 && b >= 0x80 {
      EncodingAccumulates(a, Encode(a));
      EncodingAccumulates(b, Encode(b));
    } else {
      assert Encode(a)[0] < 0x80 <==> a < 0x80;
      assert Encode(b)[0] < 0x80 <==> b < 0x80;
    }
  }

  // ── The validator ──

  /** UTF8_validate: 1 exactly for UTF-8. A missing buffer or a negative length is refused. */
  method Validate(data: array?<byte>, len: int) returns (verdict: int)
    requires data != null ==> len <= data.Length
    ensures verdict == 0 || verdict == 1
    ensures verdict == 1 <==> data != null && len >= 0 && IsUtf8(data[..len])
  {
    if data == null || len < 0 {
      return 0;
    }
    ghost var all := data[..len];
    AcceptsExactlyUtf8(all);
    var i := 0;
    while i < len
      invariant 0 <= i <= len
      invariant AcceptsAll(all) == AcceptsAll(all[i..])
    {
      ghost var rest := all[i..];
      var c := data[i];
      assert rest[0] == c;
      var seqLen: nat, minCp: nat := 1, 0;
      if c < 0x80 {
      } else if c < 0xC0 {
        return 0;
      } else if c < 0xE0 {
        seqLen, minCp := 2, 0x80;
      } else if c < 0xF0 {
        seqLen, minCp := 3, 0x800;
      } else if c < 0xF8 {
        seqLen, minCp := 4, 0x10000;
      } else {
        return 0;
      }
      if i + seqLen > len {
        return 0;
      }
      var cp: nat := LeadBits(c, seqLen);
      for j := 1 to seqLen
        invariant cp == Accumulated(rest, seqLen, j) && Continued(rest, j)
      {
        var b := data[i + j];
        assert rest[j] == b;
        if !IsContinuation(b) {
          return 0;
        }
        cp := cp * 64 + b % 64;
      }
      if cp < minCp {
        return 0;
      }
      if cp >= 0xD800 && cp <= 0xDFFF {
        return 0;
      }
      if cp > 0x10FFFF {
        return 0;
      }
      assert rest[seqLen..] == all[i + seqLen..];
      i := i + seqLen;
    }
    assert all[i..] == [];
    return 1;
  }
}
