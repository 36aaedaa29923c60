/** The WebSocket frame header codec (RFC 6455, section 5.2) and the corpus the benchmark
    builds and validates with it. */
module WsFrame {
  import opened Bytes

  // ── Big-endian numbers ──

  /** The number the bytes spell, most significant first: the decoder's accumulation. */
  function FromBytes(s: seq<byte>): (v: nat) {
    if s == [] then 0 else FromBytes(s[..|s| - 1]) * 256 + s[|s| - 1]
  }

  /** `x` in `n` bytes, most significant first. */
  function ToBytes(x: nat, n: nat): (s: seq<byte>)
    ensures |s| == n
  {
    if n == 0 then [] else ToBytes(x / 256, n - 1) + [x % 256]
  }

  /** `x >> (8 * k)`. */
  function Shr8(x: nat, k: nat): nat {
    if k == 0 then x else Shr8(x / 256, k - 1)
  }

  /** 256 to the power `n`. */
  function Limit(n: nat): (r: nat)
    ensures r >= 1
  {
    if n == 0 then 1 else 256 * Limit(n - 1)
  }

  /** The encoder writes byte `i` of `n` as `(x >> (8 * (n - 1 - i))) & 255`. */
  lemma {:induction false} ToBytesAt(x: nat, n: nat, i: nat)
    requires i < n
    ensures ToBytes(x, n)[i] == Shr8(x, n - 1 - i) % 256
  {
    if i == n - 1 {
    } else {
      ToBytesAt(x / 256, n - 1, i);
    }
  }

  lemma {:induction false} NumberRoundTrip(x: nat, n: nat)
    requires x < Limit(n)
    ensures FromBytes(ToBytes(x, n)) == x
  {
    if n == 0 {
    } else {
      NumberRoundTrip(x / 256, n - 1);
      assert ToBytes(x, n)[..n - 1] == ToBytes(x / 256, n - 1);
    }
  }

  lemma {:induction false} BytesRoundTrip(s: seq<byte>)
    ensures ToBytes(FromBytes(s), |s|) == s && FromBytes(s) < Limit(|s|)
  {
    if s == [] {
    } else {
      var init, last := s[..|s| - 1], s[|s| - 1];
      BytesRoundTrip(init);
      assert FromBytes(s) / 256 == FromBytes(init) && FromBytes(s) % 256 == last;
      assert s == init + [last];
    }
  }

  /** The bit operations of the two fixed bytes. */
  lemma FixedByteBits(b: bv8, l7: bv8, op: bv8)
    ensures b & 127 == b % 128 && b & 15 == b % 16 && (b & 128 != 0 <==> b >= 128)
    ensures l7 < 128 ==> 128 | l7 == 128 + l7
    ensures op < 16 ==> 128 | op == 128 + op
  {
  }

  // ── Headers ──

  /** What a header says. `len` is the payload length, `key` the masking key (0 when unmasked). */
  datatype Header = Header(fin: bool, opcode: nat, masked: bool, len: nat, key: nat)

  const INT32_LIMIT: nat := 0x8000_0000
  const INT64_LIMIT: nat := 0x8000_0000_0000_0000

  /** A header the protocol can carry: 63 bits of length, 32 bits of key. */
  predicate HeaderOk(h: Header) {
    h.opcode < 16 && h.len < INT64_LIMIT && (if h.masked then h.key < Limit(4) else h.key == 0)
  }

  function LenFieldLen(len: nat): (n: nat)
    ensures n == 2 || n == 4 || n == 10
  {
    if len <= 125 then 2 else if len <= 65535 then 4 else 10
  }

  function HeaderLen(h: Header): nat { LenFieldLen(h.len) + if h.masked then 4 else 0 }

  function LenCode(len: nat): byte {
    if len <= 125 then len else if len <= 65535 then 126 else 127
  }

  function FirstByte(h: Header): byte
    requires h.opcode < 16
  {
    (if h.fin then 128 else 0) + h.opcode
  }

  function SecondByte(h: Header): byte { (if h.masked then 128 else 0) + LenCode(h.len) }

  /** The header as section 5.2 of RFC 6455 lays it out, reserved bits clear. */
  function EncodeHeader(h: Header): (r: seq<byte>)
    requires h.opcode < 16
    ensures |r| == HeaderLen(h)
  {
    [FirstByte(h), SecondByte(h)] + ToBytes(h.len, LenFieldLen(h.len) - 2) + ToBytes(h.key, if h.masked then 4 else 0)
  }

  // ── The decoder ──

  datatype Error = Incomplete | Protocol

  datatype Result<+T> = Ok(value: T) | Err(error: Error)

  datatype Frame = Frame(fin: bool, opcode: nat, masked: bool, payloadLen: int, headerLen: nat, maskKey: nat)

  /** Eight bytes read into a signed 64-bit integer. */
  function Signed64(v: nat): int { if v < INT64_LIMIT then v else v - 0x1_0000_0000_0000_0000 }

  /** A 64-bit value stored into a 32-bit `int`. */
  function ToInt32(v: nat): int {
    var low := v % 0x1_0000_0000;
    if low < INT32_LIMIT then low else low - 0x1_0000_0000
  }

  /** The length field: the payload length and where it ends. */
  function DecodeLen(buf: seq<byte>, n: int, off: int): Result<(nat, nat)>
    requires n <= |buf|
  {
    if off < 0 || off + 2 > n then Err(Incomplete)
    else
      var len7 := buf[off + 1] % 128;
      if len7 <= 125 then Ok((len7, 2))
      else if len7 == 126 then
        if off + 4 > n then Err(Incomplete)
        else
          var plen := buf[off + 2] as int * 256 + buf[off + 3];
          if plen <= 125 then Err(Protocol) else Ok((plen, 4))
      else if off + 10 > n then Err(Incomplete)
      else
        var plen := Signed64(FromBytes(buf[off + 2..off + 10]));
        if plen <= 65535 || plen < 0 then Err(Protocol) else Ok((plen, 10))
  }

  /** ws_decode: the header at `off` of the first `n` bytes of `buf`. */
  function Decode(buf: seq<byte>, n: int, off: int): Result<Frame>
    requires n <= |buf|
  {
    match DecodeLen(buf, n, off)
    case Err(e) => Err(e)
    case Ok((plen, base)) =>
      if off + 2 > n || off < 0 then Err(Incomplete)
      else
        var masked := buf[off + 1] >= 128;
        if masked && off + base + 4 > n then Err(Incomplete)
        else
          var key := if masked then FromBytes(buf[off + base..off + base + 4]) else 0;
          Ok(Frame(buf[off] >= 128, buf[off] % 16, masked, ToInt32(plen), base + if masked then 4 else 0, key))
  }

  /** The frame record the decoder fills in for a header; the length goes through a 32-bit `int`. */
  function FrameOf(h: Header): Frame {
    Frame(h.fin, h.opcode, h.masked, ToInt32(h.len), HeaderLen(h), h.key)
  }

  /** ws_decode as the C code runs it, on a buffer. */
  method DecodeAt(buf: array<byte>, n: int, off: int) returns (r: Result<Frame>)
    requires n <= buf.Length
    ensures r == Decode(buf[..], n, off)
  {
    if off < 0 || off + 2 > n {
      return Err(Incomplete);
    }
    ghost var s := buf[..];
    var b0, b1 := buf[off], buf[off + 1];
    var len7 := b1 % 128;
    var plen: int, base: nat := 0, 0;
    if len7 <= 125 {
      plen, base := len7, 2;
    } else if len7 == 126 {
      if off + 4 > n {
        return Err(Incomplete);
      }
      plen := buf[off + 2] as int * 256 + buf[off + 3];
      if plen <= 125 {
        return Err(Protocol);
      }
      base := 4;
    } else {
      if off + 10 > n {
        return Err(Incomplete);
      }
      var v: nat := 0;
      for i := 0 to 8
        invariant v == FromBytes(s[off + 2..off + 2 + i])
      {
        assert s[off + 2..off + 2 + i + 1][..i] == s[off + 2..off + 2 + i];
        v := v * 256 + buf[off + 2 + i];
      }
      plen := Signed64(v);
      if plen <= 65535 || plen < 0 {
        return Err(Protocol);
      }
      base := 10;
    }
    var masked := b1 >= 128;
    var key: nat := 0;
    if masked {
      if off + base + 4 > n {
        return Err(Incomplete);
      }
      FourBytes(s[off + base..off + base + 4]);
      key := buf[off + base] as int * 0x100_0000 + buf[off + base + 1] as int * 0x1_0000 + buf[off + base + 2] as int * 256 + buf[off + base + 3];
    }
    return Ok(Frame(b0 >= 128, b0 % 16, masked, ToInt32(plen), base + if masked then 4 else 0, key));
  }

  lemma FourBytes(s: seq<byte>)
    requires |s| == 4
    ensures FromBytes(s) == s[0] as int * 0x100_0000 + s[1] as int * 0x1_0000 + s[2] as int * 256 + s[3]
  {
    assert s[..3][..2] == s[..2] && s[..2][..1] == s[..1] && s[..1][..0] == [];
    assert FromBytes(s[..1]) == s[0];
    assert FromBytes(s[..2]) == FromBytes(s[..1]) * 256 + s[1];
    assert FromBytes(s[..3]) == FromBytes(s[..2]) * 256 + s[2];
  }

  lemma TwoBytes(s: seq<byte>)
    requires |s| == 2
    ensures FromBytes(s) == s[0] as int * 256 + s[1]
  {
    assert s[..1][..0] == [];
    assert FromBytes(s[..1]) == s[0];
  }

  // ── Encode, then decode ──

  /** The header `h` lies at `off`, complete. */
  ghost predicate HeaderAt(buf: seq<byte>, n: int, off: int, h: Header)
    requires h.opcode < 16
  {
    0 <= off && off + HeaderLen(h) <= n <= |buf| && buf[off..off + HeaderLen(h)] == EncodeHeader(h)
  }

  lemma LenLimits()
    ensures Limit(2) == 65536 && Limit(4) == 0x1_0000_0000 && Limit(8) == 0x1_0000_0000_0000_0000
  {
    assert Limit(1) == 256 && Limit(2) == 256 * Limit(1) && Limit(3) == 256 * Limit(2);
    assert Limit(5) == 256 * Limit(4) && Limit(6) == 256 * Limit(5) && Limit(7) == 256 * Limit(6);
  }

  lemma SliceOfSlice(s: seq<byte>, a: int, b: int, c: int, d: int)
    requires 0 <= a <= b <= |s| && 0 <= c <= d <= b - a
    ensures s[a..b][c..d] == s[a + c..a + d]
  {
    var l, r := s[a..b][c..d], s[a + c..a + d];
    assert |l| == |r|;
    forall k | 0 <= k < |l| ensures l[k] == r[k] {
      assert l[k] == s[a..b][c + k] == s[a + (c + k)];
    }
  }

  /** The pieces of an encoded header. */
  lemma HeaderPieces(buf: seq<byte>, n: int, off: int, h: Header)
    requires HeaderOk(h) && HeaderAt(buf, n, off, h)
    ensures buf[off] == FirstByte(h) && buf[off + 1] == SecondByte(h)
    ensures buf[off + 2..off + LenFieldLen(h.len)] == ToBytes(h.len, LenFieldLen(h.len) - 2)
    ensures h.masked ==> buf[off + LenFieldLen(h.len)..off + LenFieldLen(h.len) + 4] == ToBytes(h.key, 4)
  {
    var e, b := EncodeHeader(h), LenFieldLen(h.len);
    assert buf[off..off + HeaderLen(h)][0] == e[0] && buf[off..off + HeaderLen(h)][1] == e[1];
    var part := buf[off..off + HeaderLen(h)];
    SliceOfSlice(buf, off, off + HeaderLen(h), 2, b);
    assert buf[off + 2..off + b] == part[2..b] == e[2..b] == ToBytes(h.len, b - 2);
    if h.masked {
      SliceOfSlice(buf, off, off + HeaderLen(h), b, b + 4);
      assert buf[off + b..off + b + 4] == part[b..b + 4] == e[b..b + 4] == ToBytes(h.key, 4);
    }
  }

  lemma LenDecodes(buf: seq<byte>, n: int, off: int, h: Header)
    requires HeaderOk(h) && HeaderAt(buf, n, off, h)
    ensures DecodeLen(buf, n, off) == Ok((h.len, LenFieldLen(h.len)))
  {
    hide FromBytes;
    hide ToBytes;
    hide Limit;
    hide EncodeHeader;
    HeaderPieces(buf, n, off, h);
    LenLimits();
    var b := LenFieldLen(h.len);
    var field := buf[off + 2..off + b];
    if b == 4 {
      NumberRoundTrip(h.len, 2);
      TwoBytes(field);
    } else if b == 10 {
      NumberRoundTrip(h.len, 8);
    }
  }

  /** Decoding an encoded header gives back every field, wherever the header lies and whatever
      surrounds it. */
  lemma DecodeAfterEncode(buf: seq<byte>, n: int, off: int, h: Header)
    requires HeaderOk(h) && HeaderAt(buf, n, off, h)
    ensures Decode(buf, n, off) == Ok(FrameOf(h))
  {
    hide FromBytes;
    hide ToBytes;
    hide EncodeHeader;
    hide DecodeLen;
    LenDecodes(buf, n, off, h);
    HeaderPieces(buf, n, off, h);
    if h.masked {
      NumberRoundTrip(h.key, 4);
    }
  }

  /** The reported payload length is the encoded one exactly below two to the 31. */
  lemma LengthSurvivesIff(buf: seq<byte>, n: int, off: int, h: Header)
    requires HeaderOk(h) && HeaderAt(buf, n, off, h)
    ensures Decode(buf, n, off).Ok?
    ensures Decode(buf, n, off).value.payloadLen == h.len <==> h.len < INT32_LIMIT
  {
    hide Decode;
    DecodeAfterEncode(buf, n, off, h);
  }

  /** A header cut short anywhere is reported as incomplete, never misread. */
  lemma CutHeaderIsIncomplete(buf: seq<byte>, n: int, off: int, h: Header, cut: int)
    requires HeaderOk(h) && HeaderAt(buf, n, off, h)
    requires off <= cut < off + HeaderLen(h)
    ensures Decode(buf, cut, off) == Err(Incomplete)
  {
    HeaderPieces(buf, n, off, h);
    LenDecodes(buf, n, off, h);
  }

  // ── Decode, then encode ──

  lemma NoBytes(x: nat)
    ensures ToBytes(x, 0) == []
  {
  }

  /** What an accepted header says. */
  function HeaderOf(f: Frame, len: nat): Header { Header(f.fin, f.opcode, f.masked, len, f.maskKey) }

  /** The byte with the three reserved bits cleared. */
  function ClearReserved(b: byte): byte { b / 128 * 128 + b % 16 }

  /** The decoder accepts minimal-length headers only: encoding what it read gives the bytes
      it read, with the reserved bits it ignores cleared. */
  lemma EncodeAfterDecode(buf: seq<byte>, n: int, off: int)
    requires n <= |buf| && Decode(buf, n, off).Ok?
    ensures DecodeLen(buf, n, off).Ok?
    ensures var f := Decode(buf, n, off).value;
      var h := HeaderOf(f, DecodeLen(buf, n, off).value.0);
      && HeaderOk(h) && f == FrameOf(h) && off + f.headerLen <= n
      && EncodeHeader(h) == [ClearReserved(buf[off])] + buf[off + 1..off + f.headerLen]
  {
    hide FromBytes;
    hide ToBytes;
    hide Limit;
    LenLimits();
    var f := Decode(buf, n, off).value;
    var (len, base) := DecodeLen(buf, n, off).value;
    var h := HeaderOf(f, len);
    var field := buf[off + 2..off + base];
    if base == 2 {
      assert field == [] && ToBytes(len, 0) == [] by {
        NoBytes(len);
      }
    } else if base == 4 {
      TwoBytes(field);
      BytesRoundTrip(field);
    } else if base == 10 {
      BytesRoundTrip(field);
    }
    NoBytes(f.maskKey);
    assert LenFieldLen(len) == base && ToBytes(len, base - 2) == field;
    if f.masked {
      BytesRoundTrip(buf[off + base..off + base + 4]);
      assert off + f.headerLen == off + base + 4;
      assert buf[off + 1..off + f.headerLen] == [buf[off + 1]] + field + buf[off + base..off + base + 4];
    } else {
      assert buf[off + 1..off + f.headerLen] == [buf[off + 1]] + field;
    }
  }

  /** Two accepted headers whose frame records are equal are the same bytes, up to the reserved bits,
      when both lengths fit the record's 32-bit field. */
  lemma AcceptedHeadersAreUnique(a: seq<byte>, b: seq<byte>, i: int, j: int)
    requires Decode(a, |a|, i).Ok? && Decode(a, |a|, i) == Decode(b, |b|, j)
    requires DecodeLen(a, |a|, i).Ok? && DecodeLen(a, |a|, i).value.0 < INT32_LIMIT
    requires DecodeLen(b, |b|, j).Ok? && DecodeLen(b, |b|, j).value.0 < INT32_LIMIT
    ensures var hl := Decode(a, |a|, i).value.headerLen;
      && 0 <= i && 0 <= j && i + hl <= |a| && j + hl <= |b| && hl >= 2
      && a[i + 1..i + hl] == b[j + 1..j + hl] && ClearReserved(a[i]) == ClearReserved(b[j])
  {
    EncodeAfterDecode(a, |a|, i);
    EncodeAfterDecode(b, |b|, j);
    LengthsInRecord(DecodeLen(a, |a|, i).value.0, DecodeLen(b, |b|, j).value.0);
    SameFullLength(a, b, i, j);
  }

  lemma LengthsInRecord(m: nat, n: nat)
    requires m < INT32_LIMIT && n < INT32_LIMIT && ToInt32(m) == ToInt32(n)
    ensures m == n
  {
  }

  /** For longer ones the full lengths have to be equal as well. */
  lemma SameFullLength(a: seq<byte>, b: seq<byte>, i: int, j: int)
    requires Decode(a, |a|, i).Ok? && Decode(b, |b|, j).Ok?
    requires DecodeLen(a, |a|, i).Ok? && DecodeLen(b, |b|, j).Ok?
    requires DecodeLen(a, |a|, i).value.0 == DecodeLen(b, |b|, j).value.0 && Decode(a, |a|, i) == Decode(b, |b|, j)
    ensures var hl := Decode(a, |a|, i).value.headerLen;
      && 0 <= i && 0 <= j && i + hl <= |a| && j + hl <= |b| && hl >= 2
      && a[i + 1..i + hl] == b[j + 1..j + hl] && ClearReserved(a[i]) == ClearReserved(b[j])
  {
    EncodeAfterDecode(a, |a|, i);
    EncodeAfterDecode(b, |b|, j);
    var hl := Decode(a, |a|, i).value.headerLen;
    var e := EncodeHeader(HeaderOf(Decode(a, |a|, i).value, DecodeLen(a, |a|, i).value.0));
    assert e[1..] == a[i + 1..i + hl] && e[1..] == b[j + 1..j + hl];
  }

  // ── What is refused ──

  /** The decoder complains about the protocol exactly when the header has a long length field with a number
      that does not need it, or with its sign bit set. */
  lemma RefusedIff(buf: seq<byte>, n: int, off: int)
    requires n <= |buf|
    ensures Decode(buf, n, off) == Err(Protocol) <==>
      && 0 <= off && off + 2 <= n
      && (|| (buf[off + 1] % 128 == 126 && off + 4 <= n && buf[off + 2] == 0 && buf[off + 3] <= 125)
          || (buf[off + 1] % 128 == 127 && off + 10 <= n
              && (FromBytes(buf[off + 2..off + 10]) <= 65535 || buf[off + 2] >= 128)))
  {
    if 0 <= off && off + 10 <= n {
      SignBit(buf[off + 2..off + 10]);
    }
    hide FromBytes;
  }

  /** The first of eight bytes has the sign of the number. */
  lemma SignBit(s: seq<byte>)
    requires |s| == 8
    ensures FromBytes(s) >= INT64_LIMIT <==> s[0] >= 128
    ensures FromBytes(s) < 0x1_0000_0000_0000_0000
  {
    assert FromBytes(s[..1]) == s[0] by {
      assert s[..1][..0] == [];
    }
    var k := 1;
    var low: int, limit: int := 0, 1;
    while k < 8
      invariant 1 <= k <= 8 && 0 <= low < limit
      invariant FromBytes(s[..k]) == (s[0] as int) * limit + low
      invariant limit == if k == 1 then 1 else if k == 2 then 0x100 else if k == 3 then 0x1_0000 else if k == 4 then 0x100_0000
        else if k == 5 then 0x1_0000_0000 else if k == 6 then 0x100_0000_0000 else if k == 7 then 0x1_0000_0000_0000 else 0x100_0000_0000_0000
    {
      assert s[..k + 1][..k] == s[..k];
      low := low * 256 + s[k];
      limit := limit * 256;
      k := k + 1;
    }
    assert s[..8] == s;
  }

  // ── The examples of the standard ──

  lemma NumberBytes(a: byte, b: byte)
    ensures ToBytes(a * 256 + b, 2) == [a, b]
  {
    assert ToBytes(a * 256 + b, 2) == ToBytes(a, 1) + [b];
    assert ToBytes(a, 1) == ToBytes(0, 0) + [a];
  }

  lemma EightBytes(a: byte)
    ensures ToBytes(a * 65536, 8) == [0, 0, 0, 0, 0, a, 0, 0]
  {
    assert ToBytes(0, 5) == [0, 0, 0, 0, 0] by {
      assert ToBytes(0, 4) == ToBytes(0, 3) + [0] && ToBytes(0, 2) == ToBytes(0, 1) + [0] && ToBytes(0, 1) == ToBytes(0, 0) + [0];
    }
    assert ToBytes(a, 6) == ToBytes(0, 5) + [a];
    assert ToBytes(a * 256, 7) == ToBytes(a, 6) + [0];
    assert ToBytes(a * 65536, 8) == ToBytes(a * 256, 7) + [0];
  }

  lemma KeyBytes()
    ensures ToBytes(0x37fa213d, 4) == [0x37, 0xfa, 0x21, 0x3d]
  {
    assert 0x37fa213d / 256 == 0x37fa21 && 0x37fa21 / 256 == 0x37fa;
    assert ToBytes(0x37fa213d, 4) == ToBytes(0x37fa21, 3) + [0x3d];
    assert ToBytes(0x37fa21, 3) == ToBytes(0x37fa, 2) + [0x21];
    NumberBytes(0x37, 0xfa);
  }

  /** A header with a short length is its two fixed bytes and the key. */
  lemma ShortHeader(h: Header)
    requires h.opcode < 16 && h.len <= 125
    ensures EncodeHeader(h) == [FirstByte(h), SecondByte(h)] + ToBytes(h.key, if h.masked then 4 else 0)
  {
    assert ToBytes(h.len, 0) == [];
    hide ToBytes;
  }

  /** The headers of the examples in section 5.7 of RFC 6455: a text message, unmasked and masked; the two
      fragments of one; a ping and its masked answer; 256 bytes and 64 KiB of binary data. */
  lemma StandardExamples()
    ensures EncodeHeader(Header(true, 1, false, 5, 0)) == [0x81, 0x05]
    ensures EncodeHeader(Header(true, 1, true, 5, 0x37fa213d)) == [0x81, 0x85, 0x37, 0xfa, 0x21, 0x3d]
    ensures EncodeHeader(Header(false, 1, false, 3, 0)) == [0x01, 0x03]
    ensures EncodeHeader(Header(true, 0, false, 2, 0)) == [0x80, 0x02]
    ensures EncodeHeader(Header(true, 9, false, 5, 0)) == [0x89, 0x05]
    ensures EncodeHeader(Header(true, 10, true, 5, 0x37fa213d)) == [0x8a, 0x85, 0x37, 0xfa, 0x21, 0x3d]
    ensures EncodeHeader(Header(true, 2, false, 256, 0)) == [0x82, 0x7E, 0x01, 0x00]
    ensures EncodeHeader(Header(true, 2, false, 65536, 0)) == [0x82, 0x7F, 0, 0, 0, 0, 0, 1, 0, 0]
  {
    KeyBytes();
    NumberBytes(1, 0);
    EightBytes(1);
    assert ToBytes(0, 0) == [];
    hide ToBytes;
    ShortHeader(Header(true, 1, false, 5, 0));
    ShortHeader(Header(true, 1, true, 5, 0x37fa213d));
    ShortHeader(Header(false, 1, false, 3, 0));
    ShortHeader(Header(true, 0, false, 2, 0));
    ShortHeader(Header(true, 9, false, 5, 0));
    ShortHeader(Header(true, 10, true, 5, 0x37fa213d));
    LongExamples();
    hide EncodeHeader;
  }

  lemma LongExamples()
    ensures EncodeHeader(Header(true, 2, false, 256, 0)) == [0x82, 0x7E, 0x01, 0x00]
    ensures EncodeHeader(Header(true, 2, false, 65536, 0)) == [0x82, 0x7F, 0, 0, 0, 0, 0, 1, 0, 0]
  {
    NumberBytes(1, 0);
    EightBytes(1);
    assert ToBytes(0, 0) == [];
    hide ToBytes;
  }
}
