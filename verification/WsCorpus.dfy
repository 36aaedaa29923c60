/** The frame corpus of the benchmark: built back to back in one buffer, then validated. */
module WsCorpus {
  import opened Bytes
  import opened WsFrame

  /** Payload byte `j` of frame `i`. */
  function Payload(i: nat, len: nat): (r: seq<byte>)
    ensures |r| == len
  {
    seq(len, j requires 0 <= j < len => (i + j) % 256)
  }

  function FrameBytes(i: nat, h: Header): (r: seq<byte>)
    requires h.opcode < 16
    ensures |r| == HeaderLen(h) + h.len
  {
    EncodeHeader(h) + Payload(i, h.len)
  }

  /** The benchmark's frames: final fragments, with lengths an `int` can hold. */
  predicate FramesOk(fs: seq<Header>) {
    forall h :: h in fs ==> HeaderOk(h) && h.fin && h.len < INT32_LIMIT
  }

  /** All frames back to back. */
  function Corpus(fs: seq<Header>): seq<byte>
    requires FramesOk(fs)
  {
    if fs == [] then []
    else
      var last := fs[|fs| - 1];
      assert last in fs;
      Corpus(fs[..|fs| - 1]) + FrameBytes(|fs| - 1, last)
  }

  lemma FramesPrefix(fs: seq<Header>, i: nat)
    requires FramesOk(fs) && i <= |fs|
    ensures FramesOk(fs[..i])
  {
  }

  /** Later frames never move or overwrite earlier ones. */
  lemma {:induction false} CorpusPrefix(fs: seq<Header>, i: nat)
    requires FramesOk(fs) && i <= |fs|
    ensures FramesOk(fs[..i]) && Corpus(fs[..i]) <= Corpus(fs)
    decreases |fs| - i
  {
    FramesPrefix(fs, i);
    if i < |fs| {
      CorpusPrefix(fs, i + 1);
      assert fs[..i + 1][..i] == fs[..i];
    } else {
      assert fs[..i] == fs;
    }
  }

  lemma NoFrames(fs: seq<Header>)
    ensures FramesOk(fs[..0]) && Corpus(fs[..0]) == []
  {
  }

  lemma CorpusStep(fs: seq<Header>, i: nat)
    requires FramesOk(fs) && i < |fs|
    ensures FramesOk(fs[..i]) && FramesOk(fs[..i + 1]) && HeaderOk(fs[i]) && fs[i].fin
    ensures Corpus(fs[..i + 1]) == Corpus(fs[..i]) + FrameBytes(i, fs[i])
    ensures |Corpus(fs[..i + 1])| <= |Corpus(fs)|
  {
    assert fs[i] in fs;
    CorpusPrefix(fs, i + 1);
    FramesPrefix(fs, i);
    assert fs[..i + 1][..i] == fs[..i];
  }

  /** Frame `i` lies at the total length of the frames before it. */
  lemma FrameInCorpus(fs: seq<Header>, i: nat)
    requires FramesOk(fs) && i < |fs|
    ensures FramesOk(fs[..i]) && HeaderOk(fs[i])
    ensures HeaderAt(Corpus(fs), |Corpus(fs)|, |Corpus(fs[..i])|, fs[i])
  {
    hide Corpus;
    hide EncodeHeader;
    CorpusStep(fs, i);
    CorpusPrefix(fs, i + 1);
    var off, all := |Corpus(fs[..i])|, Corpus(fs);
    var upTo := Corpus(fs[..i + 1]);
    assert upTo == Corpus(fs[..i]) + FrameBytes(i, fs[i]);
    var hl := HeaderLen(fs[i]);
    assert upTo[off..off + hl] == EncodeHeader(fs[i]);
    assert all[..|upTo|] == upTo;
    SliceOfSlice(all, 0, |upTo|, off, off + hl);
  }

  /** Every frame of any corpus decodes to exactly the fields it was built from. */
  lemma CorpusDecodes(fs: seq<Header>, i: nat)
    requires FramesOk(fs) && i < |fs|
    ensures FramesOk(fs[..i])
    ensures Decode(Corpus(fs), |Corpus(fs)|, |Corpus(fs[..i])|) == Ok(FrameOf(fs[i]))
  {
    FrameInCorpus(fs, i);
    DecodeAfterEncode(Corpus(fs), |Corpus(fs)|, |Corpus(fs[..i])|, fs[i]);
  }

  /** Behind every header of the corpus stands its payload: byte `j` of frame `i` is `i + j` modulo 256. */
  lemma PayloadInCorpus(fs: seq<Header>, i: nat, j: nat)
    requires FramesOk(fs) && i < |fs| && j < fs[i].len
    ensures FramesOk(fs[..i])
    ensures var at := |Corpus(fs[..i])| + HeaderLen(fs[i]) + j;
      at < |Corpus(fs)| && Corpus(fs)[at] == (i + j) % 256
  {
    hide Corpus;
    hide EncodeHeader;
    CorpusStep(fs, i);
    CorpusPrefix(fs, i + 1);
    var off, upTo := |Corpus(fs[..i])|, Corpus(fs[..i + 1]);
    assert upTo[off + HeaderLen(fs[i]) + j] == FrameBytes(i, fs[i])[HeaderLen(fs[i]) + j] == Payload(i, fs[i].len)[j];
  }

  // ── Building the corpus ──

  /** The prefix sums of the frame sizes. */
  method Layout(fs: seq<Header>) returns (offs: array<nat>, total: nat)
    requires FramesOk(fs)
    ensures fresh(offs) && offs.Length == |fs| && total == |Corpus(fs)|
    ensures forall i :: 0 <= i < |fs| ==> FramesOk(fs[..i]) && offs[i] == |Corpus(fs[..i])|
  {
    offs := new nat[|fs|](_ => 0);
    total := 0;
    NoFrames(fs);
    hide Corpus;
    hide FrameBytes;
    hide HeaderOk;
    forall i: nat | i <= |fs| ensures FramesOk(fs[..i]) {
      FramesPrefix(fs, i);
    }
    hide FramesOk;
    for f := 0 to |fs|
      invariant total == |Corpus(fs[..f])|
      invariant forall i :: 0 <= i < f ==> offs[i] == |Corpus(fs[..i])|
    {
      var h := fs[f];
      CorpusStep(fs, f);
      offs[f] := total;
      total := total + LenFieldLen(h.len) + (if h.masked then 4 else 0) + h.len;
    }
    assert fs[..|fs|] == fs;
  }

  /** Everything outside `buf[from..to]` is as before. */
  twostate predicate OutsideKept(buf: array<byte>, from: int, to: int)
    reads buf
  {
    forall k :: 0 <= k < buf.Length && !(from <= k < to) ==> buf[k] == old(buf[k])
  }

  /** The length field as the encoder writes it. */
  method WriteLength(buf: array<byte>, at: nat, len: nat) returns (end: nat)
    requires at + LenFieldLen(len) - 2 <= buf.Length
    modifies buf
    ensures end == at + LenFieldLen(len) - 2
    ensures buf[at..end] == ToBytes(len, end - at)
    ensures OutsideKept(buf, at, end)
  {
    end := at;
    if len > 125 && len <= 65535 {
      buf[end] := len / 256 % 256;
      buf[end + 1] := len % 256;
      end := end + 2;
      assert ToBytes(len, 2) == ToBytes(len / 256, 1) + [len % 256];
      assert ToBytes(len / 256, 1) == ToBytes(len / 256 / 256, 0) + [len / 256 % 256];
      assert buf[at..end] == [len / 256 % 256, len % 256];
    }
    if len > 65535 {
      for sh := 0 to 8
        invariant forall k :: 0 <= k < sh ==> buf[at + k] == ToBytes(len, 8)[k]
        invariant OutsideKept(buf, at, at + sh)
      {
        buf[at + sh] := Shr8(len, 7 - sh) % 256;
        ToBytesAt(len, 8, sh);
      }
      end := end + 8;
      assert buf[at..end] == ToBytes(len, 8);
    }
    if len <= 125 {
      assert buf[at..end] == ToBytes(len, 0);
    }
  }

  /** The masking key as the encoder writes it. */
  method WriteKey(buf: array<byte>, at: nat, key: nat)
    requires at + 4 <= buf.Length
    modifies buf
    ensures buf[at..at + 4] == ToBytes(key, 4)
    ensures OutsideKept(buf, at, at + 4)
  {
    buf[at] := Shr8(key, 3) % 256;
    buf[at + 1] := Shr8(key, 2) % 256;
    buf[at + 2] := Shr8(key, 1) % 256;
    buf[at + 3] := Shr8(key, 0) % 256;
    ToBytesAt(key, 4, 0);
    ToBytesAt(key, 4, 1);
    ToBytesAt(key, 4, 2);
    ToBytesAt(key, 4, 3);
    assert forall k :: 0 <= k < 4 ==> buf[at + k] == ToBytes(key, 4)[k];
  }

  /** A frame's header, in place. */
  method WriteHeader(buf: array<byte>, base: nat, h: Header) returns (pstart: nat)
    requires HeaderOk(h) && h.fin && base + HeaderLen(h) <= buf.Length
    modifies buf
    ensures pstart == base + HeaderLen(h)
    ensures buf[base..pstart] == EncodeHeader(h)
    ensures OutsideKept(buf, base, pstart)
  {
    hide ToBytes;
    buf[base] := 128 + h.opcode;
    buf[base + 1] := (if h.masked then 128 else 0) + LenCode(h.len);
    var mut := WriteLength(buf, base + 2, h.len);
    ghost var field := buf[base + 2..mut];
    if h.masked {
      WriteKey(buf, mut, h.key);
      assert buf[base + 2..mut] == field;
    }
    pstart := base + LenFieldLen(h.len) + if h.masked then 4 else 0;
    NoBytes(h.key);
    assert buf[mut..pstart] == ToBytes(h.key, if h.masked then 4 else 0);
    assert buf[base..pstart] == [buf[base], buf[base + 1]] + field + buf[mut..pstart];
  }

  /** A frame's payload, in place. */
  method WritePayload(buf: array<byte>, pstart: nat, i: nat, len: nat)
    requires pstart + len <= buf.Length
    modifies buf
    ensures buf[pstart..pstart + len] == Payload(i, len)
    ensures OutsideKept(buf, pstart, pstart + len)
  {
    for j := 0 to len
      invariant forall k :: 0 <= k < j ==> buf[pstart + k] == Payload(i, len)[k]
      invariant OutsideKept(buf, pstart, pstart + j)
    {
      buf[pstart + j] := (i + j) % 256;
    }
  }

  /** One frame, in place. */
  method WriteFrame(buf: array<byte>, base: nat, i: nat, h: Header)
    requires HeaderOk(h) && h.fin && base + HeaderLen(h) + h.len <= buf.Length
    modifies buf
    ensures buf[base..base + HeaderLen(h) + h.len] == FrameBytes(i, h)
    ensures OutsideKept(buf, base, base + HeaderLen(h) + h.len)
  {
    hide EncodeHeader;
    hide Payload;
    var pstart := WriteHeader(buf, base, h);
    ghost var header := buf[base..pstart];
    WritePayload(buf, pstart, i, h.len);
    assert buf[base..pstart] == header;
    assert buf[base..pstart + h.len] == buf[base..pstart] + buf[pstart..pstart + h.len];
  }

  /** The whole corpus: layout pass, then encoding pass. */
  method Build(fs: seq<Header>) returns (buf: array<byte>, offs: array<nat>)
    requires FramesOk(fs)
    ensures fresh(buf) && fresh(offs) && buf[..] == Corpus(fs) && offs.Length == |fs|
    ensures forall i :: 0 <= i < |fs| ==> FramesOk(fs[..i]) && offs[i] == |Corpus(fs[..i])|
  {
    hide FrameBytes;
    hide Corpus;
    var total: nat;
    offs, total := Layout(fs);
    buf := new byte[total](_ => 0);
    NoFrames(fs);
    for f := 0 to |fs|
      invariant FramesOk(fs[..f]) && |Corpus(fs[..f])| <= total
      invariant buf[..|Corpus(fs[..f])|] == Corpus(fs[..f])
      invariant forall i :: 0 <= i < |fs| ==> FramesOk(fs[..i]) && offs[i] == |Corpus(fs[..i])|
    {
      var h := fs[f];
      CorpusStep(fs, f);
      ghost var at := offs[f];
      ghost var end := at + HeaderLen(h) + h.len;
      ghost var before := buf[..at];
      WriteFrame(buf, offs[f], f, h);
      assert buf[..at] == before;
      assert buf[..end] == buf[..at] + buf[at..end];
    }
    assert fs[..|fs|] == fs;
  }

  // ── Validating it ──

  /** The checks the benchmark makes on frame `t`; the reserved bits and the mask flag are not among them. */
  predicate Passes(r: Result<Frame>, h: Header) {
    && r.Ok? && r.value.fin && r.value.opcode == h.opcode && r.value.payloadLen == h.len
    && r.value.headerLen == HeaderLen(h) && (h.masked ==> r.value.maskKey == h.key)
  }

  function Failures(buf: seq<byte>, fs: seq<Header>, offs: seq<nat>, upTo: nat): nat
    requires |offs| == |fs| && upTo <= |fs|
  {
    if upTo == 0 then 0
    else Failures(buf, fs, offs, upTo - 1) + if Passes(Decode(buf, |buf|, offs[upTo - 1]), fs[upTo - 1]) then 0 else 1
  }

  /** The validation loops: the number of frames that fail a check, once for each pass. */
  method Validate(buf: array<byte>, fs: seq<Header>, offs: array<nat>, passes: nat) returns (invalid: nat)
    requires offs.Length == |fs|
    ensures invalid == passes * Failures(buf[..], fs, offs[..], |fs|)
  {
    hide Decode;
    invalid := 0;
    for p := 0 to passes
      invariant invalid == p * Failures(buf[..], fs, offs[..], |fs|)
    {
      for t := 0 to |fs|
        invariant invalid == p * Failures(buf[..], fs, offs[..], |fs|) + Failures(buf[..], fs, offs[..], t)
      {
        var r := DecodeAt(buf, buf.Length, offs[t]);
        if !Passes(r, fs[t]) {
          invalid := invalid + 1;
        }
      }
    }
  }

  /** Which headers pass for frame `h`: of those whose length an `int` can hold, `h` itself and no other. */
  lemma OnlyTheFramePasses(buf: seq<byte>, off: int, found: Header, h: Header)
    requires HeaderOk(found) && found.len < INT32_LIMIT && HeaderAt(buf, |buf|, off, found)
    requires HeaderOk(h) && h.fin && h.len < INT32_LIMIT
    ensures Passes(Decode(buf, |buf|, off), h) <==> found == h
  {
    hide Decode;
    DecodeAfterEncode(buf, |buf|, off, found);
  }

  /** A header that announces four gibibytes more than the frame has passes all the same. */
  lemma LongFrameSlipsThrough(buf: seq<byte>, off: int, h: Header)
    requires HeaderOk(h) && h.fin && 65535 < h.len < INT32_LIMIT
    requires HeaderAt(buf, |buf|, off, h.(len := h.len + 0x1_0000_0000))
    ensures Passes(Decode(buf, |buf|, off), h)
  {
    hide Decode;
    DecodeAfterEncode(buf, |buf|, off, h.(len := h.len + 0x1_0000_0000));
  }

  /** The count is that of the frames that fail. */
  lemma {:induction false} FailuresAreCounted(buf: seq<byte>, fs: seq<Header>, offs: seq<nat>, upTo: nat)
    requires |offs| == |fs| && upTo <= |fs|
    ensures Failures(buf, fs, offs, upTo) == |set t: nat | t < upTo && !Passes(Decode(buf, |buf|, offs[t]), fs[t])|
  {
    hide Decode;
    hide Passes;
    if upTo == 0 {
    } else {
      FailuresAreCounted(buf, fs, offs, upTo - 1);
      var before := set t: nat | t < upTo - 1 && !Passes(Decode(buf, |buf|, offs[t]), fs[t]);
      var all := set t: nat | t < upTo && !Passes(Decode(buf, |buf|, offs[t]), fs[t]);
      if Passes(Decode(buf, |buf|, offs[upTo - 1]), fs[upTo - 1]) {
        assert all == before;
      } else {
        assert all == before + {upTo - 1};
      }
    }
  }

  /** A built corpus has no failing frame. */
  lemma {:induction false} NoFailures(fs: seq<Header>, offs: seq<nat>, upTo: nat)
    requires FramesOk(fs) && |offs| == |fs| && upTo <= |fs|
    requires forall i :: 0 <= i < |fs| ==> FramesOk(fs[..i]) && offs[i] == |Corpus(fs[..i])|
    ensures Failures(Corpus(fs), fs, offs, upTo) == 0
  {
    hide Decode;
    hide Corpus;
    if upTo == 0 {
    } else {
      NoFailures(fs, offs, upTo - 1);
      CorpusDecodes(fs, upTo - 1);
    }
  }

  /** The benchmark on any corpus and any number of passes: nothing is reported invalid. */
  method Benchmark(fs: seq<Header>, passes: nat) returns (invalid: nat)
    requires FramesOk(fs)
    ensures invalid == 0
  {
    var buf, offs := Build(fs);
    invalid := Validate(buf, fs, offs, passes);
    NoFailures(fs, offs[..], |fs|);
  }
}
