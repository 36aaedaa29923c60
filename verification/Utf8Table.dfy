/** The byte table of RFC 3629, section 4, against the validator's scan. */
module Utf8Table {
  import opened Bytes
  import opened Utf8

  predicate Tail(b: byte) { 0x80 <= b <= 0xBF }

  /** The length of the sequence in front by the standard's table, 0 if none fits. */
  function TableLen(s: seq<byte>): (n: nat)
    ensures n <= 4 && n <= |s|
  {
    if |s| >= 1 && s[0] <= 0x7F then 1
    else if |s| >= 2 && 0xC2 <= s[0] <= 0xDF && Tail(s[1]) then 2
    else if |s| >= 3 && s[0] == 0xE0 && 0xA0 <= s[1] <= 0xBF && Tail(s[2]) then 3
    else if |s| >= 3 && 0xE1 <= s[0] <= 0xEC && Tail(s[1]) && Tail(s[2]) then 3
    else if |s| >= 3 && s[0] == 0xED && 0x80 <= s[1] <= 0x9F && Tail(s[2]) then 3
    else if |s| >= 3 && 0xEE <= s[0] <= 0xEF && Tail(s[1]) && Tail(s[2]) then 3
    else if |s| >= 4 && s[0] == 0xF0 && 0x90 <= s[1] <= 0xBF && Tail(s[2]) && Tail(s[3]) then 4
    else if |s| >= 4 && 0xF1 <= s[0] <= 0xF3 && Tail(s[1]) && Tail(s[2]) && Tail(s[3]) then 4
    else if |s| >= 4 && s[0] == 0xF4 && 0x80 <= s[1] <= 0x8F && Tail(s[2]) && Tail(s[3]) then 4
    else 0
  }

  /** The byte string is a sequence of table entries. */
  predicate InTable(s: seq<byte>) {
    s == [] || (TableLen(s) > 0 && InTable(s[TableLen(s)..]))
  }

  lemma TwoBytes(s: seq<byte>)
    requires |s| >= 1 && SeqLen(s[0]) == 2
    ensures Accepts(s) <==> TableLen(s) == 2
    ensures TableLen(s) in {0, 2}
  {
    if |s| >= 2 {
      Unrolled(s, 2);
      assert Continued(s, 2) <==> IsContinuation(s[1]);
    }
    hide Accumulated;
  }

  /** The scan's conditions on three bytes, on the bytes themselves. */
  lemma ThreeByteRange(a: nat, b: byte, c: byte)
    requires a < 16 && IsContinuation(b)
    ensures var cp := Push6(Push6(a, b), c);
      (0x800 <= cp && !(0xD800 <= cp <= 0xDFFF) && cp <= 0x10FFFF)
      <==> (a == 0 ==> b >= 0xA0) && (a == 13 ==> b <= 0x9F)
  {
    assert b % 64 == b - 0x80;
  }

  /** The table's three-byte rows together. */
  lemma ThreeByteRows(s: seq<byte>)
    requires |s| >= 1 && 0xE0 <= s[0] <= 0xEF
    ensures TableLen(s) in {0, 3}
    ensures TableLen(s) == 3 <==>
      (|s| >= 3 && Tail(s[1]) && Tail(s[2]) && (s[0] == 0xE0 ==> s[1] >= 0xA0) && (s[0] == 0xED ==> s[1] <= 0x9F))
  {
  }

  lemma ThreeBytesInTable(s: seq<byte>)
    requires |s| >= 1 && SeqLen(s[0]) == 3
    ensures Accepts(s) <==> TableLen(s) == 3
    ensures TableLen(s) in {0, 3}
  {
    ThreeByteRows(s);
    hide TableLen;
    if |s| >= 3 && IsContinuation(s[1]) {
      Unrolled(s, 3);
      hide Accumulated;
      assert Continued(s, 3) <==> IsContinuation(s[1]) && IsContinuation(s[2]);
      ThreeByteRange(LeadBits(s[0], 3), s[1], s[2]);
      assert LeadBits(s[0], 3) == s[0] - 0xE0;
      hide Push6;
      hide LeadBits;
    } else if |s| >= 3 {
      assert !Continued(s, 3);
    }
  }

  lemma FourByteRange(a: nat, b: byte, c: byte, d: byte)
    requires a < 8 && IsContinuation(b)
    ensures var cp := Push6(Push6(Push6(a, b), c), d);
      (0x10000 <= cp && !(0xD800 <= cp <= 0xDFFF) && cp <= 0x10FFFF)
      <==> a <= 4 && (a == 0 ==> b >= 0x90) && (a == 4 ==> b <= 0x8F)
  {
    assert b % 64 == b - 0x80;
  }

  /** The table's four-byte rows together. */
  lemma FourByteRows(s: seq<byte>)
    requires |s| >= 1 && 0xF0 <= s[0] <= 0xF7
    ensures TableLen(s) in {0, 4}
    ensures TableLen(s) == 4 <==>
      (|s| >= 4 && Tail(s[1]) && Tail(s[2]) && Tail(s[3])
       && s[0] <= 0xF4 && (s[0] == 0xF0 ==> s[1] >= 0x90) && (s[0] == 0xF4 ==> s[1] <= 0x8F))
  {
  }

  lemma FourBytesInTable(s: seq<byte>)
    requires |s| >= 1 && SeqLen(s[0]) == 4
    ensures Accepts(s) <==> TableLen(s) == 4
    ensures TableLen(s) in {0, 4}
  {
    FourByteRows(s);
    hide TableLen;
    if |s| >= 4 && IsContinuation(s[1]) {
      Unrolled(s, 4);
      hide Accumulated;
      assert Continued(s, 4) <==> IsContinuation(s[1]) && IsContinuation(s[2]) && IsContinuation(s[3]);
      FourByteRange(LeadBits(s[0], 4), s[1], s[2], s[3]);
      assert LeadBits(s[0], 4) == s[0] - 0xF0;
      hide Push6;
      hide LeadBits;
    } else if |s| >= 4 {
      assert !Continued(s, 4);
    }
  }

  /** The scan accepts the sequence in front exactly when the table has it, at the same length. */
  lemma FrontInTable(s: seq<byte>)
    requires |s| >= 1
    ensures Accepts(s) <==> TableLen(s) > 0
    ensures Accepts(s) ==> TableLen(s) == SeqLen(s[0])
  {
    var n := SeqLen(s[0]);
    if n == 1 {
      Unrolled(s, 1);
    } else if n == 2 {
      TwoBytes(s);
    } else if n == 3 {
      ThreeBytesInTable(s);
    } else if n == 4 {
      FourBytesInTable(s);
    }
    hide Accumulated;
  }

  lemma {:induction false} ScanIsTable(s: seq<byte>)
    ensures AcceptsAll(s) <==> InTable(s)
    decreases |s|
  {
    hide Accepts;
    hide TableLen;
    if s == [] {
    } else {
      FrontInTable(s);
      if Accepts(s) {
        ScanIsTable(s[SeqLen(s[0])..]);
      }
    }
  }

  /** The table of section 4 and the encoding of section 3 describe the same byte strings, and the scan
      accepts exactly these. */
  lemma TableIsUtf8(s: seq<byte>)
    ensures InTable(s) <==> IsUtf8(s)
    ensures InTable(s) <==> AcceptsAll(s)
  {
    ScanIsTable(s);
    AcceptsExactlyUtf8(s);
  }
}
