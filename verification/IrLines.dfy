/** The line index: where every line starts, and the line a position is on. */
module IrLines {

  function Newlines(text: string): nat {
    if text == "" then 0 else Newlines(text[..|text| - 1]) + if text[|text| - 1] == '\n' then 1 else 0
  }

  /** The text before a position; a position past the end counts as the end. */
  function Before(text: string, pos: nat): string {
    if pos <= |text| then text[..pos] else text
  }

  /** Zero, and behind every newline. */
  function Starts(text: string): (r: seq<nat>)
    ensures |r| == Newlines(text) + 1
  {
    if text == "" then [0]
    else if text[|text| - 1] == '\n' then Starts(text[..|text| - 1]) + [|text|]
    else Starts(text[..|text| - 1])
  }

  lemma BeforeMost(text: string, pos: nat)
    requires text != ""
    ensures Before(text, pos) == if pos < |text| then Before(text[..|text| - 1], pos) else text
    ensures pos >= |text| ==> Before(text[..|text| - 1], pos) == text[..|text| - 1]
  {
    assert pos < |text| ==> text[..|text| - 1][..pos] == text[..pos];
  }

  lemma {:induction false} NewlinesGrow(text: string, pos: nat)
    ensures Newlines(Before(text, pos)) <= Newlines(text)
  {
    if text == "" {
    } else {
      BeforeMost(text, pos);
      NewlinesGrow(text[..|text| - 1], pos);
    }
  }

  /** A line starts at or before a position exactly when it is one of those the newlines before the
      position begin. */
  lemma {:induction false} StartsUpTo(text: string, pos: nat, j: nat)
    requires j <= Newlines(text)
    ensures 0 <= Starts(text)[j] <= |text|
    ensures Starts(text)[j] <= pos <==> j <= Newlines(Before(text, pos))
  {
    if text == "" {
    } else {
      var most := text[..|text| - 1];
      BeforeMost(text, pos);
      NewlinesGrow(most, pos);
      hide Before;
      if j <= Newlines(most) {
        StartsUpTo(most, pos, j);
      }
    }
  }

  method LineStarts(text: string) returns (starts: seq<nat>)
    ensures starts == Starts(text)
  {
    starts := [0];
    for i := 0 to |text|
      invariant starts == Starts(text[..i])
    {
      assert text[..i + 1][..i] == text[..i];
      if text[i] == '\n' {
        starts := starts + [i + 1];
      }
    }
    assert text[..|text|] == text;
  }

  /** The line of a position: one more than the newlines before it. */
  method LineNo(ghost text: string, starts: seq<nat>, pos: nat) returns (line: nat)
    requires starts == Starts(text)
    ensures line == 1 + Newlines(Before(text, pos))
  {
    ghost var n := Newlines(Before(text, pos));
    NewlinesGrow(text, pos);
    var lo, hi := 0, |starts| - 1;
    while lo < hi
      invariant 0 <= lo <= n <= hi < |starts|
    {
      var mid := (lo + hi + 1) / 2;
      StartsUpTo(text, pos, mid);
      if starts[mid] <= pos {
        lo := mid;
      } else {
        hi := mid - 1;
      }
    }
    line := lo + 1;
  }
}
