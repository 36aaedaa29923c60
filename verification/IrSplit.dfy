/** Splitting on the commas outside all brackets. */
module IrSplit {

  function Nests(c: char): int {
    if c == '(' || c == '<' || c == '[' then 1
    else if c == ')' || c == '>' || c == ']' then -1
    else 0
  }

  /** Brackets of all three kinds share one counter, which may go below zero. */
  function Level(s: string): int {
    if s == "" then 0 else Level(s[..|s| - 1]) + Nests(s[|s| - 1])
  }

  lemma {:induction false} LevelJoins(a: string, b: string)
    ensures Level(a + b) == Level(a) + Level(b)
  {
    if b == "" {
      assert a + b == a;
    } else {
      LevelJoins(a, b[..|b| - 1]);
      assert (a + b)[..|a + b| - 1] == a + b[..|b| - 1];
    }
  }

  /** No comma of the piece stands at level zero. */
  predicate Whole(p: string) {
    forall i :: 0 <= i < |p| && p[i] == ',' ==> Level(p[..i]) != 0
  }

  /** Pieces that a split at the top commas could have made. */
  predicate Pieces(ps: seq<string>) {
    && ps != []
    && (forall k :: 0 <= k < |ps| ==> Whole(ps[k]))
    && (forall k :: 0 <= k < |ps| - 1 ==> Level(ps[k]) == 0)
  }

  function Join(ps: seq<string>): string
    requires ps != []
  {
    if |ps| == 1 then ps[0] else Join(ps[..|ps| - 1]) + "," + ps[|ps| - 1]
  }

  /** Characters that `strip` removes. */
  predicate Space(c: char) {
    || '\U{0009}' <= c <= '\U{000D}' || '\U{001C}' <= c <= '\U{0020}'
    || c == '\U{0085}' || c == '\U{00A0}' || c == '\U{1680}' || '\U{2000}' <= c <= '\U{200A}'
    || c == '\U{2028}' || c == '\U{2029}' || c == '\U{202F}' || c == '\U{205F}' || c == '\U{3000}'
  }

  predicate Blank(s: string) {
    forall i :: 0 <= i < |s| ==> Space(s[i])
  }

  lemma JoinStep(ps: seq<string>, cur: string, c: char)
    ensures Join(ps + [cur + [c]]) == Join(ps + [cur]) + [c]
    ensures Join((ps + [cur]) + [""]) == Join(ps + [cur]) + [',']
  {
    assert (ps + [cur + [c]])[..|ps|] == ps && (ps + [cur])[..|ps|] == ps;
    assert ((ps + [cur]) + [""])[..|ps| + 1] == ps + [cur];
  }

  lemma PiecesStep(ps: seq<string>, cur: string, c: char)
    requires Pieces(ps + [cur])
    ensures c != ',' || Level(cur) != 0 ==> Pieces(ps + [cur + [c]])
    ensures c == ',' && Level(cur) == 0 ==> Pieces((ps + [cur]) + [""])
  {
    assert (ps + [cur])[|ps|] == cur;
    assert forall k :: 0 <= k < |ps| ==> (ps + [cur])[k] == ps[k];
    if c != ',' || Level(cur) != 0 {
      forall i | 0 <= i <= |cur| && (cur + [c])[i] == ',' ensures Level((cur + [c])[..i]) != 0 {
        assert (cur + [c])[..i] == cur[..i];
        assert cur[..|cur|] == cur;
      }
    }
  }

  lemma LevelStep(a: string, c: char)
    ensures Level(a + [c]) == Level(a) + Nests(c)
  {
    assert (a + [c])[..|a|] == a;
  }

  /** The pieces cut off so far and the one being read make up the text read so far. */
  ghost predicate Cutting(s: string, i: nat, parts: seq<string>, cur: string) {
    && i <= |s| && Level(s[..i]) == Level(cur)
    && Pieces(parts + [cur]) && Join(parts + [cur]) == s[..i]
  }

  lemma CommaIsFlat()
    ensures Nests(',') == 0
  {
  }

  /** At the end of the text the pieces make up all of it. */
  lemma CutDone(s: string, parts: seq<string>, cur: string)
    requires Cutting(s, |s|, parts, cur)
    ensures Pieces(parts + [cur]) && Join(parts + [cur]) == s
  {
    assert s[..|s|] == s;
  }

  lemma CutStep(s: string, i: nat, parts: seq<string>, cur: string)
    requires i < |s| && Cutting(s, i, parts, cur)
    ensures Level(s[..i + 1]) == Level(s[..i]) + Nests(s[i])
    ensures if s[i] == ',' && Level(s[..i]) == 0 then Cutting(s, i + 1, parts + [cur], "")
      else Cutting(s, i + 1, parts, cur + [s[i]])
  {
    assert Level("") == 0;
    hide Level;
    hide Join;
    hide Pieces;
    hide Whole;
    hide Nests;
    var c, was := s[i], s[..i];
    assert s[..i + 1] == was + [c];
    LevelStep(was, c);
    LevelStep(cur, c);
    JoinStep(parts, cur, c);
    PiecesStep(parts, cur, c);
    if c == ',' && Level(was) == 0 {
      CommaIsFlat();
    }
  }

  /** Cut at every comma at bracket depth zero; `cur` is what follows the last one. */
  method Cut(s: string) returns (parts: seq<string>, cur: string)
    ensures Pieces(parts + [cur]) && Join(parts + [cur]) == s
  {
    parts := [];
    cur := "";
    var depth := 0;
    NothingCut(s, parts, cur);
    hide Level;
    hide Cutting;
    hide Pieces;
    hide Join;
    for i := 0 to |s|
      invariant depth == Level(s[..i])
      invariant Cutting(s, i, parts, cur)
    {
      var ch := s[i];
      CutStep(s, i, parts, cur);
      if ch == '(' || ch == '<' || ch == '[' {
        depth := depth + 1;
      } else if ch == ')' || ch == '>' || ch == ']' {
        depth := depth - 1;
      }
      if ch == ',' && depth == 0 {
        parts := parts + [cur];
        cur := "";
      } else {
        cur := cur + [ch];
      }
    }
    CutDone(s, parts, cur);
  }

  lemma NothingCut(s: string, parts: seq<string>, cur: string)
    requires parts == [] && cur == ""
    ensures Level(s[..0]) == 0 && Cutting(s, 0, parts, cur)
  {
    assert parts + [cur] == [""];
  }

  ghost predicate IsSplit(s: string, ps: seq<string>) {
    ps != [] && Pieces(ps) && Join(ps) == s
  }

  /** The pieces of the text with the last one dropped if it is blank. */
  ghost predicate IsTrimmedSplit(s: string, parts: seq<string>) {
    || (IsSplit(s, parts) && !Blank(parts[|parts| - 1]))
    || (exists tail :: Blank(tail) && IsSplit(s, parts + [tail]))
  }

  /** Split on commas at bracket depth zero; a blank last piece is dropped. */
  method SplitTop(s: string) returns (parts: seq<string>)
    ensures IsTrimmedSplit(s, parts)
  {
    hide Pieces;
    hide Join;
    hide Blank;
    var cur;
    parts, cur := Cut(s);
    assert IsSplit(s, parts + [cur]);
    var blank := IsBlank(cur);
    if !blank {
      parts := parts + [cur];
    }
  }

  /** The text has only one such list of parts. */
  lemma TrimmedSplitIsUnique(s: string, a: seq<string>, b: seq<string>)
    requires IsTrimmedSplit(s, a) && IsTrimmedSplit(s, b)
    ensures a == b
  {
    var x := TheSplit(s, a);
    var y := TheSplit(s, b);
    SplitIsUnique(x, y);
  }

  lemma TheSplit(s: string, parts: seq<string>) returns (ps: seq<string>)
    requires IsTrimmedSplit(s, parts)
    ensures IsSplit(s, ps)
    ensures parts == if Blank(ps[|ps| - 1]) then ps[..|ps| - 1] else ps
  {
    hide Pieces;
    hide Join;
    if IsSplit(s, parts) && !Blank(parts[|parts| - 1]) {
      ps := parts;
    } else {
      var tail :| Blank(tail) && IsSplit(s, parts + [tail]);
      ps := parts + [tail];
    }
  }

  method IsBlank(s: string) returns (b: bool)
    ensures b == Blank(s)
  {
    for i := 0 to |s|
      invariant forall j :: 0 <= j < i ==> Space(s[j])
    {
      if !Space(s[i]) {
        return false;
      }
    }
    return true;
  }

  // ── There is only one such split ──

  lemma {:induction false} LevelOfJoin(ps: seq<string>)
    requires ps != [] && forall k :: 0 <= k < |ps| ==> Level(ps[k]) == 0
    ensures Level(Join(ps)) == 0
  {
    if |ps| == 1 {
    } else {
      var front := ps[..|ps| - 1];
      LevelOfJoin(front);
      LevelStep(Join(front), ',');
      LevelJoins(Join(front) + ",", ps[|ps| - 1]);
    }
  }

  /** The text ends in the piece, which starts at level zero. */
  ghost predicate EndsIn(s: string, p: string) {
    |p| <= |s| && s[|s| - |p|..] == p && Level(s[..|s| - |p|]) == 0
  }

  /** The piece stands behind a comma at level zero. */
  ghost predicate BehindComma(s: string, p: string) {
    |p| < |s| && s[|s| - |p| - 1] == ',' && Level(s[..|s| - |p| - 1]) == 0
  }

  lemma LastCut(ps: seq<string>)
    requires Pieces(ps)
    ensures var s, p := Join(ps), ps[|ps| - 1];
      && EndsIn(s, p) && Whole(p)
      && (|ps| == 1 ==> p == s)
      && (|ps| > 1 ==> BehindComma(s, p) && s[..|s| - |p| - 1] == Join(ps[..|ps| - 1]))
  {
    var s := Join(ps);
    if |ps| == 1 {
      assert s[..0] == "" && s[0..] == s;
    } else {
      var before := Join(ps[..|ps| - 1]);
      LevelOfJoin(ps[..|ps| - 1]);
      LevelStep(before, ',');
      assert s[..|before| + 1] == before + [','];
      assert s[..|before|] == before;
    }
  }

  lemma LevelInside(s: string, q: string, at: nat)
    requires EndsIn(s, q) && |s| - |q| <= at < |s|
    ensures q[at - (|s| - |q|)] == s[at] && Level(q[..at - (|s| - |q|)]) == Level(s[..at])
  {
    var skip := |s| - |q|;
    LevelJoins(s[..skip], q[..at - skip]);
    hide Level;
    assert q[..at - skip] == s[skip..][..at - skip] == s[skip..at];
    assert s[..at] == s[..skip] + s[skip..at];
  }

  /** A comma before the last piece of one split would be a top comma inside the other's. */
  lemma NoLonger(s: string, p: string, q: string)
    requires EndsIn(s, q) && Whole(q) && BehindComma(s, p)
    ensures |q| <= |p|
  {
    if |p| < |q| {
      LevelInside(s, q, |s| - |p| - 1);
    }
  }

  /** Two splits of one text have the same last piece, and the same text before it. */
  lemma LastsAgree(ps: seq<string>, qs: seq<string>)
    requires Pieces(ps) && Pieces(qs) && Join(ps) == Join(qs)
    ensures ps[|ps| - 1] == qs[|qs| - 1] && (|ps| == 1 <==> |qs| == 1)
    ensures |ps| > 1 ==> Join(ps[..|ps| - 1]) == Join(qs[..|qs| - 1])
  {
    var s, p, q := Join(ps), ps[|ps| - 1], qs[|qs| - 1];
    LastCut(ps);
    LastCut(qs);
    hide Join;
    hide Level;
    hide Whole;
    hide Pieces;
    if |ps| > 1 {
      NoLonger(s, p, q);
    }
    if |qs| > 1 {
      NoLonger(s, q, p);
    }
  }

  /** Joining loses nothing: two splits at the top commas that join to the same text are equal. */
  lemma {:induction false} SplitIsUnique(ps: seq<string>, qs: seq<string>)
    requires Pieces(ps) && Pieces(qs) && Join(ps) == Join(qs)
    ensures ps == qs
    decreases |ps|
  {
    hide Join;
    hide Level;
    hide Whole;
    LastsAgree(ps, qs);
    if |ps| == 1 {
    } else {
      var f, g := ps[..|ps| - 1], qs[..|qs| - 1];
      SplitIsUnique(f, g);
      assert ps == f + [ps[|ps| - 1]] && qs == g + [qs[|qs| - 1]];
    }
  }
}
