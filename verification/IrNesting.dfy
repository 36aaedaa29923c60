/** The splitter on properly nested text, with nesting given by a grammar over the three kinds of brackets. */
module IrNesting {
  import opened IrSplit

  datatype Kind = Round | Angle | Square

  function OpenOf(k: Kind): char {
    match k case Round => '(' case Angle => '<' case Square => '['
  }

  function CloseOf(k: Kind): char {
    match k case Round => ')' case Angle => '>' case Square => ']'
  }

  predicate Bracket(c: char) { c in "()<>[]" }

  /** Properly nested text: plain characters, and groups each closed by a bracket of its own kind. */
  datatype Nested = End | Plain(c: char, rest: Nested) | Group(kind: Kind, inner: Nested, rest: Nested)

  predicate Proper(n: Nested) {
    match n
    case End => true
    case Plain(c, rest) => !Bracket(c) && Proper(rest)
    case Group(_, inner, rest) => Proper(inner) && Proper(rest)
  }

  function Render(n: Nested): string {
    match n
    case End => ""
    case Plain(c, rest) => [c] + Render(rest)
    case Group(k, inner, rest) => [OpenOf(k)] + Render(inner) + [CloseOf(k)] + Render(rest)
  }

  /** `g` in front of the first part. */
  function Before(g: string, ps: seq<string>): (r: seq<string>)
    requires ps != []
    ensures r != []
  {
    [g + ps[0]] + ps[1..]
  }

  /** The text cut at the commas outside all groups, and nowhere else. */
  function Parts(n: Nested): (r: seq<string>)
    ensures r != []
  {
    match n
    case End => [""]
    case Plain(c, rest) => if c == ',' then [""] + Parts(rest) else Before([c], Parts(rest))
    case Group(k, inner, rest) => Before([OpenOf(k)] + Render(inner) + [CloseOf(k)], Parts(rest))
  }

  // ── Joining from the front ──

  lemma {:induction false} JoinFirst(p: string, ps: seq<string>)
    requires ps != []
    ensures Join([p] + ps) == p + "," + Join(ps)
  {
    var all := [p] + ps;
    if |ps| == 1 {
      assert all[..1] == [p];
    } else {
      var init := ps[..|ps| - 1];
      assert all[..|all| - 1] == [p] + init;
      JoinFirst(p, init);
    }
  }

  lemma JoinBefore(g: string, ps: seq<string>)
    requires ps != []
    ensures Join(Before(g, ps)) == g + Join(ps)
  {
    if |ps| == 1 {
    } else {
      assert ps == [ps[0]] + ps[1..];
      JoinFirst(ps[0], ps[1..]);
      JoinFirst(g + ps[0], ps[1..]);
    }
  }

  // ── Levels ──

  /** The text closes all it opens, and no comma of it stands outside its brackets. */
  predicate Closed(g: string) {
    Level(g) == 0 && Whole(g)
  }

  lemma ClosedInFront(g: string, p: string)
    requires Closed(g) && Whole(p)
    ensures Whole(g + p) && Level(g + p) == Level(p)
  {
    LevelJoins(g, p);
    forall i | 0 <= i < |g + p| && (g + p)[i] == ',' ensures Level((g + p)[..i]) != 0 {
      if i < |g| {
        assert (g + p)[..i] == g[..i];
      } else {
        assert (g + p)[..i] == g + p[..i - |g|];
        LevelJoins(g, p[..i - |g|]);
      }
    }
  }

  lemma PiecesInFront(g: string, ps: seq<string>)
    requires Closed(g) && Pieces(ps)
    ensures Pieces(Before(g, ps))
  {
    ClosedInFront(g, ps[0]);
  }

  lemma OneChar(c: char)
    ensures Level([c]) == Nests(c)
  {
    assert [c][..0] == "";
  }

  /** Text that never goes below the level it starts from. */
  predicate Level0(s: string) {
    Level(s) == 0 && forall k :: 0 <= k <= |s| ==> Level(s[..k]) >= 0
  }

  lemma JoinedLevel0(a: string, b: string)
    requires Level0(a) && Level0(b)
    ensures Level0(a + b)
  {
    LevelJoins(a, b);
    forall k: nat | k <= |a + b| ensures Level((a + b)[..k]) >= 0 {
      if k <= |a| {
        assert (a + b)[..k] == a[..k];
      } else {
        assert (a + b)[..k] == a + b[..k - |a|];
        LevelJoins(a, b[..k - |a|]);
      }
    }
  }

  /** A group is open from its first character to its last. */
  lemma GroupIsClosed(k: Kind, a: string)
    requires Level0(a)
    ensures var g := [OpenOf(k)] + a + [CloseOf(k)]; Level0(g) && Closed(g)
  {
    var o, g := [OpenOf(k)], [OpenOf(k)] + a + [CloseOf(k)];
    OneChar(OpenOf(k));
    LevelJoins(o, a);
    LevelStep(o + a, CloseOf(k));
    forall i: nat | 0 < i <= |a| + 1 ensures Level(g[..i]) > 0 {
      assert g[..i] == o + a[..i - 1];
      LevelJoins(o, a[..i - 1]);
    }
    assert g[..0] == "" && g[..|g|] == g;
  }

  lemma {:induction false} RenderedLevel(n: Nested)
    requires Proper(n)
    ensures Level0(Render(n))
  {
    match n
    case End =>
    case Plain(c, rest) =>
      RenderedLevel(rest);
      OneChar(c);
      assert [c][..0] == "" && [c][..1] == [c];
      JoinedLevel0([c], Render(rest));
    case Group(k, inner, rest) =>
      RenderedLevel(inner);
      RenderedLevel(rest);
      GroupIsClosed(k, Render(inner));
      JoinedLevel0([OpenOf(k)] + Render(inner) + [CloseOf(k)], Render(rest));
  }

  // ── The split ──

  /** A part begun with closed text. */
  lemma SplitInFront(g: string, s: string, ps: seq<string>)
    requires Closed(g) && IsSplit(s, ps)
    ensures IsSplit(g + s, Before(g, ps))
  {
    JoinBefore(g, ps);
    PiecesInFront(g, ps);
  }

  /** A cut in front. */
  lemma CutInFront(s: string, ps: seq<string>)
    requires IsSplit(s, ps)
    ensures IsSplit("," + s, [""] + ps)
  {
    JoinFirst("", ps);
  }

  lemma {:induction false} PartsAreSplit(n: Nested)
    requires Proper(n)
    ensures IsSplit(Render(n), Parts(n))
  {
    match n
    case End =>
    case Plain(c, rest) =>
      PartsAreSplit(rest);
      OneChar(c);
      if c == ',' {
        CutInFront(Render(rest), Parts(rest));
      } else {
        SplitInFront([c], Render(rest), Parts(rest));
      }
    case Group(k, inner, rest) =>
      RenderedLevel(inner);
      PartsAreSplit(rest);
      var g := [OpenOf(k)] + Render(inner) + [CloseOf(k)];
      GroupIsClosed(k, Render(inner));
      SplitInFront(g, Render(rest), Parts(rest));
  }

  /** On properly nested text the splitter's answer is the grammar's: no comma inside a group is a cut,
      and every comma outside all groups is; a blank last part is dropped. */
  lemma NestedSplit(n: Nested, parts: seq<string>)
    requires Proper(n)
    ensures var ps := Parts(n);
      IsTrimmedSplit(Render(n), parts) <==> parts == if Blank(ps[|ps| - 1]) then ps[..|ps| - 1] else ps
  {
    var ps := Parts(n);
    var trimmed := if Blank(ps[|ps| - 1]) then ps[..|ps| - 1] else ps;
    PartsAreSplit(n);
    hide Pieces;
    hide Join;
    assert trimmed == ps || trimmed + [ps[|ps| - 1]] == ps;
    assert IsTrimmedSplit(Render(n), trimmed);
    if IsTrimmedSplit(Render(n), parts) {
      TrimmedSplitIsUnique(Render(n), parts, trimmed);
    }
  }

  // ── Flat text in one pair of brackets ──

  predicate Flat(t: string) {
    forall i :: 0 <= i < |t| ==> !Bracket(t[i])
  }

  function FlatText(t: string): Nested {
    if t == "" then End else Plain(t[0], FlatText(t[1..]))
  }

  lemma {:induction false} FlatIsProper(t: string)
    requires Flat(t)
    ensures Proper(FlatText(t)) && Render(FlatText(t)) == t
  {
    if t == "" {
    } else {
      FlatIsProper(t[1..]);
    }
  }

  /** Round, angle and square brackets each keep the commas of a flat text together. */
  lemma BracketedIsOnePart(t: string, parts: seq<string>)
    requires Flat(t)
    ensures IsTrimmedSplit("(" + t + ")", parts) <==> parts == ["(" + t + ")"]
    ensures IsTrimmedSplit("<" + t + ">", parts) <==> parts == ["<" + t + ">"]
    ensures IsTrimmedSplit("[" + t + "]", parts) <==> parts == ["[" + t + "]"]
  {
    InBrackets(Round, t, parts);
    InBrackets(Angle, t, parts);
    InBrackets(Square, t, parts);
  }

  lemma InBrackets(k: Kind, t: string, parts: seq<string>)
    requires Flat(t)
    ensures IsTrimmedSplit([OpenOf(k)] + t + [CloseOf(k)], parts) <==> parts == [[OpenOf(k)] + t + [CloseOf(k)]]
  {
    var n, s := Group(k, FlatText(t), End), [OpenOf(k)] + t + [CloseOf(k)];
    FlatIsProper(t);
    assert Render(n) == s + "" == s;
    assert Parts(n) == [s];
    assert !Space(s[0]) && !Blank(s);
    NestedSplit(n, parts);
  }

  /** A flat text without commas and a blank rest behind one comma: the rest is dropped. */
  lemma BlankRestIsDropped(t: string, rest: string, parts: seq<string>)
    requires Flat(t) && ',' !in t && forall i :: 0 <= i < |rest| ==> rest[i] in " \t\r\n"
    ensures IsTrimmedSplit(t + "," + rest, parts) <==> parts == [t]
  {
    var s := t + "," + rest;
    assert Flat(rest);
    FlatIsProper(s);
    NestedSplit(FlatText(s), parts);
    FlatParts(t, rest);
    assert Blank(rest);
  }

  lemma {:induction false} FlatParts(t: string, rest: string)
    requires ',' !in t && ',' !in rest
    ensures Parts(FlatText(t + "," + rest)) == [t, rest]
  {
    var s := t + "," + rest;
    if t == "" {
      assert s[1..] == rest;
      NoComma(rest);
    } else {
      assert s[1..] == t[1..] + "," + rest;
      FlatParts(t[1..], rest);
      assert [t[0]] + t[1..] == t;
    }
  }

  lemma {:induction false} NoComma(t: string)
    requires ',' !in t
    ensures Parts(FlatText(t)) == [t]
  {
    if t == "" {
    } else {
      NoComma(t[1..]);
      assert [t[0]] + t[1..] == t;
    }
  }
}
