/** Extracting a parenthesised group from IR text. */
module IrParens {

  // ── Parenthesised groups ──

  function Opens(c: char): int {
    if c == '(' then 1 else if c == ')' then -1 else 0
  }

  function Depth(s: string): int {
    if s == "" then 0 else Depth(s[..|s| - 1]) + Opens(s[|s| - 1])
  }

  /** The grammar of balanced text. */
  datatype Nest = End | Plain(c: char, rest: Nest) | Group(inner: Nest, rest: Nest)

  predicate Proper(n: Nest) {
    match n
    case End => true
    case Plain(c, rest) => Opens(c) == 0 && Proper(rest)
    case Group(inner, rest) => Proper(inner) && Proper(rest)
  }

  function Render(n: Nest): string {
    match n
    case End => ""
    case Plain(c, rest) => [c] + Render(rest)
    case Group(inner, rest) => "(" + Render(inner) + ")" + Render(rest)
  }

  /** Never more closed than opened, and all closed at the end. */
  predicate Balanced(s: string) {
    Depth(s) == 0 && forall k :: 0 <= k <= |s| ==> Depth(s[..k]) >= 0
  }

  lemma {:induction false} DepthJoins(a: string, b: string)
    ensures Depth(a + b) == Depth(a) + Depth(b)
  {
    if b == "" {
      assert a + b == a;
    } else {
      DepthJoins(a, b[..|b| - 1]);
      assert (a + b)[..|a + b| - 1] == a + b[..|b| - 1];
    }
  }

  lemma DepthOfFirst(s: string, k: nat)
    requires 0 < k <= |s|
    ensures Depth(s[..k]) == Opens(s[0]) + Depth(s[1..][..k - 1])
  {
    DepthJoins(s[..1], s[1..][..k - 1]);
    assert s[..k] == s[..1] + s[1..][..k - 1];
    assert s[..1][..0] == "";
  }

  lemma BalancedJoins(a: string, b: string)
    requires Balanced(a) && Balanced(b)
    ensures Balanced(a + b)
  {
    DepthJoins(a, b);
    forall k: nat | k <= |a + b| ensures Depth((a + b)[..k]) >= 0 {
      if k <= |a| {
        assert (a + b)[..k] == a[..k];
      } else {
        assert (a + b)[..k] == a + b[..k - |a|];
        DepthJoins(a, b[..k - |a|]);
      }
    }
  }

  /** A group around balanced text is balanced, and open from its first character to its last. */
  lemma GroupIsOpen(a: string)
    requires Balanced(a)
    ensures Balanced("(" + a + ")")
    ensures forall k :: 0 < k <= |a| + 1 ==> Depth(("(" + a + ")")[..k]) > 0
  {
    var s := "(" + a + ")";
    assert s[1..] == a + ")";
    forall k: nat | 0 < k <= |s| ensures Depth(s[..k]) == 1 + Depth((a + ")")[..k - 1]) {
      DepthOfFirst(s, k);
    }
    forall k: nat | 0 < k <= |a| + 1 ensures Depth(s[..k]) > 0 {
      assert (a + ")")[..k - 1] == a[..k - 1];
    }
    assert s[..|s|] == s && (a + ")")[..|s| - 1] == a + ")";
    assert (a + ")")[..|a|] == a;
  }

  lemma {:induction false} RenderedIsBalanced(n: Nest)
    requires Proper(n)
    ensures Balanced(Render(n))
  {
    match n
    case End =>
    case Plain(c, rest) =>
      RenderedIsBalanced(rest);
      assert [c][..0] == "" && [c][..1] == [c];
      BalancedJoins([c], Render(rest));
    case Group(inner, rest) =>
      RenderedIsBalanced(inner);
      RenderedIsBalanced(rest);
      GroupIsOpen(Render(inner));
      BalancedJoins("(" + Render(inner) + ")", Render(rest));
  }

  /** The first place at or after `from` where the depth counted from the start is back at zero. */
  ghost function Close(s: string, from: nat): (k: nat)
    requires from <= |s|
    ensures from <= k <= |s| + 1
    ensures k <= |s| ==> Depth(s[..k]) == 0
    ensures forall j :: from <= j < k && j <= |s| ==> Depth(s[..j]) != 0
    decreases |s| - from
  {
    if Depth(s[..from]) == 0 then from
    else if from == |s| then |s| + 1
    else Close(s, from + 1)
  }

  lemma {:induction false} StaysOpen(s: string, k: nat)
    requires 0 < k <= |s| && s[0] == '('
    requires forall j :: 1 <= j < k ==> Depth(s[..j]) != 0
    ensures forall j :: 1 <= j < k ==> Depth(s[..j]) > 0
    ensures Depth(s[..k]) >= 0
    decreases k
  {
    assert s[..k][..k - 1] == s[..k - 1];
    if k == 1 {
      assert s[..1][..0] == "";
    } else {
      StaysOpen(s, k - 1);
    }
  }

  /** Text that opens a group and comes back to zero at `k` for the first time is a group around
      balanced text. */
  lemma GroupOf(s: string, k: nat)
    requires 0 < k <= |s| && s[0] == '(' && Depth(s[..k]) == 0
    requires forall j :: 1 <= j < k ==> Depth(s[..j]) != 0
    ensures k >= 2 && s[..k] == "(" + s[1..k - 1] + ")"
    ensures Balanced(s[1..k - 1])
  {
    DepthOfFirst(s, 1);
    assert s[1..][..0] == "" && Depth(s[..1]) == 1;
    StaysOpen(s, k);
    assert s[..k][..k - 1] == s[..k - 1];
    assert Opens(s[k - 1]) == -1;
    hide Depth;
    var a := s[1..k - 1];
    forall j: nat | j <= |a| ensures Depth(a[..j]) == Depth(s[..j + 1]) - 1 {
      DepthOfFirst(s, j + 1);
      assert s[1..][..j] == a[..j];
    }
    assert a[..|a|] == a;
  }

  lemma RestIsBalanced(s: string, k: nat)
    requires Balanced(s) && k <= |s| && Depth(s[..k]) == 0
    ensures Balanced(s[k..])
  {
    forall j: nat | j <= |s[k..]| ensures Depth(s[k..][..j]) == Depth(s[..k + j]) {
      DepthJoins(s[..k], s[k..][..j]);
      assert s[..k] + s[k..][..j] == s[..k + j];
    }
    assert s[k..][..|s| - k] == s[k..] && s[..|s|] == s;
  }

  /** The group a balanced text begins with, and the balanced rest. */
  lemma FirstGroup(s: string) returns (k: nat)
    requires Balanced(s) && s != "" && s[0] == '('
    ensures 2 <= k <= |s| && s == "(" + s[1..k - 1] + ")" + s[k..]
    ensures Balanced(s[1..k - 1]) && Balanced(s[k..])
  {
    k := Close(s, 1);
    assert s[..|s|] == s;
    GroupOf(s, k);
    RestIsBalanced(s, k);
    hide Depth;
    assert s == s[..k] + s[k..];
  }

  lemma FirstPlain(s: string)
    requires Balanced(s) && s != "" && s[0] != '('
    ensures Opens(s[0]) == 0 && Balanced(s[1..])
  {
    assert s[..1][..0] == "";
    assert Depth(s[..1]) == Opens(s[0]);
    RestIsBalanced(s, 1);
  }

  /** Balanced text is exactly what the grammar renders. */
  lemma {:induction false} BalancedIsRendered(s: string) returns (n: Nest)
    requires Balanced(s)
    ensures Proper(n) && Render(n) == s
    decreases |s|
  {
    if s == "" {
      n := End;
    } else if s[0] == '(' {
      var k := FirstGroup(s);
      hide Balanced;
      var inner := BalancedIsRendered(s[1..k - 1]);
      var rest := BalancedIsRendered(s[k..]);
      n := Group(inner, rest);
    } else {
      FirstPlain(s);
      hide Balanced;
      var rest := BalancedIsRendered(s[1..]);
      n := Plain(s[0], rest);
    }
  }

  /** Only a closing parenthesis brings the depth back to zero. */
  lemma GoesOn(s: string, i: nat)
    requires i < |s| && s[0] == '('
    requires forall j :: 1 <= j <= i ==> Depth(s[..j]) != 0
    requires s[i] == ')' ==> Depth(s[..i]) != 1
    ensures Depth(s[..i + 1]) != 0
  {
    assert s[..i + 1][..i] == s[..i] && s[..1][..0] == "";
    if i > 0 {
      StaysOpen(s, i);
    }
  }

  /** A group around `a` starts the text. */
  predicate StartsWithGroup(s: string, a: string) {
    Balanced(a) && "(" + a + ")" <= s
  }

  /** At most one group starts at a place, and the first return to depth zero ends it. */
  lemma GroupIsUnique(s: string, a: string)
    requires StartsWithGroup(s, a)
    ensures Close(s, 1) == |a| + 2 && s[1..|a| + 1] == a
  {
    GroupIsOpen(a);
    var g := "(" + a + ")";
    assert g[..|g|] == g;
    forall j: nat | j <= |g| ensures s[..j] == g[..j] {
    }
    assert s[1..|a| + 1] == g[1..|a| + 1] == a;
  }

  lemma NoGroup(s: string, a: string)
    requires s != "" && forall j :: 1 <= j <= |s| ==> Depth(s[..j]) != 0
    ensures !StartsWithGroup(s, a)
  {
    if StartsWithGroup(s, a) {
      GroupIsUnique(s, a);
    }
  }

  /** What stands between the parenthesis at `start` and its partner, and where to go on; when the
      group is never closed, all the text that is left. */
  method ExtractParens(text: string, start: nat) returns (inner: string, next: nat)
    requires start < |text| && text[start] == '('
    ensures
      || (StartsWithGroup(text[start..], inner) && next == start + |inner| + 2)
      || (inner == text[start + 1..] && next == |text| && forall a :: !StartsWithGroup(text[start..], a))
  {
    ghost var s := text[start..];
    var depth := 0;
    for i := start to |text|
      invariant depth == Depth(s[..i - start])
      invariant forall j :: 1 <= j <= i - start ==> Depth(s[..j]) != 0
    {
      assert s[..i + 1 - start][..i - start] == s[..i - start];
      if text[i] == '(' {
        depth := depth + 1;
      } else if text[i] == ')' {
        depth := depth - 1;
        if depth == 0 {
          GroupOf(s, i + 1 - start);
          assert s[1..i - start] == text[start + 1..i];
          return text[start + 1..i], i + 1;
        }
      }
      GoesOn(s, i - start);
    }
    forall a ensures !StartsWithGroup(s, a) {
      NoGroup(s, a);
    }
    return text[start + 1..], |text|;
  }
}
