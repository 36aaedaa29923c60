/** Applying a module-config block to the settings in force. */
module Overlay {
  import opened Options
  import opened Settings

  datatype IrrPolicy = Allow | Warn | Deny

  function PolicyOf(t: Token): Option<IrrPolicy> {
    match t
    case Text(s) =>
      if s == "allow" then Some(Allow)
      else if s == "warn" || s == "irr" then Some(Warn)
      else if s == "deny" then Some(Deny)
      else None
    case _ => None
  }

  /** Accepted, with settings and policy; refused with a message; or the panic of the settings parser
      on text it cannot read. */
  datatype Outcome = Applied(settings: Store, policy: IrrPolicy) | Refused | Panic

  function LastToken(rows: seq<Row>, name: Name): Token {
    match Last(rows, name)
    case Some(t) => t
    case None => Missing
  }

  /** The block can be read, names only known keys, and its policy row, if any, holds a policy. */
  predicate Acceptable(block: seq<Row>) {
    && Loads(block)
    && (forall i :: 0 <= i < |block| ==> !block[i].name.Unknown?)
    && (Policy in Names(block) ==> PolicyOf(LastToken(block, Policy)).Some?)
  }

  function BlockPolicy(block: seq<Row>): IrrPolicy {
    match PolicyOf(LastToken(block, Policy))
    case Some(p) => p
    case None => Allow
  }

  /** The rows of the settings in force, without the keys the block names, and the block behind them. */
  function Apply(base: Store, block: seq<Row>): Outcome {
    if !Acceptable(block) then Refused
    else match Parse(Render(base, Names(block), 50) + block)
      case None => Panic
      case Some(s) => Applied(s, BlockPolicy(block))
  }

  lemma {:induction false} LastJoins(a: seq<Row>, b: seq<Row>, name: Name)
    ensures Last(a + b, name) == if Last(b, name).Some? then Last(b, name) else Last(a, name)
  {
    if b == [] {
      assert a + b == a;
    } else {
      LastJoins(a, b[..|b| - 1], name);
      assert (a + b)[..|a + b| - 1] == a + b[..|b| - 1];
    }
  }

  lemma {:induction false} LastIsNamed(rows: seq<Row>, name: Name)
    ensures Last(rows, name).Some? <==> name in Names(rows)
    ensures Loads(rows) && name in Names(rows) ==> Fits(LastToken(rows, name))
  {
    if rows == [] {
    } else {
      var most, last := rows[..|rows| - 1], rows[|rows| - 1];
      LastIsNamed(most, name);
      assert forall i :: 0 <= i < |most| ==> most[i] == rows[i];
      assert last.name in Names(rows);
    }
  }

  lemma LoadsJoins(a: seq<Row>, b: seq<Row>)
    ensures Loads(a + b) <==> Loads(a) && Loads(b)
  {
    hide Fits;
    assert Loads(a + b) ==> forall i :: 0 <= i < |a| ==> a[i] == (a + b)[i];
    assert Loads(a + b) ==> forall i :: 0 <= i < |b| ==> b[i] == (a + b)[|a| + i];
  }

  /** What a key is read from: the block's last row for it, or else its own rendering. */
  function Source(base: Store, block: seq<Row>, k: Key): Token {
    if Known(k) in Names(block) then LastToken(block, Known(k)) else Write(base[k])
  }

  /** An acceptable block panics exactly when some key it does not name holds a number that does not
      print as a signed 64-bit one; otherwise every key is read from its one deciding row. */
  lemma AppliedIsRead(base: Store, block: seq<Row>)
    requires Acceptable(block)
    ensures Apply(base, block).Panic? <==> exists k: Key :: Known(k) !in Names(block) && !Fits(Write(base[k]))
    ensures Apply(base, block).Applied? ==>
      forall k: Key :: Apply(base, block).settings[k] == Read(Table(k), Source(base, block, k))
  {
    hide Table;
    hide Read;
    hide Write;
    hide Fits;
    var head := Render(base, Names(block), 50);
    assert Loads(block);
    hide Acceptable;
    LoadsJoins(head, block);
    RenderedLoads(base, Names(block), 50);
    forall k: Key ensures Last(head + block, Known(k)) == Some(Source(base, block, k)) {
      LastJoins(head, block, Known(k));
      LastRendered(base, Names(block), 50, Known(k));
      LastIsNamed(block, Known(k));
    }
  }

  /** An accepted block gives every key it names its own last row's value, and no other key a new
      value — except those whose value in force does not survive its own row. */
  lemma OnlyNamedKeysChange(base: Store, block: seq<Row>, k: Key)
    requires Typed(base) && Apply(base, block).Applied?
    ensures var s := Apply(base, block).settings;
      if Known(k) in Names(block) then s[k] == Read(Table(k), LastToken(block, Known(k)))
      else s[k] == base[k] <==> Survives(Table(k).kind, base[k])
  {
    AppliedIsRead(base, block);
    SurvivesIff(k, base[k]);
    hide Table;
    hide Read;
    hide Write;
    hide Fits;
    hide Survives;
  }

  lemma AppliedIsTyped(base: Store, block: seq<Row>)
    requires Typed(base) && Apply(base, block).Applied?
    ensures Typed(Apply(base, block).settings)
  {
    AppliedIsRead(base, block);
    forall k: Key ensures HasType(Table(k).kind, Apply(base, block).settings[k]) {
      LastIsNamed(block, Known(k));
      ReadHasType(k, Source(base, block, k));
    }
  }

  lemma BothAcceptable(b1: seq<Row>, b2: seq<Row>)
    requires Acceptable(b1) && Acceptable(b2)
    ensures Acceptable(b1 + b2) && Names(b1 + b2) == Names(b1) + Names(b2)
    ensures forall name :: (
      LastToken(b1 + b2, name) == if name in Names(b2) then LastToken(b2, name) else LastToken(b1, name))
  {
    LoadsJoins(b1, b2);
    forall name ensures Last(b1 + b2, name) == if name in Names(b2) then Last(b2, name) else Last(b1, name) {
      LastJoins(b1, b2, name);
      LastIsNamed(b2, name);
    }
    var both := b1 + b2;
    assert forall i :: 0 <= i < |b1| ==> both[i] == b1[i];
    assert forall i :: 0 <= i < |b2| ==> both[|b1| + i] == b2[i];
  }

  // ── Two blocks ──

  /** One block after the other; the second works on the settings the first leaves. */
  function InTurn(base: Store, b1: seq<Row>, b2: seq<Row>): Outcome {
    match Apply(base, b1)
    case Applied(t, _) => Apply(t, b2)
    case Refused => Refused
    case Panic => Panic
  }

  /** The settings in force hold a number for the key that prints as no signed 64-bit one. */
  predicate Unprintable(base: Store, k: Key) {
    !Fits(Write(base[k]))
  }

  /** The first block's row for a key that the second leaves alone gives a value that does not survive. */
  ghost predicate LeavesAwkward(b1: seq<Row>, b2: seq<Row>) {
    exists k: Key :: Known(k) in Names(b1) && Known(k) !in Names(b2) && Awkward(Table(k).kind, LastToken(b1, Known(k)))
  }

  /** When one block of all rows does what the two blocks do in turn. The first line: both end in the
      parser's panic, over a key neither block names. The others: the first block does not panic, none
      of its values is lost on the way to the second, and its policy is not dropped. */
  ghost predicate Composes(base: Store, b1: seq<Row>, b2: seq<Row>) {
    || (exists k: Key :: Known(k) !in Names(b1) && Known(k) !in Names(b2) && Unprintable(base, k))
    || ((forall k: Key :: Known(k) !in Names(b1) ==> !Unprintable(base, k))
        && !LeavesAwkward(b1, b2)
        && (Policy in Names(b2) || BlockPolicy(b1) == Allow))
  }

  /** Settings after two blocks, when the first is applied. */
  lemma SettingsInTurn(base: Store, b1: seq<Row>, b2: seq<Row>)
    requires Typed(base) && Acceptable(b2) && Apply(base, b1).Applied?
    ensures Apply(base, b1 + b2).Applied?
    ensures var then2 := Apply(Apply(base, b1).settings, b2);
      (then2.Applied? && then2.settings == Apply(base, b1 + b2).settings) <==> !LeavesAwkward(b1, b2)
  {
    var t := Apply(base, b1).settings;
    BothAcceptable(b1, b2);
    AppliedIsRead(base, b1);
    AppliedIsRead(base, b1 + b2);
    AppliedIsRead(t, b2);
    AppliedIsTyped(base, b1);
    forall k: Key
      ensures Known(k) in Names(b2) ==> Source(base, b1 + b2, k) == Source(t, b2, k)
      ensures Known(k) !in Names(b2) ==>
        && Read(Table(k), Source(base, b1 + b2, k)) == t[k]
        && (Survives(Table(k).kind, t[k]) <==> Fits(Write(t[k])) && Read(Table(k), Source(t, b2, k)) == t[k])
        && (Survives(Table(k).kind, t[k])
            <==> (Known(k) in Names(b1) ==> !Awkward(Table(k).kind, LastToken(b1, Known(k)))))
    {
      SurvivesIff(k, t[k]);
      LastIsNamed(b1, Known(k));
      if Known(k) in Names(b1) {
        AwkwardIff(k, LastToken(b1, Known(k)));
      } else {
        ReadBackSurvives(k, base[k]);
      }
    }
  }

  /** The policy of two blocks in one is the second's if it has a row for it, and the first's else. */
  lemma PolicyOfBoth(b1: seq<Row>, b2: seq<Row>)
    requires Acceptable(b1) && Acceptable(b2)
    ensures BlockPolicy(b1 + b2) == if Policy in Names(b2) then BlockPolicy(b2) else BlockPolicy(b1)
    ensures Policy !in Names(b2) ==> BlockPolicy(b2) == Allow
  {
    BothAcceptable(b1, b2);
    LastIsNamed(b2, Policy);
  }

  /** Two blocks in turn and one block of all their rows have the same outcome, settings, policy and
      panic included, exactly when `Composes` says so. */
  lemma TwoBlocksAreOneIff(base: Store, b1: seq<Row>, b2: seq<Row>)
    requires Typed(base) && Acceptable(b1) && Acceptable(b2)
    ensures InTurn(base, b1, b2) == Apply(base, b1 + b2) <==> Composes(base, b1, b2)
  {
    BothAcceptable(b1, b2);
    PolicyOfBoth(b1, b2);
    AppliedIsRead(base, b1);
    AppliedIsRead(base, b1 + b2);
    assert Apply(base, b1).Panic? <==> exists k: Key :: Known(k) !in Names(b1) && Unprintable(base, k);
    assert Apply(base, b1 + b2).Panic? <==>
      exists k: Key :: Known(k) !in Names(b1) && Known(k) !in Names(b2) && Unprintable(base, k);
    if Apply(base, b1).Applied? {
      SettingsInTurn(base, b1, b2);
      assert Apply(base, b1 + b2).policy == BlockPolicy(b1 + b2);
      var t := Apply(base, b1).settings;
      assert Apply(t, b2).Applied? ==> Apply(t, b2).policy == BlockPolicy(b2);
    }
    hide Apply;
    hide Unprintable;
    hide LeavesAwkward;
    hide BlockPolicy;
  }

  /** The blocks that are refused one by one. One block of all rows is refused too, unless the first
      was at fault only in a policy row that the second overrides; and a panic of the first comes
      before the refusal of the second. */
  lemma RefusedBlocksIff(base: Store, b1: seq<Row>, b2: seq<Row>)
    requires Typed(base) && !(Acceptable(b1) && Acceptable(b2))
    ensures InTurn(base, b1, b2) == Apply(base, b1 + b2) <==>
      if Acceptable(b1) then forall k: Key :: Known(k) !in Names(b1) ==> !Unprintable(base, k)
      else !(OnlyPolicyAtFault(b1) && Acceptable(b2) && Policy in Names(b2))
  {
    JoinedAcceptable(b1, b2);
    if Acceptable(b1) {
      AppliedIsRead(base, b1);
      assert Apply(base, b1).Panic? <==> exists k: Key :: Known(k) !in Names(b1) && Unprintable(base, k);
    }
    hide Acceptable;
    hide Unprintable;
    hide Render;
    hide Parse;
  }

  /** The block reads and names known keys only. */
  predicate OnlyPolicyAtFault(block: seq<Row>) {
    Loads(block) && forall i :: 0 <= i < |block| ==> !block[i].name.Unknown?
  }

  lemma JoinedAcceptable(b1: seq<Row>, b2: seq<Row>)
    ensures Acceptable(b1 + b2) <==>
      && OnlyPolicyAtFault(b1) && OnlyPolicyAtFault(b2)
      && (if Policy in Names(b2) then Acceptable(b2) else Acceptable(b1))
  {
    LoadsJoins(b1, b2);
    LastJoins(b1, b2, Policy);
    LastIsNamed(b1, Policy);
    LastIsNamed(b2, Policy);
    LastIsNamed(b1 + b2, Policy);
    KnownJoins(b1, b2);
    hide Loads;
    hide PolicyOf;
  }

  lemma KnownJoins(b1: seq<Row>, b2: seq<Row>)
    ensures (forall i :: 0 <= i < |b1 + b2| ==> !(b1 + b2)[i].name.Unknown?) <==>
      && (forall i :: 0 <= i < |b1| ==> !b1[i].name.Unknown?)
      && (forall i :: 0 <= i < |b2| ==> !b2[i].name.Unknown?)
  {
    var both := b1 + b2;
    if forall i :: 0 <= i < |both| ==> !both[i].name.Unknown? {
      assert forall i :: 0 <= i < |b1| ==> b1[i] == both[i];
      assert forall i :: 0 <= i < |b2| ==> b2[i] == both[|b1| + i];
    }
  }

  // ── Where the laws fail ──

  /** The built-in settings. */
  const BUILT_IN: Store := seq(50, (k: int) requires 0 <= k < 50 => Table(k).fallback)

  lemma OneRow(row: Row, name: Name)
    ensures Last([row], name) == if name == row.name then Some(row.token) else None
    ensures Names([row]) == {row.name}
  {
    assert [row][..0] == [];
  }

  /** One row for key `k` on top of the built-in settings. */
  lemma OneRowApplied(k: Key, t: Token)
    requires Fits(t)
    ensures Typed(BUILT_IN)
    ensures Apply(BUILT_IN, [Row(Known(k), t)]).Applied?
    ensures forall j: Key :: (
      Apply(BUILT_IN, [Row(Known(k), t)]).settings[j] == if j == k then Read(Table(k), t) else Table(j).fallback)
  {
    var block := [Row(Known(k), t)];
    OneRow(block[0], Policy);
    OneRow(block[0], Known(k));
    AppliedIsRead(BUILT_IN, block);
    forall j: Key ensures HasType(Table(j).kind, BUILT_IN[j])
      && Fits(Write(BUILT_IN[j])) && Read(Table(j), Write(BUILT_IN[j])) == BUILT_IN[j]
    {
      Defaults(j);
      SurvivesIff(j, BUILT_IN[j]);
    }
    hide Table;
    hide Read;
    hide Write;
    hide Fits;
  }

  /** A margin of 2.0 prints as `2`, which is a row of the wrong sort: even a block without rows puts
      the margin back to its default. */
  lemma EmptyBlockChangesTheMargin()
    ensures Apply(BUILT_IN, [Row(Known(13), Fraction(2.0))]).Applied?
    ensures var t := Apply(BUILT_IN, [Row(Known(13), Fraction(2.0))]).settings;
      t[13] == Frac(2.0) && Apply(t, []).Applied? && Apply(t, []).settings[13] == Frac(0.05)
  {
    assert Read(Table(13), Fraction(2.0)) == Frac(2.0) && Write(Frac(2.0)) == Whole(2);
    assert Read(Table(13), Whole(2)) == Frac(0.05);
    hide Read;
    hide Table;
    hide Write;
    OneRowApplied(13, Fraction(2.0));
    var t := Apply(BUILT_IN, [Row(Known(13), Fraction(2.0))]).settings;
    AppliedIsRead(t, []);
    forall j: Key ensures Fits(Write(t[j])) {
      Defaults(j);
      SurvivesIff(j, Table(j).fallback);
    }
  }

  /** A clock of -1 is cast to the largest 64-bit number, which prints as no signed number: even a
      block without rows then ends in the parser's panic. */
  lemma EmptyBlockPanics()
    ensures Apply(BUILT_IN, [Row(Known(3), Whole(-1))]).Applied?
    ensures var t := Apply(BUILT_IN, [Row(Known(3), Whole(-1))]).settings;
      t[3] == Num(WIDTH_64 - 1) && Apply(t, []) == Panic
  {
    OneRowApplied(3, Whole(-1));
    var t := Apply(BUILT_IN, [Row(Known(3), Whole(-1))]).settings;
    AppliedIsRead(t, []);
    assert !Fits(Write(t[3]));
  }

  /** A block is refused exactly when a number in it does not fit 64 signed bits, a row names nothing known,
      or its last policy row holds none of the policy words. */
  lemma RefusedIff(base: Store, block: seq<Row>)
    ensures Apply(base, block).Refused? <==>
      || (exists i :: 0 <= i < |block| && block[i].token.Whole?
            && !(-0x8000_0000_0000_0000 <= block[i].token.n < 0x8000_0000_0000_0000))
      || (exists i :: 0 <= i < |block| && block[i].name.Unknown?)
      || (exists i :: 0 <= i < |block| && block[i].name == Policy && (forall j :: i < j < |block| ==> block[j].name != Policy)
            && block[i].token !in {Text("allow"), Text("warn"), Text("irr"), Text("deny")})
  {
    hide Parse;
    hide Render;
    if Policy in Names(block) {
      var i := LastPlace(block, Policy);
      PolicyTokens(block[i].token);
      hide PolicyOf;
      forall m | 0 <= m < |block| && block[m].name == Policy && (forall j :: m < j < |block| ==> block[j].name != Policy)
        ensures m == i
      {
      }
    } else {
      forall i | 0 <= i < |block| ensures block[i].name != Policy {
        assert block[i].name in Names(block);
      }
    }
  }

  lemma PolicyTokens(t: Token)
    ensures PolicyOf(t).Some? <==> t in {Text("allow"), Text("warn"), Text("irr"), Text("deny")}
  {
  }

  /** Where the last row of a key stands. */
  lemma {:induction false} LastPlace(rows: seq<Row>, name: Name) returns (i: nat)
    requires name in Names(rows)
    ensures i < |rows| && rows[i].name == name && (forall j :: i < j < |rows| ==> rows[j].name != name)
    ensures Last(rows, name) == Some(rows[i].token) && LastToken(rows, name) == rows[i].token
  {
    if rows[|rows| - 1].name == name {
      i := |rows| - 1;
    } else {
      i := LastPlace(rows[..|rows| - 1], name);
    }
  }

  /** The words of a policy row: `allow`, `warn` and its other name `irr`, `deny`; any other word refuses the
      block. */
  lemma PolicyWords(base: Store, word: string)
    requires Typed(base)
    ensures var r := Apply(base, [Row(Policy, Text(word))]);
      && (r.Refused? <==> word !in {"allow", "warn", "irr", "deny"})
      && (r.Applied? ==> r.policy == if word == "allow" then Allow else if word == "deny" then Deny else Warn)
  {
    var block := [Row(Policy, Text(word))];
    OneRow(block[0], Policy);
    assert Loads(block);
    hide Parse;
    hide Render;
  }

  /** A block that denies the suppression, then one that says nothing about it: in turn they allow it,
      as one block they deny it. */
  lemma SecondBlockDropsThePolicy()
    ensures var deny := [Row(Policy, Text("deny"))];
      && InTurn(BUILT_IN, deny, []).Applied? && InTurn(BUILT_IN, deny, []).policy == Allow
      && Apply(BUILT_IN, deny + []).Applied? && Apply(BUILT_IN, deny + []).policy == Deny
  {
    var deny := [Row(Policy, Text("deny"))];
    OneRow(deny[0], Policy);
    assert deny + [] == deny && Acceptable(deny) && Acceptable([]) && BlockPolicy(deny) == Deny && BlockPolicy([]) == Allow;
    forall j: Key ensures Fits(Write(BUILT_IN[j])) && Read(Table(j), Write(BUILT_IN[j])) == BUILT_IN[j] {
      Defaults(j);
      SurvivesIff(j, BUILT_IN[j]);
    }
    hide Table;
    hide Write;
    hide Fits;
    hide Read;
    AppliedIsRead(BUILT_IN, deny);
    forall j: Key ensures Apply(BUILT_IN, deny).settings[j] == BUILT_IN[j] {
      assert Source(BUILT_IN, deny, j) == Write(BUILT_IN[j]);
    }
    assert Apply(BUILT_IN, deny).settings == BUILT_IN;
    AppliedIsRead(BUILT_IN, []);
  }

  /** A clock that prints as no signed number is in force: a block without rows panics, so the block
      after it never comes to set the clock right; as one block they are applied. */
  lemma SecondBlockComesTooLate()
    ensures Apply(BUILT_IN, [Row(Known(3), Whole(-1))]).Applied?
    ensures var t := Apply(BUILT_IN, [Row(Known(3), Whole(-1))]).settings;
      InTurn(t, [], [Row(Known(3), Whole(5))]) == Panic && Apply(t, [] + [Row(Known(3), Whole(5))]).Applied?
  {
    EmptyBlockPanics();
    OneRowApplied(3, Whole(-1));
    var t, five := Apply(BUILT_IN, [Row(Known(3), Whole(-1))]).settings, [Row(Known(3), Whole(5))];
    assert [] + five == five;
    OneRow(five[0], Policy);
    OneRow(five[0], Known(3));
    assert Acceptable(five);
    AppliedIsRead(t, five);
    forall j: Key | j != 3 ensures Fits(Write(t[j])) {
      Defaults(j);
      SurvivesIff(j, t[j]);
    }
  }

  /** The lower bound of one is applied before the 32-bit cast: two to the 32 tile rows become none. */
  lemma TileRowsBecomeZero()
    ensures Table(18).name == "spirv_coopmat_tile_rows" && Table(18).kind == AtLeast(1, WIDTH_32)
    ensures Read(Table(18), Whole(0x1_0000_0000)) == Num(0)
  {
  }

  /** Check the block key by key, then let the settings parser read both texts as one. */
  method ApplyModuleConfig(base: Store, block: seq<Row>) returns (r: Outcome)
    ensures r == Apply(base, block)
  {
    if !Loads(block) {
      return Refused;
    }
    var policy := Allow;
    for i := 0 to |block|
      invariant forall j :: 0 <= j < i ==> !block[j].name.Unknown?
      invariant Policy in Names(block[..i]) ==> PolicyOf(LastToken(block, Policy)) == Some(policy)
      invariant Policy !in Names(block[..i]) ==> policy == Allow
    {
      assert Names(block[..i + 1]) == Names(block[..i]) + {block[i].name} by {
        assert forall j :: 0 <= j < i ==> block[..i + 1][j] == block[..i][j];
        assert block[..i + 1][i] == block[i];
      }
      match block[i].name
      case Policy =>
        assert Policy in Names(block);
        match PolicyOf(LastToken(block, Policy)) {
          case Some(p) => policy := p;
          case None => return Refused;
        }
      case Unknown(_) => return Refused;
      case Known(_) =>
    }
    assert block[..|block|] == block;
    LastIsNamed(block, Policy);
    match Parse(Render(base, Names(block), 50) + block)
    case Some(s) => r := Applied(s, policy);
    case None => r := Panic;
  }
}
