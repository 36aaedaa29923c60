/** The recommender's column-sparse layout, built in three passes: count, prefix, fill. */
module Sparse {

  type Column = seq<real>

  /** The rating matrix, one row a user. */
  predicate Shaped(m: seq<seq<real>>, cols: nat) {
    forall u :: 0 <= u < |m| ==> |m[u]| == cols
  }

  /** The same matrix, one column an item. */
  function Columns(m: seq<seq<real>>, cols: nat): (r: seq<Column>)
    requires Shaped(m, cols)
    ensures |r| == cols
    ensures forall i :: 0 <= i < cols ==> |r[i]| == |m|
    ensures forall i, u :: 0 <= i < cols && 0 <= u < |m| ==> r[i][u] == m[u][i]
  {
    seq(cols, (i: int) requires 0 <= i < cols => seq(|m|, (u: int) requires 0 <= u < |m| => m[u][i]))
  }

  // ── What the layout should hold ──

  /** The users below `upTo` with a rating in the column, in increasing order. */
  function Raters(col: Column, upTo: nat): (r: seq<nat>)
    requires upTo <= |col|
    ensures |r| <= upTo
  {
    if upTo == 0 then []
    else if col[upTo - 1] != 0.0 then Raters(col, upTo - 1) + [upTo - 1]
    else Raters(col, upTo - 1)
  }

  lemma {:induction false} RatersAreSorted(col: Column, upTo: nat, u: nat)
    requires upTo <= |col|
    ensures forall k :: 0 <= k < |Raters(col, upTo)| ==>
      Raters(col, upTo)[k] < upTo && col[Raters(col, upTo)[k]] != 0.0
    ensures forall j, k :: 0 <= j < k < |Raters(col, upTo)| ==> Raters(col, upTo)[j] < Raters(col, upTo)[k]
    ensures u in Raters(col, upTo) <==> u < upTo && col[u] != 0.0
  {
    if upTo == 0 {
    } else {
      RatersAreSorted(col, upTo - 1, u);
    }
  }

  lemma {:induction false} RatersGrow(col: Column, upTo: nat, all: nat)
    requires upTo <= all <= |col|
    ensures Raters(col, upTo) <= Raters(col, all)
    decreases all
  {
    if upTo == all {
    } else {
      RatersGrow(col, upTo, all - 1);
    }
  }

  /** A user's place among the raters. */
  lemma RaterPlace(col: Column, u: nat)
    requires u < |col| && col[u] != 0.0
    ensures |Raters(col, u + 1)| == |Raters(col, u)| + 1 <= |Raters(col, |col|)|
    ensures Raters(col, |col|)[|Raters(col, u)|] == u
  {
    RatersGrow(col, u + 1, |col|);
    assert Raters(col, u + 1) == Raters(col, u) + [u];
  }

  function Ratings(col: Column): (r: seq<real>)
    ensures |r| == |Raters(col, |col|)|
  {
    RatersAreSorted(col, |col|, 0);
    seq(|Raters(col, |col|)|, (k: int) requires 0 <= k < |Raters(col, |col|)| => col[Raters(col, |col|)[k]])
  }

  /** Where an item's block starts: the number of ratings of the items before it. */
  function Start(c: seq<Column>, item: nat): nat
    requires item <= |c|
  {
    if item == 0 then 0 else Start(c, item - 1) + |Raters(c[item - 1], |c[item - 1]|)|
  }

  /** Blocks come one after the other and never overlap. */
  lemma {:induction false} BlocksAreApart(c: seq<Column>, i: nat, j: nat)
    requires i < j <= |c|
    ensures Start(c, i) + |Raters(c[i], |c[i]|)| <= Start(c, j)
    decreases j
  {
    hide Raters;
    if i == j - 1 {
    } else {
      BlocksAreApart(c, i, j - 1);
    }
  }

  // ── Count and prefix ──

  lemma CountStep(col: Column, u: nat)
    requires u < |col|
    ensures |Raters(col, u + 1)| == |Raters(col, u)| + (if col[u] != 0.0 then 1 else 0)
  {
  }

  /** Count the ratings of every item. */
  method Count(m: seq<seq<real>>, cols: nat, st: array<nat>)
    requires Shaped(m, cols) && st.Length == cols + 1
    modifies st
    ensures forall it :: 0 <= it < cols ==> st[it] == |Raters(Columns(m, cols)[it], |m|)|
  {
    ghost var c := Columns(m, cols);
    for c0 := 0 to cols
      invariant forall it :: 0 <= it < c0 ==> st[it] == |Raters(c[it], 0)|
    {
      st[c0] := 0;
    }
    hide Raters;
    for u := 0 to |m|
      invariant forall it :: 0 <= it < cols ==> st[it] == |Raters(c[it], u)|
    {
      for i := 0 to cols
        invariant forall it :: 0 <= it < i ==> st[it] == |Raters(c[it], u + 1)|
        invariant forall it :: i <= it < cols ==> st[it] == |Raters(c[it], u)|
      {
        CountStep(c[i], u);
        if m[u][i] != 0.0 {
          st[i] := st[i] + 1;
        }
      }
    }
  }

  /** Running totals: what the prefix pass makes of the counts. */
  function Total(counts: seq<nat>, i: nat): nat
    requires i <= |counts|
  {
    if i == 0 then 0 else Total(counts, i - 1) + counts[i - 1]
  }

  lemma TotalStep(counts: seq<nat>, i: nat)
    requires i < |counts|
    ensures Total(counts, i + 1) == Total(counts, i) + counts[i]
  {
  }

  /** Replace every count by the total of the counts before it, and set the fill cursors to them. */
  method Prefix(cols: nat, st: array<nat>, cp: array<nat>)
    requires st.Length == cols + 1 && cp.Length == cols && st != cp
    modifies st, cp
    ensures forall it :: 0 <= it <= cols ==> st[it] == Total(old(st[..cols]), it)
    ensures forall it :: 0 <= it < cols ==> cp[it] == Total(old(st[..cols]), it)
  {
    ghost var counts := st[..cols];
    ghost var totals := seq(cols + 1, (i: int) requires 0 <= i <= cols => Total(counts, i));
    var acc := 0;
    assert totals[0] == 0;
    hide Total;
    for i := 0 to cols
      invariant acc == totals[i]
      invariant forall it :: 0 <= it < i ==> st[it] == totals[it]
      invariant forall it :: 0 <= it < i ==> cp[it] == totals[it]
      invariant forall it :: i <= it < cols ==> st[it] == counts[it]
    {
      TotalStep(counts, i);
      var n := st[i];
      st[i] := acc;
      cp[i] := acc;
      acc := acc + n;
    }
    st[cols] := acc;
  }

  /** The totals of the counts are the block starts. */
  lemma {:induction false} TotalsAreStarts(c: seq<Column>, counts: seq<nat>, it: nat)
    requires |counts| == |c| && it <= |c|
    requires forall i :: 0 <= i < |c| ==> counts[i] == |Raters(c[i], |c[i]|)|
    ensures Total(counts, it) == Start(c, it)
  {
    hide Raters;
    if it == 0 {
    } else {
      TotalsAreStarts(c, counts, it - 1);
    }
  }

  // ── Fill ──

  /** The cursor of `item` has passed the first `upTo` users, and the block holds their ratings. */
  ghost predicate Filled(c: seq<Column>, item: nat, upTo: nat, cp: seq<nat>, nu: seq<nat>, nr: seq<real>)
    requires item < |c| == |cp| && upTo <= |c[item]|
  {
    var col, at := c[item], Start(c, item);
    && cp[item] == at + |Raters(col, upTo)| <= |nu| == |nr|
    && forall k :: 0 <= k < |Raters(col, upTo)| ==> HoldsAt(col, Raters(col, upTo)[k], at + k, nu, nr)
  }

  ghost predicate HoldsAt(col: Column, u: nat, pos: nat, nu: seq<nat>, nr: seq<real>) {
    u < |col| && pos < |nu| == |nr| && nu[pos] == u && nr[pos] == col[u]
  }

  /** The fill has passed rows below `u`, and in row `u` the items below `i`. */
  ghost predicate Reached(c: seq<Column>, rows: nat, u: nat, i: nat, cp: seq<nat>, nu: seq<nat>, nr: seq<real>) {
    && |c| == |cp| && (u < rows || (u == rows && i == 0))
    && forall it :: 0 <= it < |c| ==> |c[it]| == rows && UpToDate(c, it, u, i, cp, nu, nr)
  }

  ghost predicate UpToDate(c: seq<Column>, it: nat, u: nat, i: nat, cp: seq<nat>, nu: seq<nat>, nr: seq<real>)
    requires it < |c| == |cp| && Passed(it, u, i) <= |c[it]|
  {
    Filled(c, it, Passed(it, u, i), cp, nu, nr)
  }

  function Passed(it: nat, u: nat, i: nat): nat {
    if it < i then u + 1 else u
  }

  /** A new rating goes to its own block's end; the block grows by it. */
  lemma FillOwn(c: seq<Column>, i: nat, u: nat, cp: seq<nat>, nu: seq<nat>, nr: seq<real>)
    requires i < |c| == |cp| && u < |c[i]| && c[i][u] != 0.0
    requires Filled(c, i, u, cp, nu, nr) && cp[i] < |nu|
    ensures Filled(c, i, u + 1, cp[i := cp[i] + 1], nu[cp[i] := u], nr[cp[i] := c[i][u]])
  {
    hide Start;
    CountStep(c[i], u);
    assert Raters(c[i], u + 1) == Raters(c[i], u) + [u];
  }

  /** … and every other block stays as it was. */
  lemma FillOther(c: seq<Column>, i: nat, u: nat, it: nat, n: nat, cp: seq<nat>, nu: seq<nat>, nr: seq<real>)
    requires i < |c| == |cp| && u < |c[i]| && c[i][u] != 0.0 && it < |c| && it != i && n <= |c[it]|
    requires Filled(c, i, u, cp, nu, nr) && cp[i] < |nu|
    requires Filled(c, it, n, cp, nu, nr)
    ensures Filled(c, it, n, cp[i := cp[i] + 1], nu[cp[i] := u], nr[cp[i] := c[i][u]])
  {
    hide Start;
    RaterPlace(c[i], u);
    RatersGrow(c[it], n, |c[it]|);
    if it < i {
      BlocksAreApart(c, it, i);
    } else {
      BlocksAreApart(c, i, it);
    }
    hide Raters;
  }

  lemma FillOne(c: seq<Column>, rows: nat, i: nat, u: nat, it: nat, cp: seq<nat>, nu: seq<nat>, nr: seq<real>)
    requires i < |c| == |cp| && u < rows == |c[i]| && c[i][u] != 0.0
    requires it < |c| && |c[it]| == rows
    requires UpToDate(c, i, u, i, cp, nu, nr) && cp[i] < |nu| == |nr|
    requires UpToDate(c, it, u, i, cp, nu, nr)
    ensures UpToDate(c, it, u, i + 1, cp[i := cp[i] + 1], nu[cp[i] := u], nr[cp[i] := c[i][u]])
  {
    hide Filled;
    hide Raters;
    hide Start;
    if it == i {
      FillOwn(c, i, u, cp, nu, nr);
    } else {
      FillOther(c, i, u, it, Passed(it, u, i), cp, nu, nr);
    }
  }

  lemma CursorFits(c: seq<Column>, i: nat, u: nat, cp: seq<nat>, nu: seq<nat>, nr: seq<real>)
    requires i < |c| == |cp| && u < |c[i]| && c[i][u] != 0.0
    requires Filled(c, i, u, cp, nu, nr) && Start(c, |c|) <= |nu|
    ensures cp[i] < |nu| == |nr|
  {
    hide Start;
    RaterPlace(c[i], u);
    BlocksAreApart(c, i, |c|);
    hide Raters;
  }

  /** A rating goes to its item's cursor, and the cursor moves on. */
  lemma FillStep(c: seq<Column>, rows: nat, i: nat, u: nat, cp: seq<nat>, nu: seq<nat>, nr: seq<real>)
    requires i < |c| && u < rows && Reached(c, rows, u, i, cp, nu, nr) && Start(c, |c|) <= |nu|
    requires c[i][u] != 0.0
    ensures cp[i] < |nu| == |nr|
    ensures Reached(c, rows, u, i + 1, cp[i := cp[i] + 1], nu[cp[i] := u], nr[cp[i] := c[i][u]])
  {
    hide Raters;
    hide Start;
    hide Filled;
    assert UpToDate(c, i, u, i, cp, nu, nr);
    assert Passed(i, u, i) == u;
    CursorFits(c, i, u, cp, nu, nr);
    var next, cp1, nu1, nr1 := i + 1, cp[i := cp[i] + 1], nu[cp[i] := u], nr[cp[i] := c[i][u]];
    forall it: nat | it < |c| ensures UpToDate(c, it, u, next, cp1, nu1, nr1) {
      FillOne(c, rows, i, u, it, cp, nu, nr);
    }
  }

  /** An absent rating writes nothing, and the item's list of raters stays the same. */
  lemma SkipStep(c: seq<Column>, rows: nat, i: nat, u: nat, cp: seq<nat>, nu: seq<nat>, nr: seq<real>)
    requires i < |c| && u < rows && Reached(c, rows, u, i, cp, nu, nr)
    requires c[i][u] == 0.0
    ensures Reached(c, rows, u, i + 1, cp, nu, nr)
  {
    hide Start;
    var next := i + 1;
    forall it: nat | it < |c| ensures UpToDate(c, it, u, next, cp, nu, nr) {
      assert UpToDate(c, it, u, i, cp, nu, nr);
    }
  }

  lemma NextRow(c: seq<Column>, rows: nat, u: nat, cp: seq<nat>, nu: seq<nat>, nr: seq<real>)
    requires u < rows && Reached(c, rows, u, |c|, cp, nu, nr)
    ensures Reached(c, rows, u + 1, 0, cp, nu, nr)
  {
    hide Filled;
    var next := u + 1;
    forall it: nat | it < |c| ensures UpToDate(c, it, next, 0, cp, nu, nr) {
      assert UpToDate(c, it, u, |c|, cp, nu, nr);
    }
  }

  lemma FillStart(c: seq<Column>, rows: nat, cp: seq<nat>, nu: seq<nat>, nr: seq<real>)
    requires |c| == |cp| && |nu| == |nr| && Start(c, |c|) <= |nu|
    requires forall it :: 0 <= it < |c| ==> |c[it]| == rows
    requires forall it :: 0 <= it < |c| ==> cp[it] == Start(c, it)
    ensures Reached(c, rows, 0, 0, cp, nu, nr)
  {
    forall it | 0 <= it < |c| ensures UpToDate(c, it, 0, 0, cp, nu, nr) {
      BlocksAreApart(c, it, |c|);
      hide Start;
    }
  }

  /** Walk the matrix row by row and append every rating to its item's block. */
  method Fill(m: seq<seq<real>>, cols: nat, cp: array<nat>, nu: array<nat>, nr: array<real>)
    requires Shaped(m, cols) && cp.Length == cols && cp != nu
    requires nu.Length == nr.Length && Start(Columns(m, cols), cols) <= nu.Length
    requires forall it :: 0 <= it < cols ==> cp[it] == Start(Columns(m, cols), it)
    modifies cp, nu, nr
    ensures Reached(Columns(m, cols), |m|, |m|, 0, cp[..], nu[..], nr[..])
  {
    hide Raters;
    hide Start;
    ghost var c := Columns(m, cols);
    FillStart(c, |m|, cp[..], nu[..], nr[..]);
    hide Reached;
    for u := 0 to |m|
      invariant Reached(c, |m|, u, 0, cp[..], nu[..], nr[..])
    {
      for i := 0 to cols
        invariant Reached(c, |m|, u, i, cp[..], nu[..], nr[..])
      {
        ghost var cp0, nu0, nr0 := cp[..], nu[..], nr[..];
        var rv := m[u][i];
        if rv != 0.0 {
          FillStep(c, |m|, i, u, cp0, nu0, nr0);
          var pos := cp[i];
          nu[pos] := u;
          nr[pos] := rv;
          cp[i] := pos + 1;
          assert nu[..] == nu0[pos := u];
          assert nr[..] == nr0[pos := rv];
          assert cp[..] == cp0[i := pos + 1];
        } else {
          SkipStep(c, |m|, i, u, cp0, nu0, nr0);
        }
      }
      NextRow(c, |m|, u, cp[..], nu[..], nr[..]);
    }
  }

  // ── The layout ──

  /** The slice between two neighbouring starts lists exactly the item's raters, in increasing
      order, with their ratings. */
  ghost predicate BlockOf(col: Column, from: nat, to: nat, nu: seq<nat>, nr: seq<real>) {
    && from <= to <= |nu| == |nr|
    && nu[from..to] == Raters(col, |col|)
    && nr[from..to] == Ratings(col)
  }

  /** Every item has its block, and the blocks cut `0..st[cols]` into consecutive pieces. */
  ghost predicate IsLayout(c: seq<Column>, st: seq<nat>, nu: seq<nat>, nr: seq<real>) {
    && |st| == |c| + 1 && st[0] == 0
    && forall it :: 0 <= it < |c| ==> BlockOf(c[it], st[it], st[it + 1], nu, nr)
  }

  /** What a filled layout holds, in terms of the matrix alone. */
  lemma LayoutMeaning(c: seq<Column>, st: seq<nat>, nu: seq<nat>, nr: seq<real>, it: nat, u: nat)
    requires IsLayout(c, st, nu, nr) && it < |c|
    ensures forall k :: st[it] <= k < st[it + 1] ==>
      nu[k] < |c[it]| && nr[k] == c[it][nu[k]] && nr[k] != 0.0
    ensures forall j, k :: st[it] <= j < k < st[it + 1] ==> nu[j] < nu[k]
    ensures u < |c[it]| && c[it][u] != 0.0 <==> u in nu[st[it]..st[it + 1]]
  {
    var col := c[it];
    RatersAreSorted(col, |col|, u);
    assert BlockOf(col, st[it], st[it + 1], nu, nr);
    forall k | st[it] <= k < st[it + 1]
      ensures nu[k] == Raters(col, |col|)[k - st[it]] && nr[k] == Ratings(col)[k - st[it]]
    {
      assert nu[k] == nu[st[it]..st[it + 1]][k - st[it]];
      assert nr[k] == nr[st[it]..st[it + 1]][k - st[it]];
    }
    hide Raters;
  }

  lemma FilledIsBlock(c: seq<Column>, it: nat, cp: seq<nat>, nu: seq<nat>, nr: seq<real>)
    requires it < |c| == |cp| && Filled(c, it, |c[it]|, cp, nu, nr)
    ensures cp[it] == Start(c, it + 1)
    ensures BlockOf(c[it], Start(c, it), Start(c, it + 1), nu, nr)
  {
    hide Raters;
    var at, all := Start(c, it), Raters(c[it], |c[it]|);
    assert Start(c, it + 1) == at + |all|;
    hide Start;
    forall k | 0 <= k < |all| ensures nu[at + k] == all[k] && nr[at + k] == Ratings(c[it])[k] {
      assert HoldsAt(c[it], all[k], at + k, nu, nr);
    }
    assert nu[at..at + |all|] == all;
    assert nr[at..at + |all|] == Ratings(c[it]);
  }

  lemma FilledIsLayout(c: seq<Column>, rows: nat, st: seq<nat>, cp: seq<nat>, nu: seq<nat>, nr: seq<real>)
    requires Reached(c, rows, rows, 0, cp, nu, nr) && |st| == |c| + 1
    requires forall it :: 0 <= it <= |c| ==> st[it] == Start(c, it)
    ensures IsLayout(c, st, nu, nr)
    ensures forall it :: 0 <= it < |c| ==> cp[it] == st[it + 1]
  {
    assert Start(c, 0) == 0;
    hide Start;
    hide Raters;
    forall it | 0 <= it < |c|
      ensures BlockOf(c[it], st[it], st[it + 1], nu, nr) && cp[it] == st[it + 1]
    {
      assert UpToDate(c, it, rows, 0, cp, nu, nr);
      hide Filled;
      hide BlockOf;
      FilledIsBlock(c, it, cp, nu, nr);
    }
  }

  /** Count, prefix, fill. `room` is the size of the two block arrays. */
  method Build(m: seq<seq<real>>, cols: nat, room: nat)
    returns (st: array<nat>, cp: array<nat>, nu: array<nat>, nr: array<real>)
    requires Shaped(m, cols) && Start(Columns(m, cols), cols) <= room
    ensures fresh(st) && fresh(cp) && fresh(nu) && fresh(nr)
    ensures IsLayout(Columns(m, cols), st[..], nu[..], nr[..])
    ensures cp.Length == cols && forall it :: 0 <= it < cols ==> cp[it] == st[it + 1]
  {
    hide Raters;
    hide Start;
    hide Reached;
    hide IsLayout;
    st := new nat[cols + 1](_ => 0);
    cp := new nat[cols](_ => 0);
    nu := new nat[room](_ => 0);
    nr := new real[room](_ => 0.0);
    Count(m, cols, st);
    ghost var c, counts := Columns(m, cols), st[..cols];
    Prefix(cols, st, cp);
    forall it: nat | it <= cols ensures Total(counts, it) == Start(c, it) {
      TotalsAreStarts(c, counts, it);
    }
    Fill(m, cols, cp, nu, nr);
    assert forall it :: 0 <= it <= cols ==> st[..][it] == Start(c, it);
    FilledIsLayout(c, |m|, st[..], cp[..], nu[..], nr[..]);
  }
}
