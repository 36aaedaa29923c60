/** The single-pass predictor over an item's sparse block, in exact arithmetic. */
module Predictor {

  import opened Sparse

  // ── What the prediction is ──

  /** The item's raters without the query user. */
  function Others(us: seq<nat>, query: nat): (r: seq<nat>)
    ensures forall k :: 0 <= k < |r| ==> r[k] in us && r[k] != query
    ensures forall u :: u in us && u != query ==> u in r
  {
    if us == [] then []
    else if us[|us| - 1] != query then Others(us[..|us| - 1], query) + [us[|us| - 1]]
    else Others(us[..|us| - 1], query)
  }

  /** … in the order of the list, each as often as there. */
  lemma {:induction false} OthersKeepOrder(us: seq<nat>, query: nat)
    requires forall j, k :: 0 <= j < k < |us| ==> us[j] < us[k]
    ensures forall j, k :: 0 <= j < k < |Others(us, query)| ==> Others(us, query)[j] < Others(us, query)[k]
  {
    if us == [] {
    } else {
      var init := us[..|us| - 1];
      OthersKeepOrder(init, query);
      var r := Others(init, query);
      forall k | 0 <= k < |r| ensures r[k] < us[|us| - 1] {
        assert r[k] in init;
      }
    }
  }

  /** The first entry once more, the last once less. */
  function Shifted(us: seq<nat>): seq<nat> {
    if us == [] then [] else [us[0]] + us[..|us| - 1]
  }

  predicate Known(us: seq<nat>, rows: nat) {
    forall k :: 0 <= k < |us| ==> us[k] < rows
  }

  /** A rating's excess over one, weighted. */
  function Term(w: real, x: real): real {
    w * (x - 1.0)
  }

  function Lift(sim: seq<real>, col: Column, us: seq<nat>): real
    requires |sim| == |col| && Known(us, |col|)
  {
    if us == [] then 0.0
    else Lift(sim, col, us[..|us| - 1]) + Term(sim[us[|us| - 1]], col[us[|us| - 1]])
  }

  function Weight(sim: seq<real>, us: seq<nat>): real
    requires Known(us, |sim|)
  {
    if us == [] then 0.0 else Weight(sim, us[..|us| - 1]) + sim[us[|us| - 1]]
  }

  function Clamp(x: real): (r: real)
    ensures 0.0 <= r <= 5.0
    ensures 0.0 <= x <= 5.0 ==> r == x
  {
    if x > 5.0 then 5.0 else if x < 0.0 then 0.0 else x
  }

  /** Clamping gives the rating between 0 and 5 that is nearest. */
  lemma ClampIsNearest(x: real, y: real)
    requires 0.0 <= y <= 5.0
    ensures (if x < Clamp(x) then Clamp(x) - x else x - Clamp(x)) <= if x < y then y - x else x - y
  {
  }

  function Guarded(w: real): (r: real)
    ensures r != 0.0
  {
    if w == 0.0 then 0.00001 else w
  }

  /** The raters the sums run over. */
  function Counted(col: Column, query: nat): (r: seq<nat>)
    ensures Known(r, |col|)
  {
    RatersAreSorted(col, |col|, 0);
    Shifted(Others(Raters(col, |col|), query))
  }

  /** One plus the weighted mean of the ratings' excess over one. */
  function Prediction(sim: seq<real>, col: Column, query: nat): (r: real)
    requires |sim| == |col|
    ensures 0.0 <= r <= 5.0
  {
    var us := Counted(col, query);
    Clamp(1.0 + Lift(sim, col, us) / Guarded(Weight(sim, us)))
  }

  // ── What that means for the ratings ──

  /** `a` is a sum of excesses over one, of total weight `w`, of ratings between `lo` and `hi`. */
  predicate Within(a: real, w: real, lo: real, hi: real) {
    w >= 0.0 && (lo - 1.0) * w <= a <= (hi - 1.0) * w
  }

  lemma OneTerm(w: real, x: real, lo: real, hi: real)
    requires w >= 0.0 && lo <= x <= hi
    ensures Within(Term(w, x), w, lo, hi)
  {
    assert w * (x - lo) >= 0.0 && w * (hi - x) >= 0.0;
  }

  lemma BothWithin(a: real, v: real, b: real, w: real, lo: real, hi: real)
    requires Within(a, v, lo, hi) && Within(b, w, lo, hi)
    ensures Within(a + b, v + w, lo, hi)
  {
    assert (lo - 1.0) * (v + w) == (lo - 1.0) * v + (lo - 1.0) * w;
    assert (hi - 1.0) * (v + w) == (hi - 1.0) * v + (hi - 1.0) * w;
  }

  lemma {:induction false} LiftIsBounded(sim: seq<real>, col: Column, us: seq<nat>, lo: real, hi: real)
    requires |sim| == |col| && Known(us, |col|)
    requires forall k :: 0 <= k < |us| ==> sim[us[k]] >= 0.0 && lo <= col[us[k]] <= hi
    ensures Within(Lift(sim, col, us), Weight(sim, us), lo, hi)
  {
    if us == [] {
    } else {
      var v, most := us[|us| - 1], us[..|us| - 1];
      hide Within;
      hide Term;
      LiftIsBounded(sim, col, most, lo, hi);
      OneTerm(sim[v], col[v], lo, hi);
      BothWithin(Lift(sim, col, most), Weight(sim, most), Term(sim[v], col[v]), sim[v], lo, hi);
    }
  }

  lemma SignOfProduct(d: real, w: real)
    requires w > 0.0 && d < 0.0
    ensures d * w < 0.0
  {
  }

  lemma CancelWeight(x: real, y: real, w: real)
    requires w > 0.0 && x * w <= y * w
    ensures x <= y
  {
    if y < x {
      SignOfProduct(y - x, w);
    }
  }

  lemma MeanIsBounded(a: real, w: real, lo: real, hi: real)
    requires Within(a, w, lo, hi)
    ensures w == 0.0 ==> a == 0.0
    ensures w != 0.0 ==> lo - 1.0 <= a / w <= hi - 1.0
  {
    if w != 0.0 {
      var q := a / w;
      assert q * w == a;
      CancelWeight(lo - 1.0, q, w);
      CancelWeight(q, hi - 1.0, w);
    }
  }

  lemma CountedAreRaters(col: Column, query: nat, k: nat)
    requires k < |Counted(col, query)|
    ensures var v := Counted(col, query)[k]; v < |col| && v != query && col[v] != 0.0
  {
    var rs := Raters(col, |col|);
    RatersAreSorted(col, |col|, 0);
    hide Raters;
    var os := Others(rs, query);
    assert Counted(col, query)[k] == if k == 0 then os[0] else os[k - 1];
    hide Others;
  }

  /** With non-negative similarities the prediction lies between the lowest and the highest rating
      of the other users; when the counted users have no weight at all it is exactly one. */
  lemma PredictionIsBetween(sim: seq<real>, col: Column, query: nat, lo: real, hi: real)
    requires |sim| == |col| && 0.0 <= lo && hi <= 5.0
    requires forall v :: 0 <= v < |col| && v != query && col[v] != 0.0 ==> sim[v] >= 0.0 && lo <= col[v] <= hi
    ensures Weight(sim, Counted(col, query)) == 0.0 ==> Prediction(sim, col, query) == 1.0
    ensures Weight(sim, Counted(col, query)) != 0.0 ==> lo <= Prediction(sim, col, query) <= hi
  {
    var us := Counted(col, query);
    forall k: nat | k < |us| ensures sim[us[k]] >= 0.0 && lo <= col[us[k]] <= hi {
      CountedAreRaters(col, query, k);
    }
    hide Counted;
    hide Lift;
    hide Weight;
    hide Within;
    LiftIsBounded(sim, col, us, lo, hi);
    MeanIsBounded(Lift(sim, col, us), Weight(sim, us), lo, hi);
  }

  // ── The pass ──

  lemma {:induction false} LiftAppend(sim: seq<real>, col: Column, us: seq<nat>, v: nat)
    requires |sim| == |col| && Known(us, |col|) && v < |col|
    ensures Known(us + [v], |col|)
    ensures Lift(sim, col, us + [v]) == Lift(sim, col, us) + Term(sim[v], col[v])
    ensures Weight(sim, us + [v]) == Weight(sim, us) + sim[v]
  {
    hide Term;
    assert (us + [v])[..|us|] == us;
  }

  lemma {:induction false} LiftPrepend(sim: seq<real>, col: Column, us: seq<nat>, v: nat)
    requires |sim| == |col| && Known(us, |col|) && v < |col|
    ensures Known([v] + us, |col|)
    ensures Lift(sim, col, [v] + us) == Term(sim[v], col[v]) + Lift(sim, col, us)
    ensures Weight(sim, [v] + us) == sim[v] + Weight(sim, us)
  {
    hide Term;
    if us == [] {
      LiftAppend(sim, col, [], v);
      assert [v] + us == [] + [v];
    } else {
      var most, last := us[..|us| - 1], us[|us| - 1];
      LiftPrepend(sim, col, most, v);
      LiftAppend(sim, col, [v] + most, last);
      LiftAppend(sim, col, most, last);
      assert most + [last] == us && ([v] + most) + [last] == [v] + us;
    }
  }

  lemma LastBack(us: seq<nat>)
    requires us != []
    ensures us == us[..|us| - 1] + [us[|us| - 1]]
  {
  }

  /** Adding the first entry's terms and taking away the last one's sums over the shifted list. */
  lemma Compensated(sim: seq<real>, col: Column, us: seq<nat>)
    requires |sim| == |col| && Known(us, |col|) && us != []
    ensures Known(Shifted(us), |col|)
    ensures var f, l := us[0], us[|us| - 1];
      && Lift(sim, col, Shifted(us)) == Lift(sim, col, us) + Term(sim[f], col[f]) - Term(sim[l], col[l])
      && Weight(sim, Shifted(us)) == Weight(sim, us) + sim[f] - sim[l]
  {
    hide Lift;
    hide Weight;
    hide Term;
    var most, l := us[..|us| - 1], us[|us| - 1];
    LiftPrepend(sim, col, most, us[0]);
    LiftAppend(sim, col, most, l);
    LastBack(us);
  }

  lemma NothingCounted(sim: seq<real>, col: Column, none: seq<nat>)
    requires |sim| == |col| && none == []
    ensures Lift(sim, col, none) == 0.0 && Weight(sim, none) == 0.0
    ensures Clamp(1.0 + 0.0 / Guarded(0.0)) == 1.0
  {
  }

  /** The prediction in terms of the item's other raters: their sums with the first rater's terms added
      once more and the last one's taken away, a weight of zero replaced, the result clamped. */
  lemma PredictionByCorrections(sim: seq<real>, col: Column, query: nat)
    requires |sim| == |col|
    ensures Known(Raters(col, |col|), |col|) && Known(Others(Raters(col, |col|), query), |col|)
    ensures var us := Others(Raters(col, |col|), query);
      Prediction(sim, col, query) ==
      if us == [] then 1.0
      else
        var f, l := us[0], us[|us| - 1];
        var sa := Lift(sim, col, us) + Term(sim[f], col[f]) - Term(sim[l], col[l]);
        var sb := Weight(sim, us) + sim[f] - sim[l];
        var pred := 1.0 + sa / (if sb == 0.0 then 0.00001 else sb);
        if pred > 5.0 then 5.0 else if pred < 0.0 then 0.0 else pred
  {
    hide Term;
    hide Lift;
    hide Weight;
    hide Raters;
    hide Others;
    RatersAreSorted(col, |col|, 0);
    var us := Others(Raters(col, |col|), query);
    var c := Shifted(us);
    if us == [] {
      NothingCounted(sim, col, c);
    } else {
      Compensated(sim, col, us);
    }
    hide Shifted;
    assert Counted(col, query) == c;
    hide Counted;
  }

  /** The accumulators after a stretch of the block whose other users are `us`. */
  ghost predicate Accumulated(sim: seq<real>, col: Column, us: seq<nat>, sa: real, sb: real,
                              firstV: int, firstR: real, lastV: int, lastR: real) {
    && |sim| == |col| && Known(us, |col|)
    && sa == Lift(sim, col, us) && sb == Weight(sim, us)
    && (us == [] ==> firstV == lastV == -1)
    && firstV >= -1 && lastV >= -1
    && (us != [] ==> firstV == us[0] && lastV == us[|us| - 1] && firstR == col[us[0]] && lastR == col[us[|us| - 1]])
  }

  /** One more user: the sums take their terms, the first is kept, the last is replaced. */
  lemma AccumulateOne(sim: seq<real>, col: Column, us: seq<nat>, sa: real, sb: real,
                      firstV: int, firstR: real, lastV: int, lastR: real, vv: nat)
    requires Accumulated(sim, col, us, sa, sb, firstV, firstR, lastV, lastR) && vv < |col|
    ensures Accumulated(sim, col, us + [vv], sa + Term(sim[vv], col[vv]), sb + sim[vv],
                        if firstV < 0 then vv else firstV, if firstV < 0 then col[vv] else firstR, vv, col[vv])
  {
    hide Lift;
    hide Weight;
    hide Term;
    LiftAppend(sim, col, us, vv);
    assert us != [] ==> (us + [vv])[0] == us[0];
  }

  lemma BlockBounds(col: Column, from: nat, to: nat, nu: seq<nat>, nr: seq<real>)
    requires BlockOf(col, from, to, nu, nr)
    ensures from <= to <= |nu| && nu[from..to] == Raters(col, |col|)
  {
    hide Raters;
  }

  lemma EntryOf(col: Column, from: nat, to: nat, nu: seq<nat>, nr: seq<real>, k: nat, query: nat)
    requires BlockOf(col, from, to, nu, nr) && from <= k < to
    ensures k < |nu| == |nr| && nu[k] < |col| && nr[k] == col[nu[k]]
    ensures Others(nu[from..k + 1], query)
      == if nu[k] != query then Others(nu[from..k], query) + [nu[k]] else Others(nu[from..k], query)
  {
    RatersAreSorted(col, |col|, 0);
    assert nu[from..to][k - from] == nu[k] && nr[from..to][k - from] == nr[k];
    hide Raters;
    assert nu[from..k + 1][..k - from] == nu[from..k];
  }

  /** Predict one item from its block in a single pass. */
  method PredictItem(st: array<nat>, nu: array<nat>, nr: array<real>, sim: array<real>, it: nat, query: nat, ghost col: Column)
    returns (pred: real)
    requires it + 1 < st.Length && sim.Length == |col|
    requires BlockOf(col, st[it], st[it + 1], nu[..], nr[..])
    ensures pred == Prediction(sim[..], col, query)
  {
    hide Raters;
    hide Lift;
    hide Weight;
    hide Others;
    hide Term;
    hide BlockOf;
    hide Known;
    var lo, hi := st[it], st[it + 1];
    var sa, sb := 0.0, 0.0;
    var firstV, lastV := -1, -1;
    var firstR, lastR := 0.0, 0.0;
    ghost var us: seq<nat> := [];
    BlockBounds(col, lo, hi, nu[..], nr[..]);
    NothingYet(sim[..], col, nu[lo..lo], query);
    hide Accumulated;
    var k := lo;
    while k < hi
      invariant lo <= k <= hi <= nu.Length
      invariant us == Others(nu[lo..k], query)
      invariant Accumulated(sim[..], col, us, sa, sb, firstV, firstR, lastV, lastR)
    {
      EntryOf(col, lo, hi, nu[..], nr[..], k, query);
      assert nu[..][lo..k] == nu[lo..k] && nu[..][lo..k + 1] == nu[lo..k + 1];
      var vv := nu[k];
      if vv != query {
        var rv := nr[k];
        var w := sim[vv];
        AccumulateOne(sim[..], col, us, sa, sb, firstV, firstR, lastV, lastR, vv);
        sa := sa + Term(w, rv);
        sb := sb + w;
        if firstV < 0 {
          firstV, firstR := vv, rv;
        }
        lastV, lastR := vv, rv;
        us := us + [vv];
      }
      k := k + 1;
    }
    assert us == Others(Raters(col, |col|), query) by {
      assert nu[lo..hi] == nu[..][lo..hi];
    }
    Corrected(sim[..], col, us, sa, sb, firstV, firstR, lastV, lastR);
    if firstV >= 0 {
      var wf := sim[firstV];
      sa := sa + Term(wf, firstR);
      sb := sb + wf;
    }
    if lastV >= 0 {
      var wl := sim[lastV];
      sa := sa - Term(wl, lastR);
      sb := sb - wl;
    }
    assert Counted(col, query) == Shifted(us);
    var denom := sb;
    if denom == 0.0 {
      denom := 0.00001;
    }
    pred := 1.0 + sa / denom;
    if pred > 5.0 {
      pred := 5.0;
    }
    if pred < 0.0 {
      pred := 0.0;
    }
  }

  lemma NothingYet(sim: seq<real>, col: Column, none: seq<nat>, query: nat)
    requires |sim| == |col| && none == []
    ensures Others(none, query) == []
    ensures Accumulated(sim, col, [], 0.0, 0.0, -1, 0.0, -1, 0.0)
  {
  }

  /** The two corrections after the loop, in terms of the list of users seen. */
  lemma Corrected(sim: seq<real>, col: Column, us: seq<nat>, sa: real, sb: real,
                  firstV: int, firstR: real, lastV: int, lastR: real)
    requires Accumulated(sim, col, us, sa, sb, firstV, firstR, lastV, lastR)
    ensures us == [] ==> firstV < 0 && lastV < 0
    ensures us != [] ==> 0 <= firstV < |sim| && 0 <= lastV < |sim|
    ensures Known(Shifted(us), |col|)
    ensures Lift(sim, col, Shifted(us))
      == if us == [] then sa else sa + Term(sim[firstV], firstR) - Term(sim[lastV], lastR)
    ensures Weight(sim, Shifted(us)) == if us == [] then sb else sb + sim[firstV] - sim[lastV]
  {
    if us != [] {
      Compensated(sim, col, us);
    }
  }
}
