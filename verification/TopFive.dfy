/** The recommender's online top five: strictly greater scores move up, ties keep the lower item. */
module TopFive {

  import opened Sparse
  import opened Predictor

  datatype Slot = Slot(item: int, score: real)

  const NOBODY := Slot(-1, -1.0)

  predicate Better(a: Slot, b: Slot) {
    a.score > b.score || (a.score == b.score && a.item < b.item)
  }

  // ── The ranking ──

  /** Behind every slot with at least the newcomer's score. */
  function Place(l: seq<Slot>, score: real): (p: nat)
    ensures p <= |l|
    ensures forall j :: 0 <= j < p ==> l[j].score >= score
    ensures p < |l| ==> l[p].score < score
  {
    if l == [] || l[0].score < score then 0 else 1 + Place(l[1..], score)
  }

  function Insert(l: seq<Slot>, c: Slot): seq<Slot> {
    var p := Place(l, c.score);
    l[..p] + [c] + l[p..]
  }

  /** All candidates, best first. */
  function Ranked(cands: seq<Slot>): (r: seq<Slot>)
    ensures |r| == |cands|
  {
    if cands == [] then [] else Insert(Ranked(cands[..|cands| - 1]), cands[|cands| - 1])
  }

  /** The five best; a slot without a candidate is empty. */
  function Top(cands: seq<Slot>): (t: seq<Slot>)
    ensures |t| == 5
  {
    Padded(Ranked(cands))
  }

  function Padded(l: seq<Slot>): (t: seq<Slot>)
    ensures |t| == 5
    ensures forall k :: 0 <= k < 5 ==> t[k] == if k < |l| then l[k] else NOBODY
  {
    seq(5, (k: int) requires 0 <= k < 5 => if k < |l| then l[k] else NOBODY)
  }

  predicate Sorted(l: seq<Slot>) {
    forall j, k :: 0 <= j < k < |l| ==> Better(l[j], l[k])
  }

  /** Candidates come in item order, with scores of at least zero. */
  predicate InOrder(cands: seq<Slot>) {
    && (forall j, k :: 0 <= j < k < |cands| ==> cands[j].item < cands[k].item)
    && (forall j :: 0 <= j < |cands| ==> 0.0 <= cands[j].score)
  }

  lemma InsertAt(l: seq<Slot>, c: Slot, k: nat)
    requires k <= |l|
    ensures var p := Place(l, c.score);
      Insert(l, c)[k] == if k < p then l[k] else if k == p then c else l[k - 1]
  {
    hide Place;
  }

  lemma InsertKeepsSorted(l: seq<Slot>, c: Slot)
    requires Sorted(l) && forall d :: d in l ==> d.item < c.item
    ensures Sorted(Insert(l, c))
  {
    var p, r := Place(l, c.score), Insert(l, c);
    hide Place;
    forall j: nat, k: nat | j < k < |r| ensures Better(r[j], r[k]) {
      InsertAt(l, c, j);
      InsertAt(l, c, k);
      hide Insert;
      assert j < p ==> l[j] in l;
      assert p < k - 1 ==> Better(l[p], l[k - 1]);
    }
  }

  lemma InsertKeepsAll(l: seq<Slot>, c: Slot)
    ensures multiset(Insert(l, c)) == multiset(l) + multiset{c}
  {
    var p := Place(l, c.score);
    hide Place;
    assert l == l[..p] + l[p..];
  }

  /** The ranking is a permutation of the candidates, ordered by score downwards and then by item
      upwards. */
  lemma {:induction false} RankedIsSorted(cands: seq<Slot>)
    requires InOrder(cands)
    ensures Sorted(Ranked(cands)) && multiset(Ranked(cands)) == multiset(cands)
  {
    if cands == [] {
    } else {
      var front, c := cands[..|cands| - 1], cands[|cands| - 1];
      RankedIsSorted(front);
      assert cands == front + [c];
      forall d | d in Ranked(front) ensures d.item < c.item {
        assert d in multiset(front);
      }
      InsertKeepsSorted(Ranked(front), c);
      InsertKeepsAll(Ranked(front), c);
    }
  }

  /** A candidate is in one of the slots, or all five are better. */
  lemma TopIsBest(cands: seq<Slot>, d: Slot)
    requires InOrder(cands) && d in cands
    ensures d in Top(cands) || forall j :: 0 <= j < 5 ==> Top(cands)[j] in cands && Better(Top(cands)[j], d)
  {
    RankedIsSorted(cands);
    var l := Ranked(cands);
    hide Ranked;
    assert d in multiset(l);
    var k :| 0 <= k < |l| && l[k] == d;
    if k < 5 {
      assert Top(cands)[k] == d;
    } else {
      forall j | 0 <= j < 5 ensures Top(cands)[j] in cands && Better(Top(cands)[j], d) {
        assert l[j] in multiset(cands);
      }
    }
  }

  lemma RankedAt(cands: seq<Slot>, k: nat)
    requires InOrder(cands) && k < |cands|
    ensures Ranked(cands)[k] in cands && Ranked(cands)[k].score >= 0.0
  {
    RankedIsSorted(cands);
    assert Ranked(cands)[k] in multiset(Ranked(cands));
    hide Ranked;
    assert Ranked(cands)[k] in multiset(cands);
  }

  /** The slots never lose order, empty ones included. */
  lemma TopIsOrdered(cands: seq<Slot>, j: nat, k: nat)
    requires InOrder(cands) && j < k < 5
    ensures Top(cands)[j].score >= Top(cands)[k].score
  {
    RankedIsSorted(cands);
    if j < |cands| {
      RankedAt(cands, j);
    }
    hide Ranked;
    assert k < |cands| ==> Better(Ranked(cands)[j], Ranked(cands)[k]);
  }

  // ── One insertion ──

  function Inserted(t: seq<Slot>, c: Slot): seq<Slot>
    requires |t| == 5
  {
    Insert(t, c)[..5]
  }

  lemma PlaceIsUnique(l: seq<Slot>, score: real, p: nat)
    requires p <= |l|
    requires forall j :: 0 <= j < p ==> l[j].score >= score
    requires p < |l| ==> l[p].score < score
    ensures Place(l, score) == p
  {
  }

  lemma PlaceInTop(cands: seq<Slot>, score: real)
    requires score >= 0.0
    ensures var p := Place(Ranked(cands), score); Place(Top(cands), score) == if p < 5 then p else 5
  {
    var l := Ranked(cands);
    var p := Place(l, score);
    hide Ranked;
    hide Place;
    PlaceIsUnique(Top(cands), score, if p < 5 then p else 5);
  }

  /** Inserting into the five slots gives the five best of one more candidate. */
  lemma InsertedIsTop(cands: seq<Slot>, c: Slot)
    requires c.score >= 0.0
    ensures Inserted(Top(cands), c) == Top(cands + [c])
  {
    var l, more := Ranked(cands), cands + [c];
    assert Ranked(more) == Insert(l, c) by {
      assert more[..|cands|] == cands;
    }
    PlaceInTop(cands, c.score);
    hide Ranked;
    hide Place;
    forall k: nat | k < 5 ensures Inserted(Top(cands), c)[k] == Top(more)[k] {
      InsertAt(Top(cands), c, k);
      if k <= |l| {
        InsertAt(l, c, k);
      }
      hide Insert;
    }
  }

  /** How many of the five slots have at least the score. */
  function AtLeast(t: seq<Slot>, score: real): nat
    requires |t| == 5
  {
    if t[0].score < score then 0
    else if t[1].score < score then 1
    else if t[2].score < score then 2
    else if t[3].score < score then 3
    else if t[4].score < score then 4
    else 5
  }

  /** Put the item in the last slot if it beats it, then let it rise past every lower score. */
  method Consider(t: seq<Slot>, item: int, pred: real) returns (r: seq<Slot>)
    requires |t| == 5 && forall j, k :: 0 <= j < k < 5 ==> t[j].score >= t[k].score
    ensures r == Inserted(t, Slot(item, pred))
  {
    var t0, t1, t2, t3, t4 := t[0], t[1], t[2], t[3], t[4];
    if pred > t4.score {
      t4 := Slot(item, pred);
      if t4.score > t3.score {
        t3, t4 := t4, t3;
      }
      if t3.score > t2.score {
        t2, t3 := t3, t2;
      }
      if t2.score > t1.score {
        t1, t2 := t2, t1;
      }
      if t1.score > t0.score {
        t0, t1 := t1, t0;
      }
    }
    r := [t0, t1, t2, t3, t4];
    InsertedSlots(t, Slot(item, pred), AtLeast(t, pred));
  }

  lemma InsertedSlots(t: seq<Slot>, c: Slot, p: nat)
    requires |t| == 5 && p == AtLeast(t, c.score)
    requires forall j, k :: 0 <= j < k < 5 ==> t[j].score >= t[k].score
    ensures Inserted(t, c) ==
      [if p == 0 then c else t[0], At(t, c, p, 1), At(t, c, p, 2), At(t, c, p, 3), At(t, c, p, 4)]
  {
    hide Place;
    PlaceIsUnique(t, c.score, p);
    forall k: nat | k < 5 ensures Inserted(t, c)[k] == if k < p then t[k] else if k == p then c else t[k - 1] {
      InsertAt(t, c, k);
    }
    hide Inserted;
  }

  function At(t: seq<Slot>, c: Slot, p: nat, k: nat): Slot
    requires 0 < k < |t|
  {
    if k < p then t[k] else if k == p then c else t[k - 1]
  }

  // ── The whole recommendation ──

  /** The items the query user has not rated, with their predictions, in item order. */
  function Candidates(c: seq<Column>, sim: seq<real>, query: nat, upTo: nat): (r: seq<Slot>)
    requires upTo <= |c| && forall i :: 0 <= i < |c| ==> |c[i]| == |sim|
    requires query < |sim|
  {
    if upTo == 0 then []
    else
      var before := Candidates(c, sim, query, upTo - 1);
      var col := c[upTo - 1];
      if col[query] != 0.0 then before else before + [Slot(upTo - 1, Prediction(sim, col, query))]
  }

  lemma {:induction false} CandidatesInOrder(c: seq<Column>, sim: seq<real>, query: nat, upTo: nat)
    requires upTo <= |c| && forall i :: 0 <= i < |c| ==> |c[i]| == |sim|
    requires query < |sim|
    ensures InOrder(Candidates(c, sim, query, upTo))
    ensures forall d :: d in Candidates(c, sim, query, upTo) ==> d.item < upTo
  {
    hide Prediction;
    if upTo == 0 {
    } else {
      CandidatesInOrder(c, sim, query, upTo - 1);
    }
  }

  /** The items below `upTo` that the user's row has no rating for. */
  function Unrated(row: seq<real>, upTo: nat): (r: set<nat>)
    requires upTo <= |row|
    ensures forall i :: i in r <==> 0 <= i < upTo && row[i] == 0.0
  {
    set i: nat | i < upTo && row[i] == 0.0
  }

  /** The candidates are exactly the items the query user has not rated, each once and with its own
      prediction. */
  lemma {:induction false} CandidatesAreUnrated(m: seq<seq<real>>, cols: nat, sim: seq<real>, query: nat, upTo: nat)
    requires Shaped(m, cols) && |sim| == |m| && query < |m| && upTo <= cols
    ensures forall i :: 0 <= i < cols ==> |Columns(m, cols)[i]| == |sim|
    ensures var c, cands := Columns(m, cols), Candidates(Columns(m, cols), sim, query, upTo);
      && (forall d :: d in cands ==>
           0 <= d.item < upTo && m[query][d.item] == 0.0 && d.score == Prediction(sim, c[d.item], query))
      && (forall i :: 0 <= i < upTo && m[query][i] == 0.0 ==> Slot(i, Prediction(sim, c[i], query)) in cands)
      && |cands| == |Unrated(m[query], upTo)|
  {
    hide Prediction;
    if upTo == 0 {
    } else {
      CandidatesAreUnrated(m, cols, sim, query, upTo - 1);
      var before := Unrated(m[query], upTo - 1);
      if m[query][upTo - 1] == 0.0 {
        assert Unrated(m[query], upTo) == before + {upTo - 1};
      } else {
        assert Unrated(m[query], upTo) == before;
      }
    }
  }

  /** A slot is empty or holds a candidate. */
  lemma SlotsAreCandidates(cands: seq<Slot>, k: nat)
    requires InOrder(cands) && k < 5
    ensures Top(cands)[k] == NOBODY || Top(cands)[k] in cands
  {
    if k < |cands| {
      RankedAt(cands, k);
    }
    hide Ranked;
  }

  lemma BestFirst(cands: seq<Slot>, j: nat, k: nat)
    requires InOrder(cands) && j < k < 5
    ensures Top(cands)[k] == NOBODY || Better(Top(cands)[j], Top(cands)[k])
  {
    RankedIsSorted(cands);
    hide Ranked;
  }

  /** What the five slots say about the query user's row. */
  lemma TopOfUnrated(m: seq<seq<real>>, cols: nat, sim: seq<real>, query: nat)
    requires Shaped(m, cols) && |sim| == |m| && query < |m|
    ensures forall i :: 0 <= i < cols ==> |Columns(m, cols)[i]| == |sim|
    ensures var c, t := Columns(m, cols), Top(Candidates(Columns(m, cols), sim, query, cols));
      && (forall k :: 0 <= k < 5 ==> t[k] == NOBODY || (0 <= t[k].item < cols && m[query][t[k].item] == 0.0))
      && (forall i :: 0 <= i < cols && m[query][i] == 0.0 ==>
           var d := Slot(i, Prediction(sim, c[i], query)); d in t || forall k :: 0 <= k < 5 ==> Better(t[k], d))
      && (forall j, k :: 0 <= j < k < 5 ==> t[k] == NOBODY || Better(t[j], t[k]))
  {
    hide Prediction;
    var c := Columns(m, cols);
    CandidatesAreUnrated(m, cols, sim, query, cols);
    CandidatesInOrder(c, sim, query, cols);
    var cands := Candidates(c, sim, query, cols);
    hide Candidates;
    hide Top;
    hide InOrder;
    forall k: nat | k < 5 ensures Top(cands)[k] == NOBODY || Top(cands)[k] in cands {
      SlotsAreCandidates(cands, k);
    }
    forall i | 0 <= i < cols && m[query][i] == 0.0
      ensures var d := Slot(i, Prediction(sim, c[i], query)); d in Top(cands) || forall k :: 0 <= k < 5 ==> Better(Top(cands)[k], d)
    {
      TopIsBest(cands, Slot(i, Prediction(sim, c[i], query)));
    }
    forall j: nat, k: nat | j < k < 5 ensures Top(cands)[k] == NOBODY || Better(Top(cands)[j], Top(cands)[k]) {
      BestFirst(cands, j, k);
    }
  }

  lemma NobodyYet()
    ensures Top([]) == [NOBODY, NOBODY, NOBODY, NOBODY, NOBODY]
  {
  }

  /** Build the layout, predict every item the query user has not rated, and keep the best five: no slot
      holds a rated item, every unrated item is in a slot or beaten by all five, and each was predicted. */
  method Recommend(m: seq<seq<real>>, cols: nat, sim: array<real>, query: nat, room: nat)
    returns (t: seq<Slot>, nPreds: nat)
    requires Shaped(m, cols) && sim.Length == |m| && query < |m|
    requires Start(Columns(m, cols), cols) <= room
    ensures t == Top(Candidates(Columns(m, cols), sim[..], query, cols))
    ensures forall k :: 0 <= k < 5 ==> t[k] == Slot(-1, -1.0) || (0 <= t[k].item < cols && m[query][t[k].item] == 0.0)
    ensures forall i :: 0 <= i < cols && m[query][i] == 0.0 ==>
      var d := Slot(i, Prediction(sim[..], Columns(m, cols)[i], query)); d in t || forall k :: 0 <= k < 5 ==> Better(t[k], d)
    ensures forall j, k :: 0 <= j < k < 5 ==> t[k] == NOBODY || Better(t[j], t[k])
    ensures nPreds == |set i: nat | i < cols && m[query][i] == 0.0|
  {
    hide Start;
    hide Raters;
    hide Prediction;
    hide Top;
    hide InOrder;
    hide Inserted;
    hide BlockOf;
    var st, cp, nu, nr := Build(m, cols, room);
    ghost var c := Columns(m, cols);
    ghost var cands: seq<Slot> := [];
    t := [NOBODY, NOBODY, NOBODY, NOBODY, NOBODY];
    NobodyYet();
    nPreds := 0;
    for item := 0 to cols
      invariant IsLayout(c, st[..], nu[..], nr[..])
      invariant cands == Candidates(c, sim[..], query, item)
      invariant t == Top(cands) && nPreds == |cands|
    {
      if m[query][item] != 0.0 {
        continue;
      }
      var pred := PredictItem(st, nu, nr, sim, item, query, c[item]);
      nPreds := nPreds + 1;
      CandidatesInOrder(c, sim[..], query, item);
      CandidatesInOrder(c, sim[..], query, item + 1);
      forall j: nat, k: nat | j < k < 5 ensures t[j].score >= t[k].score {
        TopIsOrdered(cands, j, k);
      }
      InsertedIsTop(cands, Slot(item, pred));
      t := Consider(t, item, pred);
      cands := cands + [Slot(item, pred)];
    }
    CandidatesAreUnrated(m, cols, sim[..], query, cols);
    TopOfUnrated(m, cols, sim[..], query);
  }
}
