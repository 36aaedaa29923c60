/** The open-addressing table: three columns, linear probing, no deletion. */
module HashTable {

  // ── Probing ──

  function Home(key: nat, cap: nat): (h: nat)
    requires cap > 0
    ensures h < cap
  {
    key % cap
  }

  function Along(h: nat, q: nat, cap: nat): (p: nat)
    requires cap > 0
    ensures p < cap
  {
    (h + q) % cap
  }

  /** The `q`-th slot probed for a key. */
  function Slot(key: nat, q: nat, cap: nat): (p: nat)
    requires cap > 0
    ensures p < cap
  {
    Along(Home(key, cap), q, cap)
  }

  /** How many probes precede slot `p`. */
  function Distance(key: nat, p: nat, cap: nat): (q: nat)
    requires p < cap
    ensures q < cap
  {
    if key % cap <= p then p - key % cap else p + cap - key % cap
  }

  /** The first `cap` probes visit every slot once. */
  lemma ProbeVisits(key: nat, p: nat, cap: nat)
    requires p < cap
    ensures Slot(key, Distance(key, p, cap), cap) == p
    ensures forall q :: 0 <= q < cap && Slot(key, q, cap) == p ==> q == Distance(key, p, cap)
  {
    forall q | 0 <= q < cap
      ensures Slot(key, q, cap) == if key % cap + q < cap then key % cap + q else key % cap + q - cap
    {
      SlotValue(key, q, cap);
    }
  }

  lemma SlotValue(key: nat, q: nat, cap: nat)
    requires q < cap
    ensures Slot(key, q, cap) == if key % cap + q < cap then key % cap + q else key % cap + q - cap
  {
    SlotFrom(key % cap, q, cap);
  }

  lemma SlotFrom(home: nat, q: nat, cap: nat)
    requires home < cap && q < cap
    ensures (home + q) % cap == if home + q < cap then home + q else home + q - cap
  {
    if home + q < cap {
      NoLap(home + q, cap);
    } else {
      OneLap(home + q, cap);
    }
  }

  lemma OnceAtLeast(d: nat, k: int)
    requires k >= 1
    ensures d * k >= d
  {
    assert d * k == d + d * (k - 1);
  }

  lemma NoLap(x: nat, d: nat)
    requires x < d
    ensures x % d == x
  {
    var k := x / d;
    assert x == d * k + x % d && d * 0 == 0;
    if k >= 1 {
      OnceAtLeast(d, k);
    }
  }

  lemma TwiceAtLeast(d: nat, k: int)
    requires k >= 2
    ensures d * k >= 2 * d
  {
    assert d * k == d * 2 + d * (k - 2);
  }

  lemma OneLap(x: nat, d: nat)
    requires d <= x < 2 * d
    ensures x % d == x - d
  {
    var k := x / d;
    assert x == d * k + x % d && d * 0 == 0 && d * 1 == d;
    if k >= 2 {
      TwiceAtLeast(d, k);
    }
  }

  // ── The columns ──

  /** A snapshot of the three columns. */
  datatype Columns = Columns(keys: seq<nat>, vals: seq<int>, occupied: seq<bool>)
  {
    predicate Shaped() { |keys| == |vals| == |occupied| > 0 }

    function Cap(): nat { |keys| }

    /** No key sits in two slots. */
    ghost predicate Distinct()
      requires Shaped()
    {
      forall p, r :: 0 <= p < Cap() && 0 <= r < Cap() && occupied[p] && occupied[r] && keys[p] == keys[r] ==> p == r
    }

    /** No free slot lies between a key's home and its place. */
    ghost predicate NoGaps()
      requires Shaped()
    {
      forall p, q :: 0 <= p < Cap() && occupied[p] && 0 <= q < Distance(keys[p], p, Cap()) ==>
        occupied[Slot(keys[p], q, Cap())]
    }

    ghost predicate Valid() { Shaped() && Distinct() && NoGaps() }

    ghost predicate Holds(key: nat, p: int)
      requires Shaped()
    {
      0 <= p < Cap() && occupied[p] && keys[p] == key
    }

    /** The keys in the first `upTo` slots. */
    ghost function KeySet(upTo: nat): (r: set<nat>)
      requires Shaped() && upTo <= Cap()
      ensures forall key :: key in r <==> exists p :: p < upTo && Holds(key, p)
    {
      if upTo == 0 then {}
      else if !occupied[upTo - 1] then KeySet(upTo - 1)
      else
        assert Holds(keys[upTo - 1], upTo - 1);
        KeySet(upTo - 1) + {keys[upTo - 1]}
    }

    /** The map the table stands for. */
    ghost function Contents(): map<nat, int>
      requires Shaped()
    {
      map key | key in KeySet(Cap()) :: ValueOf(key)
    }

    ghost function ValueOf(key: nat): int
      requires Shaped() && key in KeySet(Cap())
    {
      var p :| Holds(key, p);
      vals[p]
    }
  }

  lemma ContentsAt(c: Columns, key: nat, p: int)
    requires c.Valid() && c.Holds(key, p)
    ensures key in c.Contents() && c.Contents()[key] == c.vals[p]
  {
    assert p < c.Cap();
    assert key in c.KeySet(c.Cap());
    var r :| c.Holds(key, r) && c.Contents()[key] == c.vals[r];
  }

  lemma KeyPlace(c: Columns, key: nat)
    requires c.Valid() && key in c.Contents()
    ensures exists p :: c.Holds(key, p)
  {
  }

  lemma NothingStored(c: Columns)
    requires c.Shaped() && forall p :: 0 <= p < c.Cap() ==> !c.occupied[p]
    ensures c.Valid() && c.Contents() == map[]
  {
    assert c.KeySet(c.Cap()) == {};
  }

  // ── The probe loops stop ──

  /** Slot number `q` of the probe sequence ends the insert loop: free, or already the key's. */
  ghost predicate Stops(c: Columns, key: nat, q: nat)
    requires c.Shaped()
  {
    var p := Slot(key, q, c.Cap());
    !c.occupied[p] || c.keys[p] == key
  }

  ghost predicate NoneStops(c: Columns, key: nat, n: nat)
    requires c.Shaped()
  {
    forall r :: 0 <= r < n ==> !Stops(c, key, r)
  }

  /** One more probe, at slot `p`. */
  lemma Probe(c: Columns, key: nat, q: nat, p: nat)
    requires c.Shaped() && p == Along(Home(key, c.Cap()), q, c.Cap())
    ensures p < c.Cap() && p == Slot(key, q, c.Cap())
    ensures Stops(c, key, q) <==> !c.occupied[p] || c.keys[p] == key
    ensures NoneStops(c, key, q) && !Stops(c, key, q) ==> NoneStops(c, key, q + 1)
  {
  }

  lemma KeyIsNew(c: Columns, p: nat)
    requires c.Shaped() && c.Distinct() && p < c.Cap() && c.occupied[p]
    ensures c.keys[p] !in c.KeySet(p)
  {
    assert forall r :: c.Holds(c.keys[p], r) ==> r == p;
    hide Columns.Distinct;
  }

  /** Full columns with distinct keys hold as many keys as slots. */
  lemma {:induction false} FullCount(c: Columns, upTo: nat)
    requires c.Shaped() && c.Distinct() && upTo <= c.Cap()
    requires forall p :: 0 <= p < c.Cap() ==> c.occupied[p]
    ensures |c.KeySet(upTo)| == upTo
  {
    if upTo == 0 {
    } else {
      FullCount(c, upTo - 1);
      var key := c.keys[upTo - 1];
      assert c.KeySet(upTo) == c.KeySet(upTo - 1) + {key};
      KeyIsNew(c, upTo - 1);
    }
  }

  lemma FreeSlot(c: Columns)
    requires c.Valid() && |c.Contents()| < c.Cap()
    ensures exists p :: 0 <= p < c.Cap() && !c.occupied[p]
  {
    assert |c.Contents().Keys| < c.Cap() && c.Contents().Keys == c.KeySet(c.Cap());
    if forall p :: 0 <= p < c.Cap() ==> c.occupied[p] {
      FullCount(c, c.Cap());
      assert false;
    }
  }

  /** A table that holds the key, or is not full of other keys, stops the insert loop in time. */
  lemma InsertStops(c: Columns, key: nat) returns (q: nat)
    requires c.Valid() && (key in c.Contents() || |c.Contents()| < c.Cap())
    ensures q < c.Cap() && Stops(c, key, q)
  {
    if key in c.Contents() {
      KeyPlace(c, key);
      var p :| c.Holds(key, p);
      ProbeVisits(key, p, c.Cap());
      q := Distance(key, p, c.Cap());
    } else {
      FreeSlot(c);
      var p :| 0 <= p < c.Cap() && !c.occupied[p];
      ProbeVisits(key, p, c.Cap());
      q := Distance(key, p, c.Cap());
    }
  }

  /** The first stop of an insert for a present key is that key's slot. */
  lemma FirstStopIsTheKey(c: Columns, key: nat, q: nat)
    requires c.Valid() && key in c.Contents() && q < c.Cap() && Stops(c, key, q)
    requires forall r :: 0 <= r < q ==> !Stops(c, key, r)
    ensures c.Holds(key, Slot(key, q, c.Cap()))
  {
    KeyPlace(c, key);
    var p :| c.Holds(key, p);
    ProbeVisits(key, p, c.Cap());
    var d := Distance(key, p, c.Cap());
    assert Stops(c, key, d);
    assert q < d ==> c.occupied[Slot(c.keys[p], q, c.Cap())];
  }

  /** Storing at the first stop keeps the table well-formed and updates the map at the key alone. */
  lemma StoreAtFirstStop(c: Columns, key: nat, val: int, q: nat)
    requires c.Valid() && q < c.Cap() && Stops(c, key, q) && NoneStops(c, key, q)
    ensures var p := Slot(key, q, c.Cap());
      var c' := Columns(c.keys[p := key], c.vals[p := val], c.occupied[p := true]);
      c'.Valid() && c'.Contents() == c.Contents()[key := val]
  {
    var cap := c.Cap();
    var p := Slot(key, q, cap);
    var c' := Columns(c.keys[p := key], c.vals[p := val], c.occupied[p := true]);
    if key in c.Contents() {
      FirstStopIsTheKey(c, key, q);
    } else {
      forall r | 0 <= r < cap && c.occupied[r] ensures c.keys[r] != key {
        if c.keys[r] == key {
          ContentsAt(c, key, r);
        }
      }
    }
    assert c'.Distinct();
    ProbeVisits(key, p, cap);
    assert c'.NoGaps() by {
      forall r, d | 0 <= r < cap && c'.occupied[r] && 0 <= d < Distance(c'.keys[r], r, cap)
        ensures c'.occupied[Slot(c'.keys[r], d, cap)]
      {
        if r == p {
          assert !Stops(c, key, d);
        } else {
          assert c.occupied[Slot(c.keys[r], d, cap)];
        }
      }
    }
    StoredContents(c, c', key, val, p);
  }

  /** Two tables that hold the same keys with the same values stand for the same map. */
  lemma SameElsewhere(c: Columns, d: Columns, key: nat, k: nat)
    requires c.Valid() && d.Valid() && k != key && k in c.Contents()
    requires forall r :: c.Holds(k, r) ==> d.Holds(k, r) && d.vals[r] == c.vals[r]
    ensures k in d.Contents() && d.Contents()[k] == c.Contents()[k]
  {
    KeyPlace(c, k);
    var r :| c.Holds(k, r);
    ContentsAt(c, k, r);
    ContentsAt(d, k, r);
  }

  /** The slots of every other key are untouched. */
  lemma OtherSlots(c: Columns, c': Columns, key: nat, val: int, p: nat, k: nat)
    requires c.Shaped() && p < c.Cap() && k != key
    requires c' == Columns(c.keys[p := key], c.vals[p := val], c.occupied[p := true])
    requires c.occupied[p] ==> c.keys[p] == key
    ensures c'.Shaped()
    ensures forall r :: c.Holds(k, r) <==> c'.Holds(k, r)
    ensures forall r :: c.Holds(k, r) ==> c'.vals[r] == c.vals[r]
  {
  }

  lemma OtherKey(c: Columns, c': Columns, key: nat, val: int, p: nat, k: nat)
    requires c.Valid() && c'.Valid() && p < c.Cap() && k != key
    requires c' == Columns(c.keys[p := key], c.vals[p := val], c.occupied[p := true])
    requires c.occupied[p] ==> c.keys[p] == key
    ensures k in c.Contents() <==> k in c'.Contents()
    ensures k in c.Contents() ==> c'.Contents()[k] == c.Contents()[k]
  {
    OtherSlots(c, c', key, val, p, k);
    hide Columns.Contents;
    hide Columns.Holds;
    if k in c.Contents() {
      SameElsewhere(c, c', key, k);
    }
    if k in c'.Contents() {
      SameElsewhere(c', c, key, k);
    }
  }

  lemma StoredContents(c: Columns, c': Columns, key: nat, val: int, p: nat)
    requires c.Valid() && c'.Valid() && p < c.Cap()
    requires c' == Columns(c.keys[p := key], c.vals[p := val], c.occupied[p := true])
    requires c.occupied[p] ==> c.keys[p] == key
    ensures c'.Contents() == c.Contents()[key := val]
  {
    ContentsAt(c', key, p);
    assert c'.vals[p] == val;
    hide Columns.Contents;
    forall k: nat | k != key
      ensures k in c.Contents() <==> k in c'.Contents()
      ensures k in c.Contents() ==> c'.Contents()[k] == c.Contents()[k]
    {
      OtherKey(c, c', key, val, p, k);
    }
  }

  /** A probe that goes on has not reached the known stop. */
  lemma StopIsAhead(c: Columns, key: nat, q: nat, stop: nat)
    requires c.Shaped() && 1 <= q <= stop + 1 && Stops(c, key, stop)
    requires !Stops(c, key, q - 1) && NoneStops(c, key, q - 1)
    ensures q <= stop && NoneStops(c, key, q)
  {
  }

  // ── The table ──

  class Table {
    const cap: nat
    const keys: array<nat>
    const vals: array<int>
    const occupied: array<bool>

    ghost function View(): Columns
      reads keys, vals, occupied
    {
      Columns(keys[..], vals[..], occupied[..])
    }

    ghost predicate Valid()
      reads keys, vals, occupied
    {
      keys.Length == vals.Length == occupied.Length == cap && View().Valid()
    }

    ghost function Contents(): map<nat, int>
      reads keys, vals, occupied
      requires Valid()
    {
      View().Contents()
    }

    constructor (capacity: nat)
      requires capacity > 0
      ensures Valid() && cap == capacity && Contents() == map[]
      ensures fresh(keys) && fresh(vals) && fresh(occupied)
    {
      cap := capacity;
      keys := new nat[capacity](_ => 0);
      vals := new int[capacity](_ => 0);
      occupied := new bool[capacity](_ => false);
      new;
      NothingStored(View());
    }

    /** Probe for a free or matching slot; `q` counts the probes that went on. */
    method FindSlot(key: nat) returns (p: nat, q: nat)
      requires Valid() && (key in Contents() || |Contents()| < cap)
      ensures q < cap && p == Slot(key, q, cap)
      ensures Stops(View(), key, q) && NoneStops(View(), key, q)
    {
      ghost var c := View();
      ghost var stop := InsertStops(c, key);
      assert c.Shaped() && c.Cap() == cap;
      hide Columns.Valid;
      hide Columns.Contents;
      hide Home;
      hide Along;
      var h := Home(key, cap);
      var n := 0;
      p := Along(h, n, cap);
      assert NoneStops(c, key, 0);
      Probe(c, key, n, p);
      n := n + 1;
      hide Slot;
      hide Stops;
      hide NoneStops;
      while occupied[p] && keys[p] != key
        invariant 1 <= n <= stop + 1 && p < cap && p == Slot(key, n - 1, cap)
        invariant Stops(c, key, n - 1) <==> !c.occupied[p] || c.keys[p] == key
        invariant NoneStops(c, key, n - 1)
        decreases stop + 1 - n
      {
        StopIsAhead(c, key, n, stop);
        p := Along(h, n, cap);
        Probe(c, key, n, p);
        n := n + 1;
      }
      q := n - 1;
    }

    /** Probe for a free or matching slot and store. */
    method Insert(key: nat, val: int)
      requires Valid() && (key in Contents() || |Contents()| < cap)
      modifies keys, vals, occupied
      ensures Valid() && Contents() == old(Contents())[key := val]
    {
      ghost var c := View();
      assert c.Shaped();
      var p, q := FindSlot(key);
      hide *;
      StoreAtFirstStop(c, key, val, q);
      Store(p, key, val);
    }

    method Store(p: nat, key: nat, val: int)
      requires keys.Length == vals.Length == occupied.Length == cap && p < cap
      modifies keys, vals, occupied
      ensures View() == Columns(old(View()).keys[p := key], old(View()).vals[p := val], old(View()).occupied[p := true])
    {
      keys[p], vals[p], occupied[p] := key, val, true;
    }

    /** Probe for the matching slot and read. */
    method Get(key: nat) returns (val: int)
      requires Valid() && key in Contents()
      ensures val == Contents()[key]
    {
      ghost var c := View();
      KeyPlace(c, key);
      ghost var place :| c.Holds(key, place);
      ProbeVisits(key, place, cap);
      ghost var stop := Distance(key, place, cap);
      var h := Home(key, cap);
      var q := 0;
      var p := Along(h, q, cap);
      q := q + 1;
      while !(occupied[p] && keys[p] == key)
        invariant 1 <= q <= stop + 1 && p == Slot(key, q - 1, cap)
        decreases stop + 1 - q
      {
        p := Along(h, q, cap);
        q := q + 1;
      }
      ContentsAt(c, key, p);
      val := vals[p];
    }
  }

  lemma UpdateSize(m: map<nat, int>, key: nat, val: int)
    ensures |m[key := val]| <= |m| + 1
  {
    assert m[key := val].Keys == m.Keys + {key};
  }

  lemma NextSum(i: nat)
    ensures i * (i - 1) + i * 2 == (i + 1) * (i + 1 - 1)
  {
  }

  /** The benchmark: insert (i, 2i), read it back, add it up, for every i below `n`. */
  method InsertAndReadBack(n: int) returns (sum: int)
    ensures sum == if n > 0 then n * (n - 1) else 0
  {
    hide *;
    sum := 0;
    if n <= 0 {
      return;
    }
    var table := new Table(2 * n);
    for i := 0 to n
      invariant table.Valid() && table.cap == 2 * n
      invariant fresh(table.keys) && fresh(table.vals) && fresh(table.occupied)
      invariant |table.Contents()| <= i
      invariant sum == i * (i - 1)
    {
      UpdateSize(table.Contents(), i, i * 2);
      table.Insert(i, i * 2);
      var v := table.Get(i);
      sum := sum + v;
      NextSum(i);
    }
  }
}
