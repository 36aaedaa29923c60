/** The single-producer single-consumer ring: the push half and the pop half of the loop as two
    programs of atomic steps, in every interleaving, and the loop as written. */
module SpscRing {

  const CAP: nat := 1024

  /** `(x + 1) & (CAP - 1)`. */
  function Next(x: nat): nat { (x + 1) % CAP }

  lemma MaskIsRemainder(x: bv64)
    ensures x & (1024 - 1) == x % 1024
  {
  }

  // ── The two programs ──

  /** Where the producer is, with the indices it has loaded. */
  datatype Producer = LoadHead | LoadTail(h: nat) | Check(h: nat, t: nat) | Publish(next: nat)

  /** Where the consumer is, with what it has loaded. */
  datatype Consumer = LoadTailC | LoadHeadC(t: nat) | CheckC(t: nat, h: nat) | Release(h: nat, v: int)

  /** A value given up: how many had been published, and how many consumed as seen at the load. */
  datatype Refusal = Refusal(value: nat, published: nat, seen: nat)

  /** An attempt to pop that found nothing: how many had been consumed, and how many published as seen
      at the load. */
  datatype Empty = Empty(consumed: nat, seen: nat)

  /** The shared ring, the two programs, the value `i` the producer is at, and the history:
      everything published, everything consumed, how much each side had of the other's when it
      loaded the other's index, and what each side gave up. No step depends on the history. */
  datatype State = State(slots: seq<int>, head: nat, tail: nat, producer: Producer, consumer: Consumer, i: nat, sum: int,
                         pushed: seq<int>, popped: seq<int>, headSeen: nat, tailSeen: nat,
                         refusals: seq<Refusal>, empties: seq<Empty>)

  datatype Side = Push | Pop

  function Init(slots: seq<int>): State {
    State(slots, 0, 0, LoadHead, LoadTailC, 0, 0, [], [], 0, 0, [], [])
  }

  function PushStep(s: State): State
    requires s.producer.Check? ==> s.producer.t < |s.slots|
  {
    match s.producer
    case LoadHead => s.(producer := LoadTail(s.head), headSeen := |s.popped|)
    case LoadTail(h) => s.(producer := Check(h, s.tail))
    case Check(h, t) =>
      if Next(t) != h then s.(slots := s.slots[t := s.i], producer := Publish(Next(t)))
      else s.(producer := LoadHead, i := s.i + 1, refusals := s.refusals + [Refusal(s.i, |s.pushed|, s.headSeen)])
    case Publish(next) => s.(tail := next, pushed := s.pushed + [s.i], producer := LoadHead, i := s.i + 1)
  }

  function PopStep(s: State): State
    requires s.consumer.CheckC? ==> s.consumer.h < |s.slots|
  {
    match s.consumer
    case LoadTailC => s.(consumer := LoadHeadC(s.tail), tailSeen := |s.pushed|)
    case LoadHeadC(t) => s.(consumer := CheckC(t, s.head))
    case CheckC(t, h) =>
      if t != h then s.(consumer := Release(h, s.slots[h]))
      else s.(consumer := LoadTailC, empties := s.empties + [Empty(|s.popped|, s.tailSeen)])
    case Release(h, v) => s.(head := Next(h), popped := s.popped + [v], sum := s.sum + v, consumer := LoadTailC)
  }

  // ── The invariant ──

  ghost predicate ProducerInv(s: State)
    requires |s.slots| == CAP
  {
    var pushes := |s.pushed|;
    match s.producer
    case LoadHead => true
    case LoadTail(h) => h == s.headSeen % CAP && s.headSeen <= |s.popped| && pushes - s.headSeen < CAP
    case Check(h, t) => h == s.headSeen % CAP && s.headSeen <= |s.popped| && pushes - s.headSeen < CAP && t == pushes % CAP
    case Publish(next) => next == (pushes + 1) % CAP && pushes + 1 - |s.popped| < CAP && s.slots[pushes % CAP] == s.i
  }

  ghost predicate ConsumerInv(s: State)
    requires |s.popped| <= |s.pushed|
  {
    var pops := |s.popped|;
    match s.consumer
    case LoadTailC => true
    case LoadHeadC(t) => t == s.tailSeen % CAP && pops <= s.tailSeen <= |s.pushed|
    case CheckC(t, h) => t == s.tailSeen % CAP && pops <= s.tailSeen <= |s.pushed| && h == pops % CAP
    case Release(h, v) => pops < |s.pushed| && h == pops % CAP && v == s.pushed[pops]
  }

  function Total(values: seq<int>): int {
    if values == [] then 0 else Total(values[..|values| - 1]) + values[|values| - 1]
  }

  lemma TotalStep(values: seq<int>, v: int)
    ensures Total(values + [v]) == Total(values) + v
  {
    assert (values + [v])[..|values|] == values;
  }

  /** The unread values sit in their slots. */
  ghost predicate SlotsHold(s: State)
    requires |s.slots| == CAP
  {
    forall j :: |s.popped| <= j < |s.pushed| ==> s.slots[j % CAP] == s.pushed[j]
  }

  /** The value was given up, and the ring was full when the producer loaded the head. */
  predicate RefusedFull(s: State, v: int) {
    exists j :: 0 <= j < |s.refusals| && s.refusals[j].value == v
      && s.refusals[j].published == s.refusals[j].seen + 1023
  }

  /** Every value the producer has been through was published or given up, not both; and nothing was
      popped in vain but from an empty ring. */
  predicate Accounted(s: State) {
    && (forall v :: 0 <= v < s.i ==> v in s.pushed || RefusedFull(s, v))
    && |s.pushed| + |s.refusals| == s.i
    && (forall j :: 0 <= j < |s.empties| ==> s.empties[j].consumed == s.empties[j].seen)
  }

  ghost predicate Inv(s: State) {
    && Accounted(s)
    && |s.slots| == CAP
    && s.head == |s.popped| % CAP && s.tail == |s.pushed| % CAP
    && |s.pushed| - |s.popped| < CAP
    && s.popped <= s.pushed && s.sum == Total(s.popped)
    && SlotsHold(s) && ProducerInv(s) && ConsumerInv(s)
    && (forall j, k :: 0 <= j < k < |s.pushed| ==> s.pushed[j] < s.pushed[k])
    && (forall j :: 0 <= j < |s.pushed| ==> 0 <= s.pushed[j] < s.i)
  }

  lemma SameSlot(x: nat, y: nat)
    requires x % CAP == y % CAP && y <= x < y + CAP
    ensures x == y
  {
  }

  lemma OneLap(x: nat)
    ensures (x + CAP) % CAP == x % CAP
  {
  }

  lemma NextWraps(x: nat)
    ensures Next(x % CAP) == (x + 1) % CAP
  {
  }

  /** The slot the producer is about to fill holds no unread value: nothing is overwritten
      before it is read. */
  lemma SlotIsFree(s: State)
    requires Inv(s) && s.producer.Check? && Next(s.producer.t) != s.producer.h
    ensures |s.pushed| + 1 - |s.popped| < CAP
    ensures forall j :: |s.popped| <= j < |s.pushed| ==> j % CAP != s.producer.t
  {
    var pushes := |s.pushed|;
    NextWraps(pushes);
    OneLap(s.headSeen);
    forall j | |s.popped| <= j < pushes
      ensures j % CAP != s.producer.t
    {
      if j % CAP == s.producer.t {
        SameSlot(pushes, j);
      }
    }
  }

  /** The producer never fills the slot the consumer is about to read. */
  lemma SlotsApart(s: State)
    requires Inv(s) && s.producer.Check? && Next(s.producer.t) != s.producer.h
    requires s.consumer.CheckC? && s.consumer.t != s.consumer.h
    ensures s.producer.t != s.consumer.h
  {
    SlotIsFree(s);
  }

  /** A value is given up only when the ring was full. */
  lemma RefusedWhenFull(s: State)
    requires Inv(s) && s.producer.Check? && Next(s.producer.t) == s.producer.h
    ensures |s.pushed| - s.headSeen == CAP - 1
  {
    NextWraps(|s.pushed|);
    if |s.pushed| + 1 - s.headSeen < CAP {
      SameSlot(|s.pushed| + 1, s.headSeen);
    }
  }

  /** An empty-handed consumer had consumed all it saw published. */
  lemma EmptyWhenDrained(s: State)
    requires Inv(s) && s.consumer.CheckC? && s.consumer.t == s.consumer.h
    ensures s.tailSeen == |s.popped|
  {
    SameSlot(s.tailSeen, |s.popped|);
  }

  lemma PushKeepsAccounts(s: State)
    requires Inv(s)
    ensures Accounted(PushStep(s))
  {
    hide Total;
    hide SlotsHold;
    hide ConsumerInv;
    var s' := PushStep(s);
    if s.producer.Check? && Next(s.producer.t) == s.producer.h {
      RefusedWhenFull(s);
    }
    hide Next;
    forall v | 0 <= v < s'.i ensures v in s'.pushed || RefusedFull(s', v) {
      if v < s.i {
        if v !in s.pushed {
          var j :| 0 <= j < |s.refusals| && s.refusals[j].value == v && s.refusals[j].published == s.refusals[j].seen + 1023;
          assert s'.refusals[j] == s.refusals[j];
        }
      } else if s.producer.Publish? {
        assert s'.pushed[|s.pushed|] == v;
      } else {
        assert s'.refusals[|s.refusals|] == Refusal(v, |s.pushed|, s.headSeen);
      }
    }
  }

  lemma PopKeepsAccounts(s: State)
    requires Inv(s)
    ensures Accounted(PopStep(s))
  {
    hide Total;
    hide SlotsHold;
    if s.consumer.CheckC? && s.consumer.t == s.consumer.h {
      EmptyWhenDrained(s);
    }
    hide ConsumerInv;
    hide ProducerInv;
    var s' := PopStep(s);
    forall v | 0 <= v < s'.i ensures v in s'.pushed || RefusedFull(s', v) {
      assert v in s.pushed || RefusedFull(s, v);
    }
  }

  /** Filling a free slot. */
  lemma FillKeepsInv(s: State)
    requires Inv(s) && s.producer.Check? && Next(s.producer.t) != s.producer.h
    ensures Inv(PushStep(s))
  {
    PushKeepsAccounts(s);
    SlotIsFree(s);
    NextWraps(|s.pushed|);
    hide Total;
    hide Accounted;
    hide Next;
    var s' := PushStep(s);
    assert s'.consumer == s.consumer && ConsumerInv(s');
  }

  /** Publishing what was filled in. */
  lemma PublishKeepsInv(s: State)
    requires Inv(s) && s.producer.Publish?
    ensures Inv(PushStep(s))
  {
    PushKeepsAccounts(s);
    hide Total;
    hide Accounted;
    hide Next;
    var s' := PushStep(s);
    assert s'.pushed[..|s.pushed|] == s.pushed;
  }

  lemma PushKeepsInv(s: State)
    requires Inv(s)
    ensures Inv(PushStep(s))
  {
    if s.producer.Publish? {
      PublishKeepsInv(s);
    } else if s.producer.Check? && Next(s.producer.t) != s.producer.h {
      FillKeepsInv(s);
    } else {
      PushKeepsAccounts(s);
      hide Total;
      hide Accounted;
      hide SlotsHold;
      hide ConsumerInv;
      var s' := PushStep(s);
      assert SlotsHold(s') && ConsumerInv(s') by {
        SameForTheConsumer(s, s');
      }
    }
  }

  lemma SameForTheConsumer(s: State, s': State)
    requires |s.slots| == CAP && |s.popped| <= |s.pushed|
    requires s'.slots == s.slots && s'.pushed == s.pushed && s'.popped == s.popped && s'.consumer == s.consumer && s'.tailSeen == s.tailSeen
    ensures SlotsHold(s') == SlotsHold(s) && ConsumerInv(s') == ConsumerInv(s)
  {
  }

  lemma ReleaseFrees(s: State, h: nat, v: int)
    requires |s.slots| == CAP && |s.popped| < |s.pushed| && SlotsHold(s)
    ensures SlotsHold(s.(head := Next(h), popped := s.popped + [v], sum := s.sum + v, consumer := LoadTailC))
  {
  }

  lemma ReleaseKeepsInv(s: State)
    requires Inv(s) && s.consumer.Release?
    ensures Inv(PopStep(s))
  {
    PopKeepsAccounts(s);
    ReleaseFrees(s, s.consumer.h, s.consumer.v);
    NextWraps(|s.popped|);
    TotalStep(s.popped, s.consumer.v);
    hide Total;
    hide Accounted;
    hide SlotsHold;
    hide Next;
    assert s.popped + [s.consumer.v] == s.pushed[..|s.popped| + 1];
  }

  lemma PopKeepsInv(s: State)
    requires Inv(s)
    ensures Inv(PopStep(s))
  {
    PopKeepsAccounts(s);
    hide Total;
    hide Accounted;
    match s.consumer
    case CheckC(t, h) =>
      if t != h {
        assert |s.popped| < s.tailSeen;
        assert s.slots[|s.popped| % CAP] == s.pushed[|s.popped|];
      }
    case Release(h, v) => ReleaseKeepsInv(s);
    case _ =>
  }

  /** The state after a schedule of the two sides. */
  function Run(s: State, schedule: seq<Side>): State
    requires |s.slots| == CAP && Inv(s)
    decreases |schedule|
  {
    if schedule == [] then s
    else if schedule[0] == Push then PushKeepsInv(s); Run(PushStep(s), schedule[1..])
    else PopKeepsInv(s); Run(PopStep(s), schedule[1..])
  }

  lemma InitInv(slots: seq<int>)
    requires |slots| == CAP
    ensures Inv(Init(slots))
  {
  }

  lemma {:induction false} RunKeepsInv(s: State, schedule: seq<Side>)
    requires Inv(s)
    ensures Inv(Run(s, schedule))
    decreases |schedule|
  {
    if schedule == [] {
    } else {
      if schedule[0] == Push {
        PushKeepsInv(s);
        RunKeepsInv(PushStep(s), schedule[1..]);
      } else {
        PopKeepsInv(s);
        RunKeepsInv(PopStep(s), schedule[1..]);
      }
    }
  }

  /** In every interleaving the consumer gets a prefix of what was published, in order; the ring
      never holds more than CAP - 1 values; and the values are an increasing selection of those
      the producer has been through. */
  lemma FirstInFirstOut(slots: seq<int>, schedule: seq<Side>)
    requires |slots| == CAP
    ensures Inv(Init(slots))
    ensures var s := Run(Init(slots), schedule);
      && s.popped <= s.pushed && |s.pushed| - |s.popped| <= 1023 && s.sum == Total(s.popped)
      && (forall j, k :: 0 <= j < k < |s.pushed| ==> s.pushed[j] < s.pushed[k])
      && (forall j :: 0 <= j < |s.pushed| ==> 0 <= s.pushed[j] < s.i)
  {
    hide Total;
    InitInv(slots);
    RunKeepsInv(Init(slots), schedule);
  }

  /** In every interleaving, when the producer is about to fill a slot there is room for its value and
      the slot holds no unread one: nothing is overwritten before it is read. */
  lemma NothingOverwritten(slots: seq<int>, schedule: seq<Side>)
    requires |slots| == CAP
    ensures Inv(Init(slots))
    ensures var s := Run(Init(slots), schedule);
      s.producer.Check? && Next(s.producer.t) != s.producer.h ==>
      && |s.pushed| + 1 - |s.popped| < CAP
      && forall j :: |s.popped| <= j < |s.pushed| ==> j % CAP != s.producer.t
  {
    InitInv(slots);
    RunKeepsInv(Init(slots), schedule);
    var s := Run(Init(slots), schedule);
    if s.producer.Check? && Next(s.producer.t) != s.producer.h {
      SlotIsFree(s);
    }
  }

  /** In every interleaving the producer never fills the slot the consumer is about to read. */
  lemma NoRace(slots: seq<int>, schedule: seq<Side>)
    requires |slots| == CAP
    ensures Inv(Init(slots))
    ensures var s := Run(Init(slots), schedule);
      s.producer.Check? && Next(s.producer.t) != s.producer.h && s.consumer.CheckC? && s.consumer.t != s.consumer.h
      ==> s.producer.t != s.consumer.h
  {
    InitInv(slots);
    RunKeepsInv(Init(slots), schedule);
    var s := Run(Init(slots), schedule);
    if s.producer.Check? && Next(s.producer.t) != s.producer.h && s.consumer.CheckC? && s.consumer.t != s.consumer.h {
      SlotsApart(s);
    }
  }

  /** In every interleaving a value is given up only when the ring was full as seen at the load. */
  lemma GivenUpOnlyWhenFull(slots: seq<int>, schedule: seq<Side>)
    requires |slots| == CAP
    ensures Inv(Init(slots))
    ensures var s := Run(Init(slots), schedule);
      s.producer.Check? && Next(s.producer.t) == s.producer.h ==> |s.pushed| - s.headSeen == CAP - 1
  {
    InitInv(slots);
    RunKeepsInv(Init(slots), schedule);
    var s := Run(Init(slots), schedule);
    if s.producer.Check? && Next(s.producer.t) == s.producer.h {
      RefusedWhenFull(s);
    }
  }

  /** In every interleaving every value the producer has been through was published, or was given up when
      the ring was full as seen at the load; no value is both or twice. */
  lemma PublishedOrFull(slots: seq<int>, schedule: seq<Side>)
    requires |slots| == CAP
    ensures Inv(Init(slots))
    ensures var s := Run(Init(slots), schedule);
      (forall v :: 0 <= v < s.i ==> v in s.pushed || RefusedFull(s, v)) && |s.pushed| + |s.refusals| == s.i
  {
    InitInv(slots);
    RunKeepsInv(Init(slots), schedule);
  }

  /** In every interleaving the consumer comes back empty-handed only when it has consumed all that it saw
      published at the load. */
  lemma EmptyOnlyWhenDrained(slots: seq<int>, schedule: seq<Side>)
    requires |slots| == CAP
    ensures Inv(Init(slots))
    ensures var s := Run(Init(slots), schedule);
      forall j :: 0 <= j < |s.empties| ==> s.empties[j].consumed == s.empties[j].seen
  {
    InitInv(slots);
    RunKeepsInv(Init(slots), schedule);
  }

  // ── No step is idle ──

  function Steps(schedule: seq<Side>, side: Side): nat {
    if schedule == [] then 0 else (if schedule[0] == side then 1 else 0) + Steps(schedule[1..], side)
  }

  /** The steps a side has made: four for each value it passed on, three for each attempt it gave up, and
      those of the attempt it is in. */
  function PushWork(s: State): nat {
    4 * |s.pushed| + 3 * |s.refusals|
    + match s.producer case LoadHead => 0 case LoadTail(_) => 1 case Check(_, _) => 2 case Publish(_) => 3
  }

  function PopWork(s: State): nat {
    4 * |s.popped| + 3 * |s.empties|
    + match s.consumer case LoadTailC => 0 case LoadHeadC(_) => 1 case CheckC(_, _) => 2 case Release(_, _) => 3
  }

  lemma StepDoesWork(s: State)
    requires Inv(s)
    ensures PushWork(PushStep(s)) == PushWork(s) + 1 && PopWork(PushStep(s)) == PopWork(s)
    ensures PopWork(PopStep(s)) == PopWork(s) + 1 && PushWork(PopStep(s)) == PushWork(s)
  {
    hide Total;
    hide Accounted;
    hide SlotsHold;
  }

  lemma {:induction false} RunDoesWork(s: State, schedule: seq<Side>)
    requires Inv(s)
    ensures var s' := Run(s, schedule);
      PushWork(s') == PushWork(s) + Steps(schedule, Push) && PopWork(s') == PopWork(s) + Steps(schedule, Pop)
    decreases |schedule|
  {
    hide PushWork;
    hide PopWork;
    hide Accounted;
    hide SlotsHold;
    StepDoesWork(s);
    if schedule == [] {
    } else if schedule[0] == Push {
      PushKeepsInv(s);
      hide PushStep;
      RunDoesWork(PushStep(s), schedule[1..]);
    } else {
      PopKeepsInv(s);
      hide PopStep;
      RunDoesWork(PopStep(s), schedule[1..]);
    }
  }

  /** In every interleaving each side's steps are those of the values it passed on and of the attempts it
      gave up: neither side can idle. */
  lemma EveryStepCounts(slots: seq<int>, schedule: seq<Side>)
    requires |slots| == CAP
    ensures Inv(Init(slots))
    ensures var s := Run(Init(slots), schedule);
      && 0 <= Steps(schedule, Push) - 4 * |s.pushed| - 3 * |s.refusals| <= 3
      && 0 <= Steps(schedule, Pop) - 4 * |s.popped| - 3 * |s.empties| <= 3
  {
    InitInv(slots);
    hide Inv;
    RunDoesWork(Init(slots), schedule);
  }

  // ── Pushing and popping in turn ──

  /** One value through the ring. */
  const TURN: seq<Side> := [Push, Push, Push, Push, Pop, Pop, Pop, Pop]

  function Turns(n: nat): seq<Side> {
    if n == 0 then [] else Turns(n - 1) + TURN
  }

  function UpTo(n: nat): (r: seq<int>)
    ensures |r| == n
  {
    seq(n, i => i)
  }

  lemma {:induction false} RunJoins(s: State, a: seq<Side>, b: seq<Side>)
    requires Inv(s)
    ensures Inv(Run(s, a)) && Run(s, a + b) == Run(Run(s, a), b)
    decreases |a|
  {
    RunKeepsInv(s, a);
    if a == [] {
      assert a + b == b;
    } else {
      assert (a + b)[1..] == a[1..] + b;
      if a[0] == Push {
        PushKeepsInv(s);
        RunJoins(PushStep(s), a[1..], b);
      } else {
        PopKeepsInv(s);
        RunJoins(PopStep(s), a[1..], b);
      }
    }
  }

  /** Both sides between two attempts, with nothing in the ring. */
  ghost predicate Resting(s: State) {
    Inv(s) && s.producer == LoadHead && s.consumer == LoadTailC && s.popped == s.pushed
  }

  /** Four pushing steps publish the producer's value. */
  lemma PushTurn(s: State)
    requires Resting(s)
    ensures var s' := Run(s, [Push, Push, Push, Push]);
      && Inv(s') && s'.producer == LoadHead && s'.consumer == LoadTailC
      && s'.pushed == s.pushed + [s.i] && s'.popped == s.popped && s'.i == s.i + 1
  {
    var all: seq<Side> := [Push, Push, Push, Push];
    RunKeepsInv(s, all);
    hide Total;
    hide Accounted;
    hide SlotsHold;
    NextWraps(|s.pushed|);
    PushKeepsInv(s);
    var s1 := PushStep(s);
    PushKeepsInv(s1);
    var s2 := PushStep(s1);
    PushKeepsInv(s2);
    var s3 := PushStep(s2);
    PushKeepsInv(s3);
    hide Inv;
    assert all[1..] == [Push, Push, Push] && all[1..][1..] == [Push, Push] && all[1..][1..][1..] == [Push];
    assert all[1..][1..][1..][1..] == [];
    assert Run(s3, [Push]) == Run(PushStep(s3), []);
    assert Run(s2, [Push, Push]) == Run(s3, [Push]);
    assert Run(s1, [Push, Push, Push]) == Run(s2, [Push, Push]);
  }

  /** What four popping steps do to a ring with one value in it. */
  lemma FourPops(s: State)
    requires Inv(s) && s.producer == LoadHead && s.consumer == LoadTailC && |s.pushed| == |s.popped| + 1
    ensures Inv(PopStep(s)) && Inv(PopStep(PopStep(s))) && Inv(PopStep(PopStep(PopStep(s))))
    ensures var s' := PopStep(PopStep(PopStep(PopStep(s))));
      Resting(s') && s'.pushed == s.pushed && s'.i == s.i
  {
    NextWraps(|s.popped|);
    PopKeepsInv(s);
    var s1 := PopStep(s);
    PopKeepsInv(s1);
    var s2 := PopStep(s1);
    hide Total;
    hide Accounted;
    hide SlotsHold;
    PopKeepsInv(s2);
    var s3 := PopStep(s2);
    PopKeepsInv(s3);
  }

  /** Four popping steps then consume it. */
  lemma PopTurn(s: State)
    requires Inv(s) && s.producer == LoadHead && s.consumer == LoadTailC && |s.pushed| == |s.popped| + 1
    ensures var s' := Run(s, [Pop, Pop, Pop, Pop]);
      Resting(s') && s'.pushed == s.pushed && s'.i == s.i
  {
    var all: seq<Side> := [Pop, Pop, Pop, Pop];
    FourPops(s);
    var s1 := PopStep(s);
    var s2 := PopStep(s1);
    var s3 := PopStep(s2);
    PopKeepsInv(s3);
    assert all[1..] == [Pop, Pop, Pop] && all[1..][1..] == [Pop, Pop] && all[1..][1..][1..] == [Pop];
    assert all[1..][1..][1..][1..] == [];
    hide PopStep;
    hide Resting;
    hide Accounted;
    hide SlotsHold;
    hide Total;
    assert Run(s3, [Pop]) == Run(PopStep(s3), []);
    assert Run(s2, [Pop, Pop]) == Run(s3, [Pop]);
    assert Run(s1, [Pop, Pop, Pop]) == Run(s2, [Pop, Pop]);
  }

  lemma {:induction false} TurnsPassAll(slots: seq<int>, n: nat)
    requires |slots| == CAP
    ensures Inv(Init(slots))
    ensures var s := Run(Init(slots), Turns(n)); Resting(s) && s.popped == UpTo(n) && s.i == n
  {
    InitInv(slots);
    if n == 0 {
    } else {
      TurnsPassAll(slots, n - 1);
      var s := Run(Init(slots), Turns(n - 1));
      var pushes: seq<Side>, pops: seq<Side> := [Push, Push, Push, Push], [Pop, Pop, Pop, Pop];
      assert TURN == pushes + pops;
      RunJoins(Init(slots), Turns(n - 1), TURN);
      RunJoins(s, pushes, pops);
      PushTurn(s);
      PopTurn(Run(s, pushes));
      hide Inv;
      assert UpTo(n) == UpTo(n - 1) + [n - 1];
    }
  }

  lemma {:induction false} TotalUpTo(n: nat)
    ensures 2 * Total(UpTo(n)) == n * (n - 1)
  {
    if n == 0 {
    } else {
      TotalUpTo(n - 1);
      assert UpTo(n)[..n - 1] == UpTo(n - 1);
    }
  }

  /** Pushing and popping in turn, as the benchmark's loop does, passes every value in order, and the sum is
      that of 0 .. n - 1. */
  lemma TakingTurnsPassesAll(slots: seq<int>, n: nat)
    requires |slots| == CAP
    ensures Inv(Init(slots))
    ensures var s := Run(Init(slots), Turns(n)); s.popped == seq(n, i => i) && 2 * s.sum == n * (n - 1)
  {
    TurnsPassAll(slots, n);
    TotalUpTo(n);
    assert UpTo(n) == seq(n, i => i);
  }

  // ── The loop as written ──

  function Triangle(n: nat): nat { if n == 0 then 0 else Triangle(n - 1) + n - 1 }

  lemma {:induction false} TriangleClosed(n: nat)
    ensures 2 * Triangle(n) == n * (n - 1)
  {
    if n == 0 {
    } else {
      TriangleClosed(n - 1);
    }
  }

  /** One thread pushing and popping in turn: every value goes through, so the sum of the
      popped values is that of 0 .. n - 1. */
  method PushPopLoop(n: int) returns (sum: int)
    ensures 2 * sum == if n > 0 then n * (n - 1) else 0
  {
    var slots := new int[CAP];
    var head, tail: nat := 0, 0;
    sum := 0;
    var i: nat := 0;
    while i < n
      invariant n >= 0 ==> i <= n
      invariant n < 0 ==> i == 0
      invariant head == tail < CAP
      invariant sum == Triangle(i)
    {
      var h, t := head, tail;
      var next := Next(t);
      if next != h {
        slots[t] := i;
        tail := next;
        t := tail;
        h := head;
        if t != h {
          var v := slots[h];
          var nhead := Next(h);
          head := nhead;
          sum := sum + v;
        }
      }
      i := i + 1;
    }
    if n > 0 {
      TriangleClosed(n);
    }
  }
}
