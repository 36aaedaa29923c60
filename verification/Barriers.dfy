/** Two worker threads and main, kept in step by two reusable three-party barriers.
    Each thread is a program of atomic steps; a run is any schedule of enabled steps. */
module Barriers {
  import opened Options

  const PARTIES: nat := 3

  /** A POSIX barrier: how many threads wait for the current generation to complete. */
  datatype Barrier = Barrier(waiting: nat, generation: nat)

  /** Where a thread is. `generation` is the one a waiting thread saw on arrival. */
  datatype Pc =
    | TestA
    | TestB
    | AtEnter
    | InEnter(generation: nat)
    | Adding
    | AtExit
    | InExit(generation: nat)
    | Done

  datatype Thread = Main | WorkerA | WorkerB

  datatype State = State(limit: int, a: int, b: int, enter: Barrier, exit: Barrier, main: Pc, wa: Pc, wb: Pc)

  function Init(limit: int): State {
    State(limit, 0, 0, Barrier(0, 0), Barrier(0, 0), TestA, AtEnter, AtEnter)
  }

  // ── Steps ──

  function PcOf(s: State, t: Thread): Pc {
    match t case Main => s.main case WorkerA => s.wa case WorkerB => s.wb
  }

  function Goto(s: State, t: Thread, pc: Pc): State {
    match t case Main => s.(main := pc) case WorkerA => s.(wa := pc) case WorkerB => s.(wb := pc)
  }

  /** Arrive at a barrier: the last party completes the generation and goes on. */
  function Arrive(b: Barrier): (r: (Barrier, bool)) {
    if b.waiting + 1 == PARTIES then (Barrier(0, b.generation + 1), true)
    else (Barrier(b.waiting + 1, b.generation), false)
  }

  /** Where a thread goes from the enter barrier. */
  function AfterEnter(t: Thread): Pc { if t == Main then AtExit else Adding }

  /** Where a thread goes from the exit barrier. */
  function AfterExit(t: Thread): Pc { if t == Main then TestA else AtEnter }

  /** One atomic step of thread `t`; None when it is blocked or has ended. */
  function Step(s: State, t: Thread): Option<State> {
    match PcOf(s, t)
    case TestA => Some(Goto(s, t, if s.a < s.limit then AtEnter else TestB))
    case TestB => Some(Goto(s, t, if s.b < s.limit then AtEnter else Done))
    case AtEnter =>
      var (bar, last) := Arrive(s.enter);
      Some(Goto(s.(enter := bar), t, if last then AfterEnter(t) else InEnter(s.enter.generation)))
    case InEnter(g) => if s.enter.generation != g then Some(Goto(s, t, AfterEnter(t))) else None
    case Adding => Some(Goto(if t == WorkerA then s.(a := s.a + 1) else s.(b := s.b + 1), t, AtExit))
    case AtExit =>
      var (bar, last) := Arrive(s.exit);
      Some(Goto(s.(exit := bar), t, if last then AfterExit(t) else InExit(s.exit.generation)))
    case InExit(g) => if s.exit.generation != g then Some(Goto(s, t, AfterExit(t))) else None
    case Done => None
  }

  /** The state after a schedule; None when it schedules a thread that cannot move. */
  function Run(s: State, schedule: seq<Thread>): Option<State>
    decreases |schedule|
  {
    if schedule == [] then Some(s)
    else
      match Step(s, schedule[0])
      case None => None
      case Some(s') => Run(s', schedule[1..])
  }

  // ── The invariant ──

  /** Rounds main will run. */
  function Rounds(limit: int): nat { if limit > 0 then limit else 0 }

  /** A worker's place and its counter, relative to the generations of the two barriers. */
  predicate WorkerInv(pc: Pc, count: int, ge: nat, gx: nat) {
    match pc
    case AtEnter => ge == gx && count == gx
    case InEnter(g) => g <= ge <= g + 1 && gx == g && count == g
    case Adding => ge == gx + 1 && count == gx
    case AtExit => ge == gx + 1 && count == gx + 1
    case InExit(g) => g <= gx <= g + 1 && ge == g + 1 && count == g + 1
    case _ => false
  }

  predicate MainInv(pc: Pc, limit: int, ge: nat, gx: nat) {
    match pc
    case TestA => ge == gx <= Rounds(limit)
    case TestB => ge == gx == Rounds(limit)
    case AtEnter => ge == gx && gx < limit
    case InEnter(g) => g <= ge <= g + 1 && gx == g && g < limit
    case AtExit => ge == gx + 1 && gx < limit
    case InExit(g) => g <= gx <= g + 1 && ge == g + 1 && g < limit
    case Done => ge == gx == Rounds(limit)
    case Adding => false
  }

  function CountIn(pc: Pc, waitsFor: Pc): nat { if pc == waitsFor then 1 else 0 }

  /** The barriers count exactly the threads waiting in their current generation. */
  predicate BarrierInv(s: State) {
    && s.enter.waiting == CountIn(s.main, InEnter(s.enter.generation)) + CountIn(s.wa, InEnter(s.enter.generation))
                          + CountIn(s.wb, InEnter(s.enter.generation))
    && s.exit.waiting == CountIn(s.main, InExit(s.exit.generation)) + CountIn(s.wa, InExit(s.exit.generation))
                         + CountIn(s.wb, InExit(s.exit.generation))
    && s.enter.waiting < PARTIES && s.exit.waiting < PARTIES
  }

  predicate Inv(s: State) {
    && MainInv(s.main, s.limit, s.enter.generation, s.exit.generation)
    && WorkerInv(s.wa, s.a, s.enter.generation, s.exit.generation)
    && WorkerInv(s.wb, s.b, s.enter.generation, s.exit.generation)
    && BarrierInv(s)
  }

  lemma StepKeepsInv(s: State, t: Thread)
    requires Inv(s) && Step(s, t).Some?
    ensures Inv(Step(s, t).value) && Step(s, t).value.limit == s.limit
  {
    hide Inv;
    hide Step;
    match PcOf(s, t)
    case AtEnter => ArriveEnterKeeps(s, t);
    case AtExit => ArriveExitKeeps(s, t);
    case InEnter(_) => WakeKeeps(s, t);
    case InExit(_) => WakeKeeps(s, t);
    case _ => LocalStepKeeps(s, t);
  }

  lemma WakeKeeps(s: State, t: Thread)
    requires Inv(s) && Step(s, t).Some? && (PcOf(s, t).InEnter? || PcOf(s, t).InExit?)
    ensures Inv(Step(s, t).value) && Step(s, t).value.limit == s.limit
  {
    hide Arrive;
    match t
    case Main =>
    case WorkerA =>
    case WorkerB =>
  }

  lemma LocalStepKeeps(s: State, t: Thread)
    requires Inv(s) && Step(s, t).Some?
    requires PcOf(s, t).TestA? || PcOf(s, t).TestB? || PcOf(s, t).Adding? || PcOf(s, t).Done?
    ensures Inv(Step(s, t).value) && Step(s, t).value.limit == s.limit
  {
    hide Arrive;
    match t
    case Main =>
    case WorkerA =>
    case WorkerB =>
  }

  lemma ArriveEnterKeeps(s: State, t: Thread)
    requires Inv(s) && PcOf(s, t) == AtEnter
    ensures Inv(Step(s, t).value) && Step(s, t).value.limit == s.limit
  {
    var g := s.enter.generation;
    if s.enter.waiting == 2 {
      match t
      case Main => assert s.wa == InEnter(g) && s.wb == InEnter(g);
      case WorkerA => assert s.main == InEnter(g) && s.wb == InEnter(g);
      case WorkerB => assert s.main == InEnter(g) && s.wa == InEnter(g);
    }
  }

  lemma ArriveExitKeeps(s: State, t: Thread)
    requires Inv(s) && PcOf(s, t) == AtExit
    ensures Inv(Step(s, t).value) && Step(s, t).value.limit == s.limit
  {
    var g := s.exit.generation;
    if s.exit.waiting == 2 {
      match t
      case Main => assert s.wa == InExit(g) && s.wb == InExit(g);
      case WorkerA => assert s.main == InExit(g) && s.wb == InExit(g);
      case WorkerB => assert s.main == InExit(g) && s.wa == InExit(g);
    }
  }

  lemma {:induction false} RunKeepsInv(s: State, schedule: seq<Thread>)
    requires Inv(s) && Run(s, schedule).Some?
    ensures Inv(Run(s, schedule).value) && Run(s, schedule).value.limit == s.limit
    decreases |schedule|
  {
    if schedule == [] {
    } else {
      StepKeepsInv(s, schedule[0]);
      RunKeepsInv(Step(s, schedule[0]).value, schedule[1..]);
    }
  }

  // ── What every run satisfies ──

  /** In every interleaving, whenever main evaluates its loop test both counters equal the
      number of completed rounds. */
  lemma CountersAtTheTest(limit: int, schedule: seq<Thread>)
    requires Run(Init(limit), schedule).Some?
    ensures var s := Run(Init(limit), schedule).value;
      s.main == TestA || s.main == TestB ==> s.a == s.b == s.exit.generation == s.enter.generation
  {
    RunKeepsInv(Init(limit), schedule);
  }

  /** Main's exit finds both counters at max(limit, 0), and they stay there. */
  lemma CountersAtTheEnd(limit: int, schedule: seq<Thread>)
    requires Run(Init(limit), schedule).Some?
    ensures var s := Run(Init(limit), schedule).value;
      s.main == Done ==> s.a == s.b == Rounds(limit)
  {
    RunKeepsInv(Init(limit), schedule);
  }

  /** No reachable state before main's exit is a deadlock. */
  lemma NeverStuck(limit: int, schedule: seq<Thread>)
    requires Run(Init(limit), schedule).Some?
    ensures var s := Run(Init(limit), schedule).value;
      s.main != Done ==> Step(s, Main).Some? || Step(s, WorkerA).Some? || Step(s, WorkerB).Some?
  {
    RunKeepsInv(Init(limit), schedule);
    var s := Run(Init(limit), schedule).value;
    if s.main != Done && Step(s, Main).None? && Step(s, WorkerA).None? {
      assert s.main == InEnter(s.enter.generation) || s.main == InExit(s.exit.generation);
      assert s.wa == InEnter(s.enter.generation) || s.wa == InExit(s.exit.generation);
    }
  }

  // ── Every run ends ──

  /** How far a thread has come: eight places to a round. */
  function Progress(pc: Pc, gx: nat): nat {
    match pc
    case TestA => 8 * gx
    case TestB => 8 * gx + 1
    case AtEnter => 8 * gx + 2
    case InEnter(g) => 8 * g + 3
    case Adding => 8 * gx + 4
    case AtExit => 8 * gx + 5
    case InExit(g) => 8 * g + 6
    case Done => 8 * gx + 7
  }

  function TotalProgress(s: State): nat {
    Progress(s.main, s.exit.generation) + Progress(s.wa, s.exit.generation) + Progress(s.wb, s.exit.generation)
  }

  function StepBound(limit: int): nat { 24 * (Rounds(limit) + 1) }

  lemma StepMakesProgress(s: State, t: Thread)
    requires Inv(s) && Step(s, t).Some?
    ensures TotalProgress(s) < TotalProgress(Step(s, t).value)
  {
    if PcOf(s, t) == AtExit && s.exit.waiting == 2 {
      var g := s.exit.generation;
      match t
      case Main => assert s.wa == InExit(g) && s.wb == InExit(g);
      case WorkerA => assert s.main == InExit(g) && s.wb == InExit(g);
      case WorkerB => assert s.main == InExit(g) && s.wa == InExit(g);
    }
  }

  lemma ProgressIsBounded(s: State)
    requires Inv(s)
    ensures TotalProgress(s) < StepBound(s.limit)
  {
  }

  lemma {:induction false} RunMakesProgress(s: State, schedule: seq<Thread>)
    requires Inv(s) && Run(s, schedule).Some?
    ensures TotalProgress(s) + |schedule| <= TotalProgress(Run(s, schedule).value)
    decreases |schedule|
  {
    if schedule == [] {
    } else {
      StepKeepsInv(s, schedule[0]);
      StepMakesProgress(s, schedule[0]);
      RunMakesProgress(Step(s, schedule[0]).value, schedule[1..]);
    }
  }

  /** Whatever the scheduler does, a run has fewer than 24 (max(limit, 0) + 1) steps; one that
      cannot be extended has seen main exit with both counters at max(limit, 0). */
  lemma EveryRunEnds(limit: int, schedule: seq<Thread>)
    requires Run(Init(limit), schedule).Some?
    ensures |schedule| < StepBound(limit)
    ensures var s := Run(Init(limit), schedule).value;
      (forall t :: Step(s, t).None?) ==> s.main == Done && s.a == s.b == Rounds(limit)
  {
    RunKeepsInv(Init(limit), schedule);
    RunMakesProgress(Init(limit), schedule);
    ProgressIsBounded(Run(Init(limit), schedule).value);
    NeverStuck(limit, schedule);
  }
}
