/** Sessions after a shutdown. Shutdown frees the buffers but keeps the program's seed flag; these are
    the sessions that are right nevertheless, and exactly what the others do. */
module AccelRestart {
  import opened Bytes
  import opened Options
  import opened AccelLayout
  import opened AccelModel
  import opened AccelSession
  import opened AccelCoherence
  import opened AccelValues
  import opened AccelRefinement
  import opened AccelLimits
  import AccelBatch
  import AccelPrime

  // ── The state a restart leaves ──

  /** Shut down and init again with a driver that has no buffers yet. */
  function Restart(rt: Rt, found: Device, descs: seq<KernelDesc>): Rt {
    Init(Shutdown(rt), Some(found), descs).0
  }

  /** The program's kernels, on a driver whose calls succeed and which keeps residency. */
  ghost predicate RestartOk(p: Program, rt: Rt, found: Device) {
    && ProgramOk(p) && Healthy(found) && found.mem == map[]
    && InitOk(Shutdown(rt), Some(found), p.descs)
  }

  /** Any driver without buffers may be found for a correct program. */
  lemma RestartIsOk(p: Program, rt: Rt, found: Device)
    requires ProgramOk(p) && Healthy(found) && found.mem == map[]
    ensures RestartOk(p, rt, found)
  {
    forall k | k in p.descs ensures DescOk(k) && ProjSize(k) == p.size {
      assert KernelOk(p, k);
    }
  }

  lemma {:induction false} AllCompile(d: Device, descs: seq<KernelDesc>, live: seq<bool>, i: nat)
    requires d.faults == [] && |live| == |descs| && i <= |descs|
    ensures var r := CreateKernels(d, descs, live, i);
      && r.0 == Some(d)
      && (forall j :: 0 <= j < i ==> r.1[j] == live[j])
      && (forall j :: i <= j < |descs| ==> r.1[j] == descs[j].hasImage)
    decreases |descs| - i
  {
    if i == |descs| {
    } else {
      assert d.Spent() == d;
      AllCompile(d, descs, live[i := descs[i].hasImage], i + 1);
    }
  }

  /** Whatever ran before, a restart inherits the program's seed flag although no buffer is left. */
  lemma RestartKeepsSeedFlag(rt: Rt, found: Device, descs: seq<KernelDesc>)
    requires found.faults == [] && found.mem == map[]
    ensures var r := Restart(rt, found, descs);
      && r.driver == Some(found) && r.programSeeded == rt.programSeeded && r.descs == descs && Available(r)
      && |r.residentSeeded| == |r.kernels| == |descs| == r.nKernels
      && (forall j :: 0 <= j < |descs| ==> !r.residentSeeded[j] && r.kernels[j] == descs[j].hasImage)
  {
    AllCompile(found, descs, seq(|descs|, _ => false), 0);
  }

  /** The restarted runtime is a session without buffers; its seed flags are set exactly on a shared
      driver that inherits the program's. */
  lemma RestartedSession(p: Program, rt: Rt, found: Device)
    requires RestartOk(p, rt, found)
    ensures var r := Restart(rt, found, p.descs);
      && InSession(p, r) && HostFitsAll(r, p.hostLen)
      && r.driver == Some(found) && |r.residentSeeded| == |p.descs|
      && (forall idx :: 0 <= idx < |p.descs| ==>
            (KernelReady(r, idx) <==> p.descs[idx].hasImage)
            && (SeededFlag(r, idx) <==> found.ops.shared && rt.programSeeded))
  {
    RestartKeepsSeedFlag(rt, found, p.descs);
    ProgramHostFits(p);
    hide Init;
    hide Shutdown;
  }

  // ── Restarts that are right ──

  /** On a driver with a buffer for each kernel, or when the program's seed flag was clear at the
      shutdown, every session after a restart refines the eager run, as a first session does. */
  lemma RestartRefinesEager(p: Program, rt: Rt, found: Device, host: seq<byte>, actions: seq<Action>)
    requires RestartOk(p, rt, found) && |host| == p.hostLen
    requires !found.ops.shared || !rt.programSeeded
    requires Permitted(p, Restart(rt, found, p.descs).kernels, Track(found.ops, map[], {}), actions)
    requires FinalTrack(p, Track(found.ops, map[], {}), actions).stale == {}
    ensures var r := Restart(rt, found, p.descs);
      && Valid(r) && HostFitsAll(r, |host|) && PushesFit(r.descs, |host|, actions)
      && (forall k :: k in p.descs ==> HostFits(k, p.hostLen))
      && ResidentRun(r, host, actions).ok && ResidentRun(r, host, actions).host == EagerRun(p, host, actions)
  {
    RestartedSession(p, rt, found);
    var r := Restart(rt, found, p.descs);
    assert Start(r) == Track(found.ops, map[], {});
    hide Restart;
    hide ProgramOk;
    ResidentRefinesEager(p, r, host, actions);
  }

  // ── A seed flag without a buffer ──

  /** A live kernel whose seed flag is set although it has no buffer. */
  ghost predicate Inherited(rt: Rt, idx: nat, host: seq<byte>) {
    && Valid(rt) && HostFitsAll(rt, |host|) && rt.driver.Some? && Healthy(rt.driver.value)
    && KernelReady(rt, idx) && SeededFlag(rt, idx) && !HasBuffer(rt, idx) && Consistent(rt.descs[idx].fields)
  }

  /** The launch primes a buffer and runs the kernel on the prime's output with the host's scalars put in. */
  lemma InheritedLaunch(rt: Rt, idx: nat, host: seq<byte>, nx: nat, ny: nat)
    requires Inherited(rt, idx, host)
    ensures HostFits(rt.descs[idx], |host|)
    ensures var k, w := rt.descs[idx], Work(nx, ny);
      var primed, fs := Prime(rt, idx, host, w).host, SyncList(k.fields);
      && AllFit(fs, |host|, ProjSize(k))
      && LaunchResident(rt, idx, host, nx, ny) ==
         Result(WithMirror(rt, idx, Mirror(Gather(fs, primed, PrimedStage(k, host, w, rt.driver.value.ops.launchRefillsStage)),
                                           k.code(w, Gather(fs, primed, Once(k, host, w))))), primed, true)
  {
    var k, w := rt.descs[idx], Work(nx, ny);
    PrimeSucceeds(rt, idx, host, w);
    PrimedLaunch(rt, idx, host, nx, ny);
    var pr, fs := Prime(rt, idx, host, w), SyncList(k.fields);
    hide Prime;
    hide LaunchResident;
    hide SyncList;
    SyncedLaunch(pr.rt, idx, pr.host, w);
    hide RunMapped;
    var m := Mirror(PrimedStage(k, host, w, rt.driver.value.ops.launchRefillsStage), Once(k, host, w));
    SyncedVram(k, pr.host, m);
    WithMirrorTwice(rt, idx, m, Mirror(Gather(fs, pr.host, m.stage), k.code(w, Gather(fs, pr.host, m.vram))));
  }

  /** In other words, the kernel is applied twice before a download brings its output. */
  lemma StaleFlagAppliesTwice(rt: Rt, idx: nat, host: seq<byte>, nx: nat, ny: nat)
    requires Inherited(rt, idx, host)
    ensures HostFits(rt.descs[idx], |host|)
    ensures var k, w := rt.descs[idx], Work(nx, ny);
      var pr, r := Prime(rt, idx, host, w), LaunchResident(rt, idx, host, nx, ny);
      && AllFit(SyncList(k.fields), |host|, ProjSize(k))
      && r.ok && r.host == pr.host
      && Download(r.rt, idx, r.host).host
         == Scatter(k.fields, k.code(w, Gather(SyncList(k.fields), pr.host, Once(k, host, w))), pr.host)
  {
    InheritedLaunch(rt, idx, host, nx, ny);
    hide Prime;
    hide LaunchResident;
    var r := LaunchResident(rt, idx, host, nx, ny);
    DownloadValue(r.rt, idx, r.host);
  }

  /** Exactly when that launch and a download still give the eager host: when the second application
      leaves every written byte as the first one made it. */
  lemma StaleFlagIsRightIff(rt: Rt, idx: nat, host: seq<byte>, nx: nat, ny: nat)
    requires Inherited(rt, idx, host)
    ensures HostFits(rt.descs[idx], |host|)
    ensures var k, w := rt.descs[idx], Work(nx, ny);
      var pr, r, once := Prime(rt, idx, host, w), LaunchResident(rt, idx, host, nx, ny), Once(k, host, w);
      && AllFit(SyncList(k.fields), |host|, ProjSize(k))
      && (Download(r.rt, idx, r.host).host == Launch(rt, idx, host, w).host <==>
          SameWritten(k.fields, k.code(w, Gather(SyncList(k.fields), pr.host, once)), once))
  {
    var k, w := rt.descs[idx], Work(nx, ny);
    StaleFlagAppliesTwice(rt, idx, host, nx, ny);
    EagerValue(rt, idx, host, w);
    AccelPrime.PrimeIsInvisible(rt, idx, host, w);
    hide Launch;
    hide Prime;
    hide LaunchResident;
    hide Download;
    var pr := Prime(rt, idx, host, w);
    var once := Once(k, host, w);
    SameOutputsIff(k.fields, k.code(w, Gather(SyncList(k.fields), pr.host, once)), pr.host, once, host);
  }

  /** Running the kernel on its own output would change nothing it writes. */
  ghost predicate Settled(k: KernelDesc, out: seq<byte>, w: nat) {
    SameWritten(k.fields, k.code(w, out), out)
  }

  /** A program's kernel leaves the host's scalars in its output, so syncing them again changes nothing. */
  lemma OutputHasScalars(p: Program, rt: Rt, idx: nat, host: seq<byte>, w: nat)
    requires ProgramOk(p) && Valid(rt) && rt.descs == p.descs && |host| == p.hostLen && HostFitsAll(rt, |host|)
    requires rt.driver.Some? && KernelReady(rt, idx) && HostFits(p.descs[idx], |host|)
    ensures AllFit(SyncList(p.descs[idx].fields), |host|, p.size)
    ensures Gather(SyncList(p.descs[idx].fields), Prime(rt, idx, host, w).host, Once(p.descs[idx], host, w))
      == Once(p.descs[idx], host, w)
  {
    var k := p.descs[idx];
    assert k in p.descs && KernelOk(p, k);
    ConsistentPart(p, k.fields);
    AccelPrime.PrimeIsInvisible(rt, idx, host, w);
    GatherMeaning(k.fields, host, Zeros(p.size));
    hide Prime;
    hide Gather;
    var fs, once, primed := SyncList(k.fields), Once(k, host, w), Prime(rt, idx, host, w).host;
    forall f, i | f in fs && f.Has(i)
      ensures 0 <= i < |once| && 0 <= f.HostOf(i) < |primed| && once[i] == primed[f.HostOf(i)]
    {
      assert f in k.fields && f in p.layout && f.Fits(p.hostLen, p.size);
      ScalarIsUnwritten(p, k, f, i);
    }
    AccelBatch.PackIsIdle(fs, primed, once);
  }

  lemma ScalarIsUnwritten(p: Program, k: KernelDesc, f: Field, i: int)
    requires ProgramOk(p) && k in p.descs && f in k.fields && f.kind == ScalarField && f.Has(i)
    ensures !Written(k.fields, i) && !HostWritten(k.fields, f.HostOf(i))
  {
    assert KernelOk(p, k);
    WrittenBothSides(p, k, f, i);
  }

  // ── Exactly when the first launch after a restart is right ──

  /** A restart, one launch of any kernel and a download. On a shared driver whose program was seeded
      before the shutdown, the host is the eager one exactly when running the kernel on its own output
      would change nothing; otherwise the launch is a first launch, right exactly when such a launch is. */
  lemma RestartIsRightIff(p: Program, rt: Rt, found: Device, host: seq<byte>, idx: nat, nx: nat, ny: nat)
    requires RestartOk(p, rt, found) && |host| == p.hostLen && idx < |p.descs| && p.descs[idx].hasImage
    ensures var r := Restart(rt, found, p.descs);
      && Valid(r) && HostFitsAll(r, |host|) && HostFits(p.descs[idx], |host|)
      && var launched, k, w := LaunchResident(r, idx, host, nx, ny), p.descs[idx], Work(nx, ny);
         var eager, once := Launch(r, idx, host, w).host, Once(k, host, w);
         Download(launched.rt, idx, launched.host).host == eager
         <==> if found.ops.shared && rt.programSeeded then Settled(k, once, w)
              else if found.ops.shared || idx < 32 then
                SameWritten(k.fields, k.code(w, FirstMirror(k, host, w, found.ops.launchRefillsStage)), once)
              else forall h :: 0 <= h < |host| && HostCovered(p.seeds, h) ==> eager[h] == host[h]
  {
    hide LaunchResident;
    hide Launch;
    hide Download;
    var r, k := Restart(rt, found, p.descs), p.descs[idx];
    RestartedSession(p, rt, found);
    hide Restart;
    assert k in r.descs && HostFits(k, |host|);
    assert KernelOk(p, k);
    ConsistentPart(p, k.fields);
    if found.ops.shared && rt.programSeeded {
      StaleFlagIsRightIff(r, idx, host, nx, ny);
      OutputHasScalars(p, r, idx, host, Work(nx, ny));
    } else {
      FirstLaunchReachesHostIff(r, idx, host, nx, ny);
    }
  }

  // ── Whole sessions on a shared driver that inherits the flag ──

  /** The bookkeeping after a settled first launch: the buffer has all of the kernel's bytes, and the
      prime has put the seed table's bytes of the host back. */
  ghost function Resumed(p: Program, k: KernelDesc, ops: Ops): Track {
    Track(ops, map[0 := Seeded(CoveredSet(p, k.fields))], CoveredSet(p, p.seeds) * WrittenSet(p, k))
  }

  /** The host after the prime lags behind on seed bytes that the kernel writes. */
  lemma PrimedLags(p: Program, k: KernelDesc, host: seq<byte>, eager: seq<byte>, primed: seq<byte>)
    requires ProgramOk(p) && k in p.descs && |host| == |eager| == |primed| == p.hostLen
    requires forall h :: 0 <= h < |host| ==> primed[h] == if HostCovered(p.seeds, h) then host[h] else eager[h]
    requires forall h :: 0 <= h < |host| && !HostWritten(k.fields, h) ==> eager[h] == host[h]
    ensures HostCurrent(p, primed, eager, CoveredSet(p, p.seeds) * WrittenSet(p, k))
  {
    assert KernelOk(p, k);
    forall h | 0 <= h < |host| && HostCovered(p.seeds, h) && HostWritten(k.fields, h)
      ensures StaleHost(p, h, CoveredSet(p, p.seeds) * WrittenSet(p, k))
    {
      var f :| f in p.seeds && f.HasHost(h);
      var i := f.ProjOf(h);
      assert f in p.layout && f.Fits(p.hostLen, p.size) && f.Has(i) && f.HostOf(i) == h && Covered(p.seeds, i);
      WrittenBothSides(p, k, f, i);
    }
  }

  /** A full-copy launch's output has the eager host's bytes of the kernel, and running the kernel on a
      settled output gives it back. */
  lemma OutputIsCurrent(p: Program, k: KernelDesc, host: seq<byte>, w: nat)
    requires ProgramOk(p) && k in p.descs && |host| == p.hostLen && HostFits(k, p.hostLen)
    ensures VramCurrent(p, Once(k, host, w), Scatter(k.fields, Once(k, host, w), host), CoveredSet(p, k.fields))
    ensures Settled(k, Once(k, host, w), w) ==> k.code(w, Once(k, host, w)) == Once(k, host, w)
  {
    assert KernelOk(p, k);
    PrimeCopies(p, k, host, w, false);
    var own := CoveredSet(p, k.fields);
    assert VramCurrent(p, Pack(k, host), host, own);
    DispatchKeepsCurrent(p, k, Pack(k, host), host, own, w);
    var once, again := Once(k, host, w), k.code(w, Once(k, host, w));
    if Settled(k, once, w) {
      forall i | 0 <= i < |once| ensures again[i] == once[i] {
      }
    }
  }

  lemma SettledLaunch(p: Program, r: Rt, host: seq<byte>, idx: nat, nx: nat, ny: nat)
    requires InSession(p, r) && HostFitsAll(r, |host|) && |host| == p.hostLen && Inherited(r, idx, host)
    requires r.driver.value.ops.shared && |r.residentSeeded| == |p.descs|
    requires HostFits(p.descs[idx], |host|) && Settled(p.descs[idx], Once(p.descs[idx], host, Work(nx, ny)), Work(nx, ny))
    ensures forall k :: k in p.descs ==> HostFits(k, p.hostLen)
    ensures var s := LaunchResident(r, idx, host, nx, ny);
      && s.ok && s.rt.kernels == r.kernels
      && Coherent(p, s.rt, s.host, EagerStep(p, host, RunKernel(idx, nx, ny)), Resumed(p, p.descs[idx], r.driver.value.ops))
  {
    var k, w := p.descs[idx], Work(nx, ny);
    ProgramHostFits(p);
    assert k in p.descs && KernelOk(p, k);
    hide LaunchResident;
    hide Prime;
    InheritedLaunch(r, idx, host, nx, ny);
    OutputHasScalars(p, r, idx, host, w);
    OutputIsCurrent(p, k, host, w);
    AccelPrime.PrimedHost(r, idx, host, w);
    AccelPrime.LaunchKeeps(r, idx, host, w);
    EagerValue(r, idx, host, w);
    var s, m := LaunchResident(r, idx, host, nx, ny), Once(k, host, w);
    var stage := s.rt.driver.value.mem[0].stage;
    hide LaunchResident;
    hide Launch;
    hide Prime;
    hide Scatter;
    hide Settled;
    hide SyncList;
    PrimedLags(p, k, host, Scatter(k.fields, m, host), s.host);
    WrittenAreArrays(p, k);
    SessionKept(p, r, idx, Mirror(stage, m));
    hide ProgramOk;
    hide HostCurrent;
    hide VramCurrent;
    assert s.rt == WithMirror(r, idx, Mirror(stage, m));
  }

  /** On a shared driver that inherits the seed flag, a session whose first launch is settled refines the
      eager run: its later launches find the first one's output in the buffer. */
  lemma SettledSessionRefinesEager(p: Program, rt: Rt, found: Device, host: seq<byte>, idx: nat, nx: nat, ny: nat, rest: seq<Action>)
    requires RestartOk(p, rt, found) && |host| == p.hostLen && idx < |p.descs| && p.descs[idx].hasImage
    requires found.ops.shared && rt.programSeeded
    requires HostFits(p.descs[idx], |host|) && Settled(p.descs[idx], Once(p.descs[idx], host, Work(nx, ny)), Work(nx, ny))
    requires Permitted(p, Restart(rt, found, p.descs).kernels, Resumed(p, p.descs[idx], found.ops), rest)
    requires FinalTrack(p, Resumed(p, p.descs[idx], found.ops), rest).stale == {}
    ensures var r, actions := Restart(rt, found, p.descs), [RunKernel(idx, nx, ny)] + rest;
      && Valid(r) && HostFitsAll(r, |host|) && PushesFit(r.descs, |host|, actions)
      && (forall k :: k in p.descs ==> HostFits(k, p.hostLen))
      && ResidentRun(r, host, actions).ok && ResidentRun(r, host, actions).host == EagerRun(p, host, actions)
  {
    var r, first := Restart(rt, found, p.descs), RunKernel(idx, nx, ny);
    var actions := [first] + rest;
    RestartedSession(p, rt, found);
    hide Restart;
    assert p.descs[idx] in p.descs && KernelOk(p, p.descs[idx]);
    ConsistentPart(p, p.descs[idx].fields);
    SettledLaunch(p, r, host, idx, nx, ny);
    hide ProgramOk;
    hide Coherent;
    hide Settled;
    hide LaunchResident;
    hide Resumed;
    var s, eager := LaunchResident(r, idx, host, nx, ny), EagerStep(p, host, first);
    RunStaysCoherent(p, s.rt, s.host, eager, Resumed(p, p.descs[idx], found.ops), rest);
    RefinedAtEnd(p, ResidentRun(s.rt, s.host, rest), EagerRun(p, eager, rest), FinalTrack(p, Resumed(p, p.descs[idx], found.ops), rest));
    assert actions[0] == first && actions[1..] == rest;
  }

  lemma RefinedAtEnd(p: Program, r: Result, eager: seq<byte>, t: Track)
    requires Coherent(p, r.rt, r.host, eager, t) && t.stale == {}
    ensures r.host == eager
  {
    hide ProgramOk;
  }

  // ── A kernel that shows it ──

  /** The counting kernel after a restart: wrong for every start value exactly on a shared driver whose
      program was seeded before the shutdown. */
  lemma RestartCountsTwice(rt: Rt, found: Device, b: byte)
    requires Healthy(found) && found.mem == map[]
    ensures var r := Restart(rt, found, [Counting([COUNTER])]);
      && Valid(r) && HostFitsAll(r, 1)
      && var launched := LaunchResident(r, 0, [b], 1, 1);
         Download(launched.rt, 0, launched.host).host == Launch(r, 0, [b], Work(1, 1)).host
         <==> !found.ops.shared || !rt.programSeeded
  {
    var p, k, w := CountProgram([COUNTER]), Counting([COUNTER]), Work(1, 1);
    CountProgramOk([COUNTER]);
    RestartIsOk(p, rt, found);
    hide LaunchResident;
    hide Launch;
    hide Download;
    hide Restart;
    RestartIsRightIff(p, rt, found, [b], 0, 1, 1);
    CountValues([COUNTER], b, w);
    CountSeeded(b, w, found.ops.launchRefillsStage);
    hide ProgramOk;
    hide Once;
    hide FirstMirror;
    assert INCREMENT(w, [Succ(b)])[0] != Succ(b);
  }

  /** With the counter in the seed table the first mirror has the host's byte. */
  lemma CountSeeded(b: byte, w: nat, refills: bool)
    ensures HostFits(Counting([COUNTER]), 1)
    ensures FirstMirror(Counting([COUNTER]), [b], w, refills) == [b]
  {
    CountValues([COUNTER], b, w);
    var stage := PrimedStage(Counting([COUNTER]), [b], w, refills);
    assert [COUNTER][..0] == [] && Gather([], [b], stage) == stage;
    assert Gather([COUNTER], [b], stage) == Blit(stage, 0, [b], 0, 1) == [b];
  }
}
