/** First launches: exactly when a kernel's first resident launch brings the eager result to the
    host, with and without a device buffer, and what becomes of kernels beyond the seed flags. */
module AccelLimits {
  import opened Bytes
  import opened AccelLayout
  import opened AccelModel
  import opened AccelSession
  import opened AccelCoherence
  import opened AccelValues
  import AccelBatch
  import AccelPrime

  /** A driver whose calls succeed, and a live kernel on it whose seed is not recorded. */
  ghost predicate Waiting(rt: Rt, idx: nat, host: seq<byte>) {
    && Valid(rt) && HostFitsAll(rt, |host|) && rt.driver.Some? && Healthy(rt.driver.value)
    && KernelReady(rt, idx) && !SeededFlag(rt, idx) && Consistent(rt.descs[idx].fields)
  }

  // ── What the resident runtime does ──

  /** A download after a seeding launch pulls the outputs that the launch has pulled already. */
  lemma PullAgain(rt: Rt, idx: nat, host: seq<byte>, v: seq<byte>)
    requires Waiting(rt, idx, host) && Recordable(rt, idx) && |v| == ProjSize(rt.descs[idx])
    ensures AllFit(rt.descs[idx].fields, |host|, |v|)
    ensures var rt' := WithMirror(MarkSeeded(rt, idx), idx, Mirror(v, v));
      && Valid(rt') && HostFitsAll(rt', |host|)
      && Download(rt', idx, Scatter(rt.descs[idx].fields, v, host)).host == Scatter(rt.descs[idx].fields, v, host)
  {
    var rt', fs := WithMirror(MarkSeeded(rt, idx), idx, Mirror(v, v)), rt.descs[idx].fields;
    assert HostFits(rt.descs[idx], |host|);
    BufferReplaced(rt.driver.value, rt'.driver.value, rt.descs, idx);
    DownloadValue(rt', idx, Scatter(fs, v, host));
    AccelBatch.PullTwice(fs, host, v, v);
  }

  /** A launch into an existing, unseeded buffer, and a download after it. */
  lemma MappedFirstValue(rt: Rt, idx: nat, host: seq<byte>, w: nat)
    requires Waiting(rt, idx, host) && HasBuffer(rt, idx)
    ensures HostFits(rt.descs[idx], |host|)
    ensures var k, m := rt.descs[idx], rt.driver.value.mem[rt.driver.value.Slot(idx)];
      && |m.stage| == ProjSize(k)
      && var r := RunMapped(rt, idx, host, w);
         r.ok && Download(r.rt, idx, r.host).host ==
         if Recordable(rt, idx) then Scatter(k.fields, k.code(w, Gather(k.seedFields, host, m.stage)), host) else host
  {
    SeedingLaunch(rt, idx, host, w);
    var k, m := rt.descs[idx], rt.driver.value.mem[rt.driver.value.Slot(idx)];
    var stage := Gather(k.seedFields, host, m.stage);
    var v := k.code(w, stage);
    if Recordable(rt, idx) {
      PullAgain(rt, idx, host, v);
    } else {
      assert !SeededFlag(WithMirror(rt, idx, Mirror(stage, v)), idx);
    }
  }

  /** A launch without a buffer, and a download after it: for a recorded seed the outputs of the first
      mirror, over what the prime made of the host; else what the prime made of the host. */
  lemma FirstLaunchValue(rt: Rt, idx: nat, host: seq<byte>, nx: nat, ny: nat)
    requires Waiting(rt, idx, host) && !HasBuffer(rt, idx)
    ensures HostFits(rt.descs[idx], |host|)
    ensures var k, w := rt.descs[idx], Work(nx, ny);
      var primed, r := Prime(rt, idx, host, w).host, LaunchResident(rt, idx, host, nx, ny);
      var v := k.code(w, FirstMirror(k, host, w, rt.driver.value.ops.launchRefillsStage));
      r.ok && Download(r.rt, idx, r.host).host == if Recordable(rt, idx) then Scatter(k.fields, v, primed) else primed
  {
    FirstLaunch(rt, idx, host, nx, ny);
    hide LaunchResident;
    hide Prime;
    hide FirstMirror;
    var k, w := rt.descs[idx], Work(nx, ny);
    var primed, stage := Prime(rt, idx, host, w).host, FirstMirror(k, host, w, rt.driver.value.ops.launchRefillsStage);
    var v := k.code(w, stage);
    if Recordable(rt, idx) {
      PullAgain(rt, idx, primed, v);
    } else {
      assert !SeededFlag(WithMirror(rt, idx, Mirror(stage, v)), idx);
    }
  }

  // ── The first launch, without a buffer ──

  /** A kernel's first launch when it has no buffer yet, and a download. When the seed can be recorded,
      that is on a shared driver or for one of the first 32 kernels, the host is the eager one exactly
      when the kernel writes on the first mirror what it writes on the packed host. For the other kernels
      it is exactly when the eager launch leaves every byte of the seed table as it was. */
  lemma FirstLaunchReachesHostIff(rt: Rt, idx: nat, host: seq<byte>, nx: nat, ny: nat)
    requires Waiting(rt, idx, host) && !HasBuffer(rt, idx)
    ensures HostFits(rt.descs[idx], |host|)
    ensures var r, k, w := LaunchResident(rt, idx, host, nx, ny), rt.descs[idx], Work(nx, ny);
      var eager := Launch(rt, idx, host, w).host;
      && r.ok
      && (Download(r.rt, idx, r.host).host == eager <==>
          if Recordable(rt, idx) then
            SameWritten(k.fields, k.code(w, FirstMirror(k, host, w, rt.driver.value.ops.launchRefillsStage)), Once(k, host, w))
          else forall h :: 0 <= h < |host| && HostCovered(k.seedFields, h) ==> eager[h] == host[h])
  {
    var k, w := rt.descs[idx], Work(nx, ny);
    FirstLaunchValue(rt, idx, host, nx, ny);
    EagerValue(rt, idx, host, w);
    AccelPrime.PrimeIsInvisible(rt, idx, host, w);
    AccelPrime.PrimedHost(rt, idx, host, w);
    hide Prime;
    hide LaunchResident;
    hide Launch;
    hide Download;
    hide FirstMirror;
    var primed := Prime(rt, idx, host, w).host;
    if Recordable(rt, idx) {
      var v := k.code(w, FirstMirror(k, host, w, rt.driver.value.ops.launchRefillsStage));
      SameOutputsIff(k.fields, v, primed, Once(k, host, w), host);
    } else {
      PutBackIff(k.seedFields, host, Launch(rt, idx, host, w).host, primed);
    }
  }

  lemma PutBackIff(seeds: seq<Field>, host: seq<byte>, eager: seq<byte>, primed: seq<byte>)
    requires |host| == |eager| == |primed|
    requires forall h :: 0 <= h < |host| ==> primed[h] == if HostCovered(seeds, h) then host[h] else eager[h]
    ensures primed == eager <==> forall h :: 0 <= h < |host| && HostCovered(seeds, h) ==> eager[h] == host[h]
  {
  }

  /** The bytes of the kernel's own fields that its first mirror has as the host had them. */
  ghost function PrimedInputs(p: Program, k: KernelDesc, refills: bool): set<int> {
    CoveredSet(p, k.fields) * PrimedSet(p, k, refills)
  }

  /** … and those of them that the seed table covers: what a launch into an old buffer takes from the host. */
  ghost function SeededInputs(p: Program, k: KernelDesc): set<int> {
    CoveredSet(p, k.fields) * CoveredSet(p, p.seeds)
  }

  ghost predicate WaitingIn(p: Program, rt: Rt, idx: nat, host: seq<byte>) {
    && ProgramOk(p) && Valid(rt) && rt.descs == p.descs && |host| == p.hostLen && HostFitsAll(rt, |host|)
    && rt.driver.Some? && Healthy(rt.driver.value) && KernelReady(rt, idx) && !SeededFlag(rt, idx)
  }

  lemma WaitingInProgram(p: Program, rt: Rt, idx: nat, host: seq<byte>)
    requires WaitingIn(p, rt, idx, host)
    ensures Waiting(rt, idx, host) && p.descs[idx] in p.descs && KernelOk(p, p.descs[idx])
  {
    assert p.descs[idx] in p.descs && KernelOk(p, p.descs[idx]);
    ConsistentPart(p, p.descs[idx].fields);
  }

  /** The kernel's outputs on its first mirror are the eager ones if they depend on its primed inputs only. */
  lemma FirstOutputs(p: Program, k: KernelDesc, host: seq<byte>, w: nat, refills: bool)
    requires ProgramOk(p) && k in p.descs && |host| == p.hostLen && HostFits(k, p.hostLen)
    requires ReadsOnly(k, p.size, PrimedInputs(p, k, refills))
    ensures SameWritten(k.fields, k.code(w, FirstMirror(k, host, w, refills)), Once(k, host, w))
  {
    var ops := Ops(false, false, false, false, false, false, false, false, refills);
    var t := Track(ops, map[], {});
    assert KernelOk(p, k);
    PrimeMakesCurrent(p, k, host, w, host, t);
    assert ReadSet(p, k, t, Absent) == PrimedInputs(p, k, refills);
    DispatchMatches(p, k, FirstMirror(k, host, w, refills), host, PrimedInputs(p, k, refills), w);
  }

  /** The first launch is right for every host when its seed can be recorded and what the kernel writes
      depends on its primed inputs alone: on its own bytes that it does not write or that the seed table
      covers. A driver that keeps the packed mirror allows all of its own bytes. */
  lemma FirstLaunchIsRight(p: Program, rt: Rt, idx: nat, host: seq<byte>, nx: nat, ny: nat)
    requires WaitingIn(p, rt, idx, host) && !HasBuffer(rt, idx) && Recordable(rt, idx)
    requires ReadsOnly(p.descs[idx], p.size, PrimedInputs(p, p.descs[idx], rt.driver.value.ops.launchRefillsStage))
    ensures var r := LaunchResident(rt, idx, host, nx, ny);
      r.ok && Download(r.rt, idx, r.host).host == Launch(rt, idx, host, Work(nx, ny)).host
  {
    hide LaunchResident;
    hide Launch;
    hide Download;
    hide ReadsOnly;
    WaitingInProgram(p, rt, idx, host);
    FirstLaunchReachesHostIff(rt, idx, host, nx, ny);
    FirstOutputs(p, p.descs[idx], host, Work(nx, ny), rt.driver.value.ops.launchRefillsStage);
  }

  /** On such a driver every kernel that reads nothing but its own fields is right at its first launch. */
  lemma FirstLaunchOnPackedMirror(p: Program, rt: Rt, idx: nat, host: seq<byte>, nx: nat, ny: nat)
    requires WaitingIn(p, rt, idx, host) && !HasBuffer(rt, idx) && Recordable(rt, idx)
    requires !rt.driver.value.ops.launchRefillsStage && ReadsOnly(p.descs[idx], p.size, CoveredSet(p, p.descs[idx].fields))
    ensures var r := LaunchResident(rt, idx, host, nx, ny);
      r.ok && Download(r.rt, idx, r.host).host == Launch(rt, idx, host, Work(nx, ny)).host
  {
    assert PrimedInputs(p, p.descs[idx], false) == CoveredSet(p, p.descs[idx].fields);
    hide ReadsOnly;
    FirstLaunchIsRight(p, rt, idx, host, nx, ny);
  }

  /** A kernel beyond the seed flags that writes no byte of the seed table is right at its first launch,
      whatever it reads: the prime has brought its outputs. */
  lemma FirstLaunchWithDisjointSeed(rt: Rt, idx: nat, host: seq<byte>, nx: nat, ny: nat)
    requires Waiting(rt, idx, host) && !HasBuffer(rt, idx) && !Recordable(rt, idx)
    requires forall h :: HostCovered(rt.descs[idx].seedFields, h) ==> !HostWritten(rt.descs[idx].fields, h)
    ensures var r := LaunchResident(rt, idx, host, nx, ny);
      r.ok && Download(r.rt, idx, r.host).host == Launch(rt, idx, host, Work(nx, ny)).host
  {
    hide LaunchResident;
    hide Launch;
    AccelPrime.LaunchKeeps(rt, idx, host, Work(nx, ny));
    FirstLaunchReachesHostIff(rt, idx, host, nx, ny);
  }

  // ── A launch into an old, unseeded buffer ──

  /** A launch into a buffer that exists but is not seeded, and a download. When the seed can be recorded,
      the host is the eager one exactly when the kernel writes on the seeded old mirror what it writes on
      the packed host; else exactly when the launch would not change the host. */
  lemma LaterLaunchReachesHostIff(rt: Rt, idx: nat, host: seq<byte>, nx: nat, ny: nat)
    requires Waiting(rt, idx, host) && HasBuffer(rt, idx)
    ensures HostFits(rt.descs[idx], |host|)
    ensures var r, k, w := LaunchResident(rt, idx, host, nx, ny), rt.descs[idx], Work(nx, ny);
      var eager, m := Launch(rt, idx, host, w).host, rt.driver.value.mem[rt.driver.value.Slot(idx)];
      && r.ok && |m.stage| == ProjSize(k)
      && (Download(r.rt, idx, r.host).host == eager <==>
          if Recordable(rt, idx) then SameWritten(k.fields, k.code(w, Gather(k.seedFields, host, m.stage)), Once(k, host, w))
          else eager == host)
  {
    var k, w, m := rt.descs[idx], Work(nx, ny), rt.driver.value.mem[rt.driver.value.Slot(idx)];
    hide LaunchResident;
    MappedResident(rt, idx, host, nx, ny);
    MappedFirstValue(rt, idx, host, w);
    EagerValue(rt, idx, host, w);
    hide RunMapped;
    hide Launch;
    hide Download;
    if Recordable(rt, idx) {
      SameOutputsIff(k.fields, k.code(w, Gather(k.seedFields, host, m.stage)), host, Once(k, host, w), host);
    }
  }

  lemma UnrecordableLaunch(rt: Rt, idx: nat, host: seq<byte>, nx: nat, ny: nat)
    requires Valid(rt) && HostFitsAll(rt, |host|) && rt.driver.Some? && Healthy(rt.driver.value)
    requires KernelReady(rt, idx) && !Recordable(rt, idx) && HasBuffer(rt, idx)
    ensures var r := LaunchResident(rt, idx, host, nx, ny);
      && r.ok && r.host == host && r.rt.driver.Some? && Healthy(r.rt.driver.value)
      && KernelReady(r.rt, idx) && !Recordable(r.rt, idx) && HasBuffer(r.rt, idx)
  {
    hide Gather;
    SeedingLaunch(rt, idx, host, Work(nx, ny));
    hide RunMapped;
  }

  /** Once it has a buffer, a kernel whose seed cannot be recorded never reaches the host again,
      however often it is launched; every launch reports success. */
  lemma {:induction false} UnrecordableStaysBehind(rt: Rt, idx: nat, host: seq<byte>, nx: nat, ny: nat, times: nat)
    requires Valid(rt) && HostFitsAll(rt, |host|) && rt.driver.Some? && Healthy(rt.driver.value)
    requires KernelReady(rt, idx) && !Recordable(rt, idx) && HasBuffer(rt, idx)
    ensures var s := BatchSequential(rt, idx, host, nx, ny, times);
      s.ok && s.host == host && Download(s.rt, idx, s.host).host == host
    decreases times
  {
    hide LaunchResident;
    if times == 0 {
      assert !SeededFlag(rt, idx);
    } else {
      UnrecordableLaunch(rt, idx, host, nx, ny);
      hide Download;
      UnrecordableStaysBehind(LaunchResident(rt, idx, host, nx, ny).rt, idx, host, nx, ny, times - 1);
    }
  }

  // ── A kernel that shows both ──

  /** One in-out byte, incremented by every dispatch. */
  const COUNTER := Field(ArrayField, 0, 1, 1, true, 0)

  const INCREMENT: Code := (w: nat, p: seq<byte>) => if |p| == 0 then p else p[0 := if p[0] == 255 then 0 else p[0] + 1]

  /** The counting kernel, with the given seed table. */
  function Counting(seeds: seq<Field>): KernelDesc {
    KernelDesc([COUNTER], seeds, 1, true, INCREMENT)
  }

  function CountProgram(seeds: seq<Field>): Program {
    Program([Counting(seeds)], [COUNTER], seeds, 1, 1)
  }

  function Succ(b: byte): byte { if b == 255 then 0 else b + 1 }

  lemma CountProgramOk(seeds: seq<Field>)
    requires seeds == [] || seeds == [COUNTER]
    ensures ProgramOk(CountProgram(seeds)) && HostFits(Counting(seeds), 1) && Consistent([COUNTER])
    ensures Written([COUNTER], 0)
  {
    assert COUNTER.Size() == 1 && COUNTER.Has(0) && COUNTER in [COUNTER];
    assert MaxEnd([COUNTER]) >= 0;
    assert Scalars([COUNTER]) == [] by {
      assert [COUNTER][..0] == [];
    }
    assert KernelOk(CountProgram(seeds), Counting(seeds));
  }

  /** What the counting kernel packs, computes and unpacks. */
  lemma CountValues(seeds: seq<Field>, b: byte, w: nat)
    requires seeds == [] || seeds == [COUNTER]
    ensures HostFits(Counting(seeds), 1)
    ensures Pack(Counting(seeds), [b]) == [b] && Once(Counting(seeds), [b], w) == [Succ(b)]
    ensures forall c: byte, h: byte :: AllFit([COUNTER], 1, 1) && Scatter([COUNTER], [c], [h]) == [c]
  {
    CountProgramOk(seeds);
    assert [COUNTER][..0] == [] && AllFit([COUNTER], 1, 1);
    assert Gather([], [b], Zeros(1)) == Zeros(1);
    assert Gather([COUNTER], [b], Zeros(1)) == Blit(Zeros(1), 0, [b], 0, 1) == [b];
    forall c: byte, h: byte ensures Scatter([COUNTER], [c], [h]) == [c] {
      assert Scatter([], [c], [h]) == [h];
      assert Scatter([COUNTER], [c], [h]) == Blit([h], 0, [c], 0, 1) == [c];
    }
  }

  /** Without a seed table a mirror with the prime's output is counted up again. */
  lemma CountedAgain(b: byte, w: nat)
    ensures HostFits(Counting([]), 1) && |FirstMirror(Counting([]), [b], w, true)| == 1
    ensures INCREMENT(w, FirstMirror(Counting([]), [b], w, true)) == [Succ(Succ(b))]
  {
    CountValues([], b, w);
    assert FirstMirror(Counting([]), [b], w, true) == Once(Counting([]), [b], w);
  }

  /** Without a seed table, on a driver that copies the result back into staging, the first launch counts
      twice: the mirror it runs on has the prime's output. The full-copy launch counts once. */
  lemma FirstLaunchCountsTwice(rt: Rt, b: byte)
    requires WaitingIn(CountProgram([]), rt, 0, [b]) && !HasBuffer(rt, 0) && rt.driver.value.ops.launchRefillsStage
    ensures var r := LaunchResident(rt, 0, [b], 1, 1);
      && r.ok && Download(r.rt, 0, r.host).host == [Succ(Succ(b))]
      && Launch(rt, 0, [b], Work(1, 1)).host == [Succ(b)]
  {
    var w := Work(1, 1);
    WaitingInProgram(CountProgram([]), rt, 0, [b]);
    assert rt.descs[0] == Counting([]);
    hide ProgramOk;
    FirstLaunchValue(rt, 0, [b], 1, 1);
    EagerValue(rt, 0, [b], w);
    CountValues([], b, w);
    CountedAgain(b, w);
    var primed := Prime(rt, 0, [b], w).host;
    hide *;
    assert |primed| == 1 && primed == [primed[0]];
  }

  /** A kernel beyond the seed flags: once it has a buffer, a launch and a download leave its byte as it
      was, while a full-copy launch counts. */
  lemma LateKernelNeverCounts(rt: Rt, idx: nat, seeds: seq<Field>, b: byte)
    requires Valid(rt) && HostFitsAll(rt, 1) && rt.driver.Some? && Healthy(rt.driver.value) && KernelReady(rt, idx)
    requires !rt.driver.value.ops.shared && idx >= 32 && HasBuffer(rt, idx)
    requires rt.descs[idx] == Counting(seeds) && (seeds == [] || seeds == [COUNTER])
    ensures var r := LaunchResident(rt, idx, [b], 1, 1);
      && r.ok && Download(r.rt, idx, r.host).host == [b]
      && Launch(rt, idx, [b], Work(1, 1)).host == [Succ(b)]
  {
    CountValues(seeds, b, Work(1, 1));
    UnrecordableLaunch(rt, idx, [b], 1, 1);
    EagerValue(rt, idx, [b], Work(1, 1));
    hide LaunchResident;
    hide Launch;
    assert !SeededFlag(LaunchResident(rt, idx, [b], 1, 1).rt, idx);
  }

  // ── A kernel that reads a scalar ──

  const FILL_PROGRAM := Program([AccelBatch.FILL_KERNEL], [AccelBatch.FACTOR, AccelBatch.TARGET], [AccelBatch.TARGET], 2, 2)

  lemma FillWritesTheArray(i: int)
    ensures Written(AccelBatch.FILL_KERNEL.fields, i) <==> i == 1
  {
    assert AccelBatch.TARGET in AccelBatch.FILL_KERNEL.fields && AccelBatch.TARGET.Has(1);
  }

  lemma FillWritesNothingElse()
    ensures WritesOnlyDeclared(AccelBatch.FILL_KERNEL, 2)
  {
    hide Written;
    var k := AccelBatch.FILL_KERNEL;
    forall w: nat, v: seq<byte>, i | |v| == 2 && 0 <= i < 2 && !Written(k.fields, i)
      ensures k.code(w, v)[i] == v[i]
    {
      FillWritesTheArray(i);
    }
  }

  lemma FillLayoutOk()
    ensures Consistent(FILL_PROGRAM.layout) && Separated(FILL_PROGRAM.layout) && AllFit(FILL_PROGRAM.layout, 2, 2)
    ensures Covered(AccelBatch.FILL_KERNEL.fields, 0) && !Covered(FILL_PROGRAM.seeds, 0)
  {
    assert AccelBatch.FACTOR.Size() == AccelBatch.TARGET.Size() == 1;
    assert AccelBatch.FACTOR in AccelBatch.FILL_KERNEL.fields && AccelBatch.FACTOR.Has(0);
  }

  lemma FillProgramOk()
    ensures ProgramOk(FILL_PROGRAM) && Covered(AccelBatch.FILL_KERNEL.fields, 0) && !Covered(FILL_PROGRAM.seeds, 0)
  {
    FillLayoutOk();
    FillWritesNothingElse();
    AccelBatch.FillDescOk();
    var p, k := FILL_PROGRAM, AccelBatch.FILL_KERNEL;
    hide Consistent;
    hide Separated;
    hide WritesOnlyDeclared;
    hide DescOk;
    hide Covered;
    hide AllFit;
    hide Scalars;
    assert KernelOk(p, k);
  }

  /** The kernel that fills an array with a scalar reads a byte outside the seed table. Its first launch is
      right all the same, because the prime packs the scalar; after an invalidation it would not be. */
  lemma ScalarReaderIsPrimed(refills: bool)
    ensures ProgramOk(FILL_PROGRAM)
    ensures ReadsOnly(AccelBatch.FILL_KERNEL, 2, PrimedInputs(FILL_PROGRAM, AccelBatch.FILL_KERNEL, refills))
    ensures !ReadsOnly(AccelBatch.FILL_KERNEL, 2, SeededInputs(FILL_PROGRAM, AccelBatch.FILL_KERNEL))
  {
    var p, k := FILL_PROGRAM, AccelBatch.FILL_KERNEL;
    FillProgramOk();
    FillWritesTheArray(0);
    assert 0 in PrimedInputs(p, k, refills) && 0 !in SeededInputs(p, k);
    hide *;
    FillReads(PrimedInputs(p, k, refills));
    FillNeedsItsScalar(SeededInputs(p, k));
  }

  lemma FillReads(on: set<int>)
    requires 0 in on
    ensures ReadsOnly(AccelBatch.FILL_KERNEL, 2, on)
  {
    hide Written;
    var k := AccelBatch.FILL_KERNEL;
    forall w: nat, u: seq<byte>, v: seq<byte>, i | |u| == 2 && Agree(u, v, on) && 0 <= i < 2 && Written(k.fields, i)
      ensures k.code(w, u)[i] == k.code(w, v)[i]
    {
      FillWritesTheArray(i);
      assert u[0] == v[0];
    }
  }

  lemma FillNeedsItsScalar(on: set<int>)
    requires 0 !in on
    ensures !ReadsOnly(AccelBatch.FILL_KERNEL, 2, on)
  {
    hide Written;
    var k := AccelBatch.FILL_KERNEL;
    var u, v: seq<byte> := [0, 0], [1, 0];
    assert Agree(u, v, on);
    FillWritesTheArray(1);
    assert k.code(0, u)[1] == 0 && k.code(0, v)[1] == 1;
  }
}
