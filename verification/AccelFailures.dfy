/** Calls that cannot run and calls that fail: what they report, and what they leave on the host, in the
    buffer and in the seed flags. */
module AccelFailures {
  import opened Bytes
  import opened AccelLayout
  import opened AccelModel
  import opened AccelCoherence
  import opened AccelValues
  import AccelPrime

  // ── Kernels that cannot run ──

  /** The device is up, the index is one of the table's, and the kernel has a live handle. */
  predicate Live(rt: Rt, idx: nat) {
    rt.initDone && rt.driver.Some? && idx < |rt.descs| && idx < |rt.kernels| && rt.kernels[idx]
  }

  /** For any other kernel every entry point reports failure and does nothing. */
  lemma NotLiveDoesNothing(rt: Rt, idx: nat, host: seq<byte>, nx: nat, ny: nat, times: nat)
    requires Valid(rt) && HostFitsAll(rt, |host|) && !Live(rt, idx)
    ensures var nothing := Result(rt, host, false);
      && Launch(rt, idx, host, nx) == nothing && LaunchResident(rt, idx, host, nx, ny) == nothing
      && LaunchBatch(rt, idx, host, nx, ny, times) == nothing && Download(rt, idx, host) == nothing
  {
    hide BatchSequential;
  }

  /** A batch of no launches, and a download from a buffer that does not count as seeded, does not exist or
      cannot be mapped, report failure and do nothing. */
  lemma NothingToDo(rt: Rt, idx: nat, host: seq<byte>, nx: nat, ny: nat)
    requires Valid(rt) && HostFitsAll(rt, |host|) && Live(rt, idx)
    ensures LaunchBatch(rt, idx, host, nx, ny, 0) == Result(rt, host, false)
    ensures var d := rt.driver.value;
      (if d.ops.shared then !rt.programSeeded else idx >= 32 || !rt.residentSeeded[idx])
      || !d.ops.mapped || !HasBuffer(rt, idx)
      ==> Download(rt, idx, host) == Result(rt, host, false)
  {
  }

  /** After a shutdown that is every kernel. */
  lemma ShutdownStopsAll(rt: Rt, idx: nat, host: seq<byte>, nx: nat, ny: nat, times: nat)
    requires Valid(rt) && HostFitsAll(rt, |host|)
    ensures var off := Shutdown(rt);
      && Valid(off) && HostFitsAll(off, |host|)
      && var nothing := Result(off, host, false);
         Launch(off, idx, host, nx) == nothing && LaunchResident(off, idx, host, nx, ny) == nothing
         && LaunchBatch(off, idx, host, nx, ny, times) == nothing && Download(off, idx, host) == nothing
  {
    NotLiveDoesNothing(Shutdown(rt), idx, host, nx, ny, times);
  }

  /** A push is refused, and does nothing, unless the first kernel is live, the program is seeded on a shared
      driver with both operations, and its buffer exists. */
  lemma RefusedPushDoesNothing(rt: Rt, host: seq<byte>, ts: seq<Triple>)
    requires Valid(rt) && HostFitsAll(rt, |host|) && forall k :: k in rt.descs ==> TriplesFit(ts, |host|, ProjSize(k))
    requires !Live(rt, 0) || !rt.programSeeded || !rt.driver.value.ops.shared || !rt.driver.value.ops.uploadRanges
             || !rt.driver.value.ops.mapped || 0 !in rt.driver.value.mem
    ensures PushRanges(rt, host, ts) == Result(rt, host, false)
  {
    hide PushStage;
  }

  // ── Driver calls that fail ──

  /** A live kernel whose driver fails its next call. */
  ghost predicate NextFails(rt: Rt, idx: nat, host: seq<byte>) {
    && Valid(rt) && HostFitsAll(rt, |host|) && Live(rt, idx) && HostFits(rt.descs[idx], |host|)
    && rt.driver.value.faults != [] && rt.driver.value.faults[0]
  }

  lemma {:induction false} UnpackedZeros(fs: seq<Field>, proj: seq<byte>, host: seq<byte>)
    requires AllFit(fs, |host|, |proj|) && forall i :: 0 <= i < |proj| ==> proj[i] == 0
    ensures forall h :: 0 <= h < |host| ==> Scatter(fs, proj, host)[h] == if HostWritten(fs, h) then 0 else host[h]
  {
    if fs == [] {
    } else {
      var last, init := fs[|fs| - 1], fs[..|fs| - 1];
      assert forall f :: f in fs <==> f in init || f == last;
      assert last.Fits(|host|, |proj|);
      UnpackedZeros(init, proj, host);
      forall h | 0 <= h < |host|
        ensures Scatter(fs, proj, host)[h] == if HostWritten(fs, h) then 0 else host[h]
      {
        if last.isWrite && last.HasHost(h) {
          assert HostWritten(fs, h);
        } else {
          assert HostWritten(fs, h) == HostWritten(init, h);
        }
      }
    }
  }

  /** A full-copy launch that fails, or that the driver has no operation for, reports it, and all the same
      unpacks its cleared output: every byte the kernel writes becomes zero. */
  lemma FailedLaunchClears(rt: Rt, idx: nat, host: seq<byte>, work: nat)
    requires Valid(rt) && HostFitsAll(rt, |host|) && Live(rt, idx) && HostFits(rt.descs[idx], |host|)
    requires !rt.driver.value.ops.launch || (rt.driver.value.faults != [] && rt.driver.value.faults[0])
    ensures var r := Launch(rt, idx, host, work);
      && !r.ok
      && (forall h :: 0 <= h < |host| ==> r.host[h] == if HostWritten(rt.descs[idx].fields, h) then 0 else host[h])
      && r.rt.driver.Some? && r.rt.driver.value.mem == rt.driver.value.mem
  {
    var k := rt.descs[idx];
    UnpackedZeros(k.fields, Zeros(ProjSize(k)), host);
  }

  /** A first launch whose prime fails reports it; the seed table's bytes come back, the other bytes the
      kernel writes stay cleared, and no buffer and no seed is left behind. */
  lemma FailedPrimeClears(rt: Rt, idx: nat, host: seq<byte>, nx: nat, ny: nat)
    requires NextFails(rt, idx, host) && !HasBuffer(rt, idx) && !ResidentOpsMissing(rt.driver.value.ops)
    ensures var k, r := rt.descs[idx], LaunchResident(rt, idx, host, nx, ny);
      && !r.ok
      && (forall h :: 0 <= h < |host| ==>
           r.host[h] == if HostCovered(k.seedFields, h) || !HostWritten(k.fields, h) then host[h] else 0)
      && r.rt.driver.Some? && !HasBuffer(r.rt, idx) && SeededFlag(r.rt, idx) == SeededFlag(rt, idx)
  {
    FailedLaunchClears(rt, idx, host, Work(nx, ny));
    AccelPrime.PrimedHost(rt, idx, host, Work(nx, ny));
    hide Restore;
    hide Scatter;
  }

  /** A resident launch whose dispatch fails reports it and leaves the host and VRAM alone; but a seed it
      made stays recorded. */
  lemma FailedDispatch(rt: Rt, idx: nat, host: seq<byte>, nx: nat, ny: nat)
    requires NextFails(rt, idx, host) && HasBuffer(rt, idx) && !ResidentOpsMissing(rt.driver.value.ops)
    ensures var r, s := LaunchResident(rt, idx, host, nx, ny), rt.driver.value.Slot(idx);
      && !r.ok && r.host == host
      && r.rt.driver.Some? && s in r.rt.driver.value.mem && r.rt.driver.value.mem[s].vram == rt.driver.value.mem[s].vram
      && SeededFlag(r.rt, idx) == (SeededFlag(rt, idx) || Recordable(rt, idx))
      && r.rt.driver.value.ops == rt.driver.value.ops && r.rt.driver.value.faults == rt.driver.value.faults[1..]
  {
    hide Gather;
    hide Iterate;
  }

  /** A batch whose dispatch fails reports it and leaves the host alone. */
  lemma FailedBatch(rt: Rt, idx: nat, host: seq<byte>, nx: nat, ny: nat, times: nat)
    requires NextFails(rt, idx, host) && HasBuffer(rt, idx) && times >= 1
    requires !ResidentOpsMissing(rt.driver.value.ops) && rt.driver.value.ops.batch
    ensures var r := LaunchBatch(rt, idx, host, nx, ny, times); !r.ok && r.host == host
  {
    hide BatchSequential;
    hide Gather;
  }

  /** Launches one by one stop at the first that fails: nothing is launched after it, and its failure is
      the batch's. */
  lemma {:induction false} BatchStops(rt: Rt, idx: nat, host: seq<byte>, nx: nat, ny: nat, n: nat, times: nat)
    requires Valid(rt) && HostFitsAll(rt, |host|) && n < times && BatchSequential(rt, idx, host, nx, ny, n).ok
    ensures var done := BatchSequential(rt, idx, host, nx, ny, n);
      && Valid(done.rt) && HostFitsAll(done.rt, |done.host|)
      && var next := LaunchResident(done.rt, idx, done.host, nx, ny);
         !next.ok ==> BatchSequential(rt, idx, host, nx, ny, times) == next
    decreases n
  {
    hide LaunchResident;
    if n == 0 {
      assert BatchSequential(rt, idx, host, nx, ny, 0) == Result(rt, host, true);
    } else {
      var s := LaunchResident(rt, idx, host, nx, ny);
      BatchStops(s.rt, idx, s.host, nx, ny, n - 1, times - 1);
    }
  }

  /** A push whose upload fails reports it: the mirror has the pushed bytes, VRAM does not. */
  lemma FailedPush(rt: Rt, host: seq<byte>, ts: seq<Triple>)
    requires NextFails(rt, 0, host) && rt.programSeeded && rt.driver.value.ops.shared && rt.driver.value.ops.uploadRanges
    requires rt.driver.value.ops.mapped && 0 in rt.driver.value.mem
    requires forall k :: k in rt.descs ==> TriplesFit(ts, |host|, ProjSize(k))
    ensures var r, m := PushRanges(rt, host, ts), rt.driver.value.mem[0];
      && !r.ok && r.host == host && TriplesFit(ts, |host|, |m.stage|)
      && r.rt.driver.Some? && 0 in r.rt.driver.value.mem
      && r.rt.driver.value.mem[0] == Mirror(PushStage(ts, host, m.stage), m.vram)
  {
    assert rt.descs[0] in rt.descs;
    assert rt.driver.value.Slot(0) == 0;
    hide PushStage;
  }

  /** A download from a driver that has no download operation, or whose download fails, is not reported as
      a failure: the host gets what the mirror held. */
  lemma FailedDownloadIsSilent(rt: Rt, idx: nat, host: seq<byte>)
    requires Valid(rt) && HostFitsAll(rt, |host|) && Live(rt, idx) && SeededFlag(rt, idx) && HasBuffer(rt, idx)
    requires HostFits(rt.descs[idx], |host|) && rt.driver.value.ops.mapped
    requires !rt.driver.value.ops.download || (rt.driver.value.faults != [] && rt.driver.value.faults[0])
    ensures var k, m := rt.descs[idx], rt.driver.value.mem[rt.driver.value.Slot(idx)];
      && |m.stage| == ProjSize(k)
      && Download(rt, idx, host).ok && Download(rt, idx, host).host == Scatter(k.fields, m.stage, host)
  {
  }

  // ── After a seed whose dispatch failed ──

  /** One dispatch fails, and no later call does. */
  ghost predicate FailsOnce(rt: Rt, idx: nat, host: seq<byte>) {
    && NextFails(rt, idx, host) && rt.driver.value.faults == [true] && HasBuffer(rt, idx)
    && Healthy(rt.driver.value.(faults := [])) && Consistent(rt.descs[idx].fields)
  }

  /** What the failed launch leaves: the seeded mirror, the old VRAM, and the flag. */
  lemma FailedSeed(rt: Rt, idx: nat, host: seq<byte>, nx: nat, ny: nat)
    requires FailsOnce(rt, idx, host) && !SeededFlag(rt, idx) && Recordable(rt, idx)
    ensures var k, m, r := rt.descs[idx], rt.driver.value.mem[rt.driver.value.Slot(idx)], LaunchResident(rt, idx, host, nx, ny);
      && |m.stage| == |m.vram| == ProjSize(k)
      && !r.ok && r.host == host && r.rt.driver.Some? && Healthy(r.rt.driver.value)
      && KernelReady(r.rt, idx) && SeededFlag(r.rt, idx) && HasBuffer(r.rt, idx)
      && r.rt.driver.value.mem[r.rt.driver.value.Slot(idx)] == Mirror(Gather(k.seedFields, host, m.stage), m.vram)
  {
    hide Gather;
    hide Iterate;
  }

  /** A first launch whose dispatch failed counts as seeded, although nothing reached VRAM. Launching again
      and downloading brings the kernel's output on the old VRAM with the host's scalars put in. That is
      the eager host exactly when the kernel writes there what it writes on the packed host. */
  lemma RetryIsRightIff(rt: Rt, idx: nat, host: seq<byte>, nx: nat, ny: nat)
    requires FailsOnce(rt, idx, host) && !SeededFlag(rt, idx) && Recordable(rt, idx)
    ensures var k, w, m := rt.descs[idx], Work(nx, ny), rt.driver.value.mem[rt.driver.value.Slot(idx)];
      var first := LaunchResident(rt, idx, host, nx, ny);
      var again := LaunchResident(first.rt, idx, first.host, nx, ny);
      && !first.ok && first.host == host && again.ok
      && AllFit(SyncList(k.fields), |host|, |m.vram|)
      && (Download(again.rt, idx, again.host).host == Scatter(k.fields, Once(k, host, w), host) <==>
          SameWritten(k.fields, k.code(w, Gather(SyncList(k.fields), host, m.vram)), Once(k, host, w)))
  {
    var k, w, m := rt.descs[idx], Work(nx, ny), rt.driver.value.mem[rt.driver.value.Slot(idx)];
    FailedSeed(rt, idx, host, nx, ny);
    var first := LaunchResident(rt, idx, host, nx, ny);
    hide LaunchResident;
    var stage := Gather(k.seedFields, host, m.stage);
    MappedResident(first.rt, idx, host, nx, ny);
    SyncedLaunch(first.rt, idx, host, w);
    SyncedVram(k, host, Mirror(stage, m.vram));
    hide RunMapped;
    hide Gather;
    var v := k.code(w, Gather(SyncList(k.fields), host, m.vram));
    var again := LaunchResident(first.rt, idx, host, nx, ny);
    DownloadValue(again.rt, idx, host);
    hide Download;
    SameOutputsIff(k.fields, v, host, Once(k, host, w), host);
  }
}
