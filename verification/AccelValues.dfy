/** What one call leaves on a driver whose calls succeed: launches with and without a buffer, downloads. */
module AccelValues {
  import opened Bytes
  import opened Options
  import opened AccelLayout
  import opened AccelModel
  import AccelPrime

  // ── What one launch does to the buffer ──

  function WithMirror(rt: Rt, idx: nat, m: Mirror): Rt
    requires rt.driver.Some?
  {
    var d := rt.driver.value;
    rt.(driver := Some(d.(mem := d.mem[d.Slot(idx) := m])))
  }

  lemma DispatchValue(s: Sync, idx: nat, work: nat, times: nat)
    requires Valid(s.rt) && s.rt.driver.Some? && idx < s.rt.nKernels && s.rt.driver.value.faults == []
    requires s.rt.driver.value.Slot(idx) in s.rt.driver.value.mem
    requires RangesFit(s.dirty, ProjSize(s.rt.descs[idx]))
    ensures var d := s.rt.driver.value;
      var m := d.mem[d.Slot(idx)];
      && |m.stage| == |m.vram| == ProjSize(s.rt.descs[idx])
      && var v := if s.fullSync then m.stage else Upload(m.vram, m.stage, s.dirty);
         Dispatch(s, idx, work, times) ==
         (WithMirror(s.rt, idx, Mirror(m.stage, Iterate(s.rt.descs[idx].code, work, times, v))), true)
  {
  }

  lemma OneDispatch(code: Code, work: nat, v: seq<byte>)
    ensures Iterate(code, work, 1, v) == code(work, v)
  {
    assert Iterate(code, work, 0, v) == v;
  }

  lemma {:induction false} IterateShift(code: Code, w: nat, n: nat, v: seq<byte>)
    ensures Iterate(code, w, n, code(w, v)) == Iterate(code, w, n + 1, v)
  {
    if n == 0 {
      OneDispatch(code, w, v);
    } else {
      IterateShift(code, w, n - 1, v);
    }
  }

  lemma DownloadValue(rt: Rt, idx: nat, host: seq<byte>)
    requires Valid(rt) && HostFitsAll(rt, |host|) && rt.driver.Some? && Healthy(rt.driver.value)
    requires KernelReady(rt, idx) && SeededFlag(rt, idx) && rt.driver.value.Slot(idx) in rt.driver.value.mem
    ensures var d := rt.driver.value;
      var v := d.mem[d.Slot(idx)].vram;
      && AllFit(rt.descs[idx].fields, |host|, |v|)
      && Download(rt, idx, host) == Result(WithMirror(rt, idx, Mirror(v, v)), Scatter(rt.descs[idx].fields, v, host), true)
  {
    assert HostFits(rt.descs[idx], |host|);
  }

  /** A launch into a seeded buffer uploads the scalars and runs; the host is not touched. */
  lemma SyncedLaunch(rt: Rt, idx: nat, host: seq<byte>, work: nat)
    requires Valid(rt) && HostFitsAll(rt, |host|) && rt.driver.Some? && Healthy(rt.driver.value)
    requires KernelReady(rt, idx) && SeededFlag(rt, idx)
    requires rt.driver.value.Slot(idx) in rt.driver.value.mem
    ensures
      var k := rt.descs[idx];
      var m := rt.driver.value.mem[rt.driver.value.Slot(idx)];
      var fs := SyncList(k.fields);
      && HostFits(k, |host|) && |m.stage| == |m.vram| == ProjSize(k) && RangesFit(DirtyRanges(fs), |m.stage|)
      && var stage := Gather(fs, host, m.stage);
         var v := k.code(work, Upload(m.vram, stage, DirtyRanges(fs)));
         RunMapped(rt, idx, host, work) == Result(WithMirror(rt, idx, Mirror(stage, v)), host, true)
  {
    var k := rt.descs[idx];
    var d := rt.driver.value;
    var m := d.mem[d.Slot(idx)];
    var fs := SyncList(k.fields);
    assert HostFits(k, |host|);
    DirtyRangesFit(k);
    var stage := Gather(fs, host, m.stage);
    var s := SeedOrSync(rt, idx, host);
    assert s == Sync(WithMirror(rt, idx, Mirror(stage, m.vram)), false, DirtyRanges(fs));
    DispatchValue(s, idx, work, 1);
    var u := Upload(m.vram, stage, DirtyRanges(fs));
    OneDispatch(k.code, work, u);
    WithMirrorTwice(rt, idx, Mirror(stage, m.vram), Mirror(stage, k.code(work, u)));
  }

  lemma WithMirrorTwice(rt: Rt, idx: nat, m: Mirror, m': Mirror)
    requires rt.driver.Some?
    ensures WithMirror(WithMirror(rt, idx, m), idx, m') == WithMirror(rt, idx, m')
  {
    var d := rt.driver.value;
    assert d.mem[d.Slot(idx) := m][d.Slot(idx) := m'] == d.mem[d.Slot(idx) := m'];
  }

  /** A launch into an unseeded buffer seeds it, runs, and pulls the written fields if the seed is recorded. */
  lemma SeedingLaunch(rt: Rt, idx: nat, host: seq<byte>, work: nat)
    requires Valid(rt) && HostFitsAll(rt, |host|) && rt.driver.Some? && Healthy(rt.driver.value)
    requires KernelReady(rt, idx) && !SeededFlag(rt, idx)
    requires rt.driver.value.Slot(idx) in rt.driver.value.mem
    ensures
      var k := rt.descs[idx];
      var m := rt.driver.value.mem[rt.driver.value.Slot(idx)];
      && HostFits(k, |host|) && |m.stage| == |m.vram| == ProjSize(k)
      && var stage := Gather(k.seedFields, host, m.stage);
         var v := k.code(work, stage);
         var marked := MarkSeeded(rt, idx);
         RunMapped(rt, idx, host, work) ==
         if Recordable(rt, idx) then Result(WithMirror(marked, idx, Mirror(v, v)), Scatter(k.fields, v, host), true)
         else Result(WithMirror(rt, idx, Mirror(stage, v)), host, true)
  {
    var k := rt.descs[idx];
    var d := rt.driver.value;
    var m := d.mem[d.Slot(idx)];
    assert HostFits(k, |host|);
    var stage := Gather(k.seedFields, host, m.stage);
    var marked := MarkSeeded(rt, idx);
    var s := SeedOrSync(rt, idx, host);
    assert s == Sync(WithMirror(marked, idx, Mirror(stage, m.vram)), true, []);
    DispatchValue(s, idx, work, 1);
    OneDispatch(k.code, work, stage);
    var v := k.code(work, stage);
    WithMirrorTwice(marked, idx, Mirror(stage, m.vram), Mirror(stage, v));
    var rt' := WithMirror(marked, idx, Mirror(stage, v));
    assert Dispatch(s, idx, work, 1) == (rt', true);
    assert SeededFlag(rt', idx) == Recordable(rt, idx);
    if Recordable(rt, idx) {
      DownloadValue(rt', idx, host);
      WithMirrorTwice(marked, idx, Mirror(stage, v), Mirror(v, v));
    } else {
      assert marked == rt;
      assert Download(rt', idx, host) == Result(rt', host, false);
    }
  }

  // ── A batch on a buffer that exists ──

  /** A batch into a seeded buffer uploads the scalars and runs as often as asked. */
  lemma SyncedBatch(rt: Rt, idx: nat, host: seq<byte>, nx: nat, ny: nat, times: nat)
    requires Valid(rt) && HostFitsAll(rt, |host|) && rt.driver.Some? && Healthy(rt.driver.value) && rt.driver.value.ops.batch
    requires KernelReady(rt, idx) && SeededFlag(rt, idx) && times >= 1
    requires rt.driver.value.Slot(idx) in rt.driver.value.mem
    ensures
      var k := rt.descs[idx];
      var m := rt.driver.value.mem[rt.driver.value.Slot(idx)];
      var fs := SyncList(k.fields);
      && HostFits(k, |host|) && |m.stage| == |m.vram| == ProjSize(k) && RangesFit(DirtyRanges(fs), |m.stage|)
      && var stage := Gather(fs, host, m.stage);
         var v := Iterate(k.code, Work(nx, ny), times, Upload(m.vram, stage, DirtyRanges(fs)));
         LaunchBatch(rt, idx, host, nx, ny, times) == Result(WithMirror(rt, idx, Mirror(stage, v)), host, true)
  {
    hide BatchSequential;
    var k, w, m := rt.descs[idx], Work(nx, ny), rt.driver.value.mem[rt.driver.value.Slot(idx)];
    var fs := SyncList(k.fields);
    assert HostFits(k, |host|);
    DirtyRangesFit(k);
    var stage := Gather(fs, host, m.stage);
    var s := SeedOrSync(rt, idx, host);
    assert s == Sync(WithMirror(rt, idx, Mirror(stage, m.vram)), false, DirtyRanges(fs));
    DispatchValue(s, idx, w, times);
    WithMirrorTwice(rt, idx, Mirror(stage, m.vram),
                    Mirror(stage, Iterate(k.code, w, times, Upload(m.vram, stage, DirtyRanges(fs)))));
  }

  /** A batch into an unseeded buffer seeds it, runs as often as asked, and leaves the host alone. */
  lemma SeedingBatch(rt: Rt, idx: nat, host: seq<byte>, nx: nat, ny: nat, times: nat)
    requires Valid(rt) && HostFitsAll(rt, |host|) && rt.driver.Some? && Healthy(rt.driver.value) && rt.driver.value.ops.batch
    requires KernelReady(rt, idx) && !SeededFlag(rt, idx) && times >= 1
    requires rt.driver.value.Slot(idx) in rt.driver.value.mem
    ensures
      var k := rt.descs[idx];
      var m := rt.driver.value.mem[rt.driver.value.Slot(idx)];
      && HostFits(k, |host|) && |m.stage| == |m.vram| == ProjSize(k)
      && var stage := Gather(k.seedFields, host, m.stage);
         LaunchBatch(rt, idx, host, nx, ny, times) ==
         Result(WithMirror(MarkSeeded(rt, idx), idx, Mirror(stage, Iterate(k.code, Work(nx, ny), times, stage))), host, true)
  {
    hide BatchSequential;
    var k, w, m := rt.descs[idx], Work(nx, ny), rt.driver.value.mem[rt.driver.value.Slot(idx)];
    assert HostFits(k, |host|);
    var stage := Gather(k.seedFields, host, m.stage);
    var s := SeedOrSync(rt, idx, host);
    assert s == Sync(WithMirror(MarkSeeded(rt, idx), idx, Mirror(stage, m.vram)), true, []);
    DispatchValue(s, idx, w, times);
    WithMirrorTwice(MarkSeeded(rt, idx), idx, Mirror(stage, m.vram), Mirror(stage, Iterate(k.code, w, times, stage)));
  }

  // ── A launch without a buffer ──

  /** The kernel's output on the host state, as a full-copy launch computes it. */
  function Once(k: KernelDesc, host: seq<byte>, w: nat): (r: seq<byte>)
    requires HostFits(k, |host|)
    ensures |r| == ProjSize(k)
  {
    k.code(w, Pack(k, host))
  }

  /** What the prime's launch leaves in the new staging mirror: the packed host, or the kernel's output
      on a driver that copies it back. */
  function PrimedStage(k: KernelDesc, host: seq<byte>, w: nat, refills: bool): (r: seq<byte>)
    requires HostFits(k, |host|)
    ensures |r| == ProjSize(k)
  {
    if refills then Once(k, host, w) else Pack(k, host)
  }

  /** The eager launch's effect on the host. */
  lemma EagerValue(rt: Rt, idx: nat, host: seq<byte>, w: nat)
    requires Valid(rt) && HostFitsAll(rt, |host|) && rt.driver.Some? && Healthy(rt.driver.value) && KernelReady(rt, idx)
    ensures HostFits(rt.descs[idx], |host|)
    ensures Launch(rt, idx, host, w).host == Scatter(rt.descs[idx].fields, Once(rt.descs[idx], host, w), host)
  {
  }

  /** The prime succeeds and leaves a buffer with the packed host or the output in the mirror and the
      output in VRAM. */
  lemma PrimeSucceeds(rt: Rt, idx: nat, host: seq<byte>, work: nat)
    requires Valid(rt) && HostFitsAll(rt, |host|) && rt.driver.Some? && Healthy(rt.driver.value)
    requires KernelReady(rt, idx)
    ensures HostFits(rt.descs[idx], |host|)
    ensures var pr, k := Prime(rt, idx, host, work), rt.descs[idx];
      && pr.ok
      && pr.rt == WithMirror(rt, idx, Mirror(PrimedStage(k, host, work, rt.driver.value.ops.launchRefillsStage), Once(k, host, work)))
  {
  }

  ghost predicate HasBuffer(rt: Rt, idx: nat)
    requires rt.driver.Some?
  {
    rt.driver.value.Slot(idx) in rt.driver.value.mem
  }

  /** A launch that finds a buffer runs on it. */
  lemma MappedResident(rt: Rt, idx: nat, host: seq<byte>, nx: nat, ny: nat)
    requires Valid(rt) && HostFitsAll(rt, |host|) && rt.driver.Some? && Healthy(rt.driver.value)
    requires KernelReady(rt, idx) && HasBuffer(rt, idx)
    ensures LaunchResident(rt, idx, host, nx, ny) == RunMapped(rt, idx, host, Work(nx, ny))
  {
    hide RunMapped;
  }

  /** A launch that finds no buffer primes one and then runs on the primed state. */
  lemma PrimedLaunch(rt: Rt, idx: nat, host: seq<byte>, nx: nat, ny: nat)
    requires Valid(rt) && HostFitsAll(rt, |host|) && rt.driver.Some? && Healthy(rt.driver.value)
    requires KernelReady(rt, idx) && !HasBuffer(rt, idx)
    ensures var pr := Prime(rt, idx, host, Work(nx, ny));
      && pr.rt.driver.Some? && Healthy(pr.rt.driver.value) && HasBuffer(pr.rt, idx) && KernelReady(pr.rt, idx)
      && SeededFlag(pr.rt, idx) == SeededFlag(rt, idx) && Recordable(pr.rt, idx) == Recordable(rt, idx)
      && LaunchResident(rt, idx, host, nx, ny) == RunMapped(pr.rt, idx, pr.host, Work(nx, ny))
  {
    PrimeSucceeds(rt, idx, host, Work(nx, ny));
    hide Prime;
  }

  /** Packing reads the covered host bytes only. */
  lemma {:induction false} GatherSame(fs: seq<Field>, host: seq<byte>, host': seq<byte>, proj: seq<byte>)
    requires AllFit(fs, |host|, |proj|) && |host'| == |host|
    requires forall h :: 0 <= h < |host| && HostCovered(fs, h) ==> host'[h] == host[h]
    ensures Gather(fs, host', proj) == Gather(fs, host, proj)
  {
    if fs == [] {
    } else {
      var last, init := fs[|fs| - 1], fs[..|fs| - 1];
      assert last in fs && last.Fits(|host|, |proj|);
      assert forall f :: f in init ==> f in fs;
      GatherSame(init, host, host', proj);
      forall h | last.HasHost(h) ensures host'[h] == host[h] {
        assert HostCovered(fs, h);
      }
      var g := Gather(init, host, proj);
      assert Blit(g, last.projOffset, host', last.hostOffset, last.Size())
          == Blit(g, last.projOffset, host, last.hostOffset, last.Size());
    }
  }

  /** The mirror a kernel's first dispatch runs on when the launch found no buffer: what the prime left,
      with the seed table's bytes of the host put in. */
  function FirstMirror(k: KernelDesc, host: seq<byte>, w: nat, refills: bool): (r: seq<byte>)
    requires HostFits(k, |host|)
    ensures |r| == ProjSize(k)
  {
    Gather(k.seedFields, host, PrimedStage(k, host, w, refills))
  }

  /** A first launch, without a buffer: the kernel runs on the first mirror, and if the seed is recorded
      its outputs reach the host over what the prime left there. */
  lemma FirstLaunch(rt: Rt, idx: nat, host: seq<byte>, nx: nat, ny: nat)
    requires Valid(rt) && HostFitsAll(rt, |host|) && rt.driver.Some? && Healthy(rt.driver.value)
    requires KernelReady(rt, idx) && !SeededFlag(rt, idx) && !HasBuffer(rt, idx)
    ensures HostFits(rt.descs[idx], |host|)
    ensures
      var k, w := rt.descs[idx], Work(nx, ny);
      var stage, primed := FirstMirror(k, host, w, rt.driver.value.ops.launchRefillsStage), Prime(rt, idx, host, w).host;
      var v, marked := k.code(w, stage), MarkSeeded(rt, idx);
      LaunchResident(rt, idx, host, nx, ny) ==
      if Recordable(rt, idx) then Result(WithMirror(marked, idx, Mirror(v, v)), Scatter(k.fields, v, primed), true)
      else Result(WithMirror(rt, idx, Mirror(stage, v)), primed, true)
  {
    var k, w, d := rt.descs[idx], Work(nx, ny), rt.driver.value;
    PrimeSucceeds(rt, idx, host, w);
    PrimedLaunch(rt, idx, host, nx, ny);
    AccelPrime.PrimeIsInvisible(rt, idx, host, w);
    var pr := Prime(rt, idx, host, w);
    hide Prime;
    hide LaunchResident;
    var m := Mirror(PrimedStage(k, host, w, d.ops.launchRefillsStage), Once(k, host, w));
    SeedingLaunch(pr.rt, idx, pr.host, w);
    hide RunMapped;
    GatherSame(k.seedFields, host, pr.host, m.stage);
    var v := k.code(w, FirstMirror(k, host, w, d.ops.launchRefillsStage));
    if Recordable(rt, idx) {
      WithMirrorTwice(MarkSeeded(rt, idx), idx, m, Mirror(v, v));
    } else {
      WithMirrorTwice(rt, idx, m, Mirror(FirstMirror(k, host, w, d.ops.launchRefillsStage), v));
    }
  }
}
