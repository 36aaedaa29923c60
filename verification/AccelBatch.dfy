/** Batched launches: one submission of `times` dispatches against `times` launches. */
module AccelBatch {
  import opened Bytes
  import opened AccelLayout
  import opened AccelModel
  import opened AccelValues
  import AccelCoherence

  /** The kernel leaves the synced scalars of its projection alone. */
  ghost predicate KeepsScalars(k: KernelDesc) {
    forall w: nat, p: seq<byte>, i :: |p| == ProjSize(k) && 0 <= i < |p| && Covered(SyncList(k.fields), i) ==>
      k.code(w, p)[i] == p[i]
  }

  /** The synced scalar bytes of `v` are the host's. */
  ghost predicate ScalarsCurrent(k: KernelDesc, host: seq<byte>, v: seq<byte>) {
    forall f, i :: f in SyncList(k.fields) && f.Has(i) ==>
      0 <= i < |v| && 0 <= f.HostOf(i) < |host| && v[i] == host[f.HostOf(i)]
  }

  /** No scalar of the kernel is among its written fields, on either side of the copy. */
  ghost predicate ScalarsUnwritten(k: KernelDesc) {
    forall f, i :: f in SyncList(k.fields) && f.Has(i) ==> !HostWritten(k.fields, f.HostOf(i))
  }

  /** A driver that can batch, holding the kernel's buffer. */
  ghost predicate BatchReady(rt: Rt, idx: nat, host: seq<byte>) {
    && Valid(rt) && HostFitsAll(rt, |host|) && rt.driver.Some? && Healthy(rt.driver.value) && rt.driver.value.ops.batch
    && KernelReady(rt, idx) && rt.driver.value.Slot(idx) in rt.driver.value.mem && Recordable(rt, idx)
    && var k := rt.descs[idx];
       Consistent(k.fields) && KeepsScalars(k) && ScalarsUnwritten(k)
  }

  // ── Repeating a launch whose scalars are current ──

  lemma {:induction false} IterateKeepsScalars(k: KernelDesc, w: nat, n: nat, v: seq<byte>)
    requires KeepsScalars(k) && |v| == ProjSize(k)
    ensures forall i :: 0 <= i < |v| && Covered(SyncList(k.fields), i) ==> Iterate(k.code, w, n, v)[i] == v[i]
  {
    if n == 0 {
    } else {
      IterateKeepsScalars(k, w, n - 1, v);
    }
  }

  lemma CurrentAfterRun(k: KernelDesc, host: seq<byte>, w: nat, n: nat, v: seq<byte>)
    requires KeepsScalars(k) && |v| == ProjSize(k) && ScalarsCurrent(k, host, v)
    ensures ScalarsCurrent(k, host, Iterate(k.code, w, n, v))
  {
    IterateKeepsScalars(k, w, n, v);
  }

  lemma PackIsIdle(fs: seq<Field>, host: seq<byte>, stage: seq<byte>)
    requires AllFit(fs, |host|, |stage|) && Consistent(fs)
    requires forall f, i :: f in fs && f.Has(i) ==> 0 <= i < |stage| && 0 <= f.HostOf(i) < |host| && stage[i] == host[f.HostOf(i)]
    ensures Gather(fs, host, stage) == stage
  {
    GatherMeaning(fs, host, stage);
    hide Gather;
    hide Consistent;
    forall i | 0 <= i < |stage| ensures Gather(fs, host, stage)[i] == stage[i] {
      if Covered(fs, i) {
        var f :| f in fs && f.Has(i);
      }
    }
  }

  /** Syncing scalars that are already current changes neither mirror. */
  lemma SyncIsIdle(k: KernelDesc, host: seq<byte>, m: Mirror)
    requires DescOk(k) && HostFits(k, |host|) && Consistent(k.fields) && |m.stage| == |m.vram| == ProjSize(k)
    requires ScalarsCurrent(k, host, m.stage) && ScalarsCurrent(k, host, m.vram)
    ensures Gather(SyncList(k.fields), host, m.stage) == m.stage
    ensures RangesFit(DirtyRanges(SyncList(k.fields)), |m.stage|)
    ensures Upload(m.vram, m.stage, DirtyRanges(SyncList(k.fields))) == m.vram
  {
    var fs := SyncList(k.fields);
    hide SyncList;
    PackIsIdle(fs, host, m.stage);
    var stage := Gather(fs, host, m.stage);
    AccelCoherence.SyncMeaning(k, host, m);
    hide Gather;
    hide Upload;
    hide DirtyRanges;
    hide Consistent;
    var v := Upload(m.vram, stage, DirtyRanges(fs));
    forall i | 0 <= i < |v| ensures v[i] == m.vram[i] {
      if Covered(fs, i) {
        var f :| f in fs && f.Has(i);
      }
    }
  }

  ghost function MirrorOf(rt: Rt, idx: nat): Mirror
    requires rt.driver.Some? && rt.driver.value.Slot(idx) in rt.driver.value.mem
  {
    rt.driver.value.mem[rt.driver.value.Slot(idx)]
  }

  lemma ReadyKept(rt: Rt, idx: nat, host: seq<byte>, m: Mirror)
    requires BatchReady(rt, idx, host) && |m.stage| == |m.vram| == ProjSize(rt.descs[idx])
    ensures BatchReady(WithMirror(rt, idx, m), idx, host) && MirrorOf(WithMirror(rt, idx, m), idx) == m
    ensures SeededFlag(WithMirror(rt, idx, m), idx) == SeededFlag(rt, idx)
  {
    BufferReplaced(rt.driver.value, WithMirror(rt, idx, m).driver.value, rt.descs, idx);
  }

  lemma ReadySizes(rt: Rt, idx: nat, host: seq<byte>)
    requires BatchReady(rt, idx, host)
    ensures var k := rt.descs[idx];
      && DescOk(k) && HostFits(k, |host|)
      && |MirrorOf(rt, idx).stage| == |MirrorOf(rt, idx).vram| == ProjSize(k)
  {
  }

  /** One launch from a seeded buffer with current scalars is one dispatch. */
  lemma LaunchSynced(rt: Rt, idx: nat, host: seq<byte>, nx: nat, ny: nat)
    requires BatchReady(rt, idx, host) && SeededFlag(rt, idx)
    requires var m := MirrorOf(rt, idx);
             ScalarsCurrent(rt.descs[idx], host, m.stage) && ScalarsCurrent(rt.descs[idx], host, m.vram)
    ensures var m := MirrorOf(rt, idx);
            LaunchResident(rt, idx, host, nx, ny)
            == Result(WithMirror(rt, idx, Mirror(m.stage, rt.descs[idx].code(Work(nx, ny), m.vram))), host, true)
  {
    ReadySizes(rt, idx, host);
    SyncedLaunch(rt, idx, host, Work(nx, ny));
    SyncIsIdle(rt.descs[idx], host, MirrorOf(rt, idx));
  }

  lemma SequentialStep(rt: Rt, idx: nat, host: seq<byte>, nx: nat, ny: nat, times: nat, rt1: Rt, host1: seq<byte>)
    requires Valid(rt) && HostFitsAll(rt, |host|) && times >= 1
    requires LaunchResident(rt, idx, host, nx, ny) == Result(rt1, host1, true)
    ensures Valid(rt1) && HostFitsAll(rt1, |host1|)
    ensures BatchSequential(rt, idx, host, nx, ny, times) == BatchSequential(rt1, idx, host1, nx, ny, times - 1)
  {
  }

  /** Launching `times` times from a seeded buffer with current scalars dispatches `times` times. */
  lemma {:induction false} RepeatSynced(rt: Rt, idx: nat, host: seq<byte>, nx: nat, ny: nat, times: nat)
    requires BatchReady(rt, idx, host) && SeededFlag(rt, idx)
    requires var m := MirrorOf(rt, idx);
             ScalarsCurrent(rt.descs[idx], host, m.stage) && ScalarsCurrent(rt.descs[idx], host, m.vram)
    ensures var m := MirrorOf(rt, idx);
            BatchSequential(rt, idx, host, nx, ny, times) ==
            Result(WithMirror(rt, idx, Mirror(m.stage, Iterate(rt.descs[idx].code, Work(nx, ny), times, m.vram))), host, true)
    decreases times
  {
    hide LaunchResident;
    var k, w, m := rt.descs[idx], Work(nx, ny), MirrorOf(rt, idx);
    if times == 0 {
      assert rt.driver.value.mem[rt.driver.value.Slot(idx) := m] == rt.driver.value.mem;
    } else {
      var v1 := k.code(w, m.vram);
      var rt1 := WithMirror(rt, idx, Mirror(m.stage, v1));
      FirstSynced(rt, idx, host, nx, ny);
      SequentialStep(rt, idx, host, nx, ny, times, rt1, host);
      RepeatSynced(rt1, idx, host, nx, ny, times - 1);
      MirrorAfter(rt, idx, k.code, w, times - 1, m.stage, m.vram);
    }
  }

  lemma FirstSynced(rt: Rt, idx: nat, host: seq<byte>, nx: nat, ny: nat)
    requires BatchReady(rt, idx, host) && SeededFlag(rt, idx)
    requires var m := MirrorOf(rt, idx);
             ScalarsCurrent(rt.descs[idx], host, m.stage) && ScalarsCurrent(rt.descs[idx], host, m.vram)
    ensures var k, m := rt.descs[idx], MirrorOf(rt, idx);
      var m1 := Mirror(m.stage, k.code(Work(nx, ny), m.vram));
      var rt1 := WithMirror(rt, idx, m1);
      && LaunchResident(rt, idx, host, nx, ny) == Result(rt1, host, true)
      && BatchReady(rt1, idx, host) && SeededFlag(rt1, idx) && MirrorOf(rt1, idx) == m1
      && ScalarsCurrent(k, host, m1.stage) && ScalarsCurrent(k, host, m1.vram)
  {
    var k, m := rt.descs[idx], MirrorOf(rt, idx);
    ReadySizes(rt, idx, host);
    LaunchSynced(rt, idx, host, nx, ny);
    ReadyKept(rt, idx, host, Mirror(m.stage, k.code(Work(nx, ny), m.vram)));
    OneDispatch(k.code, Work(nx, ny), m.vram);
    CurrentAfterRun(k, host, Work(nx, ny), 1, m.vram);
  }

  /** Dispatching once and then `n` times is dispatching `n + 1` times. */
  lemma MirrorAfter(rt: Rt, idx: nat, code: Code, w: nat, n: nat, stage: seq<byte>, u: seq<byte>)
    requires rt.driver.Some?
    ensures WithMirror(WithMirror(rt, idx, Mirror(stage, code(w, u))), idx, Mirror(stage, Iterate(code, w, n, code(w, u))))
         == WithMirror(rt, idx, Mirror(stage, Iterate(code, w, n + 1, u)))
  {
    IterateShift(code, w, n, u);
    WithMirrorTwice(rt, idx, Mirror(stage, code(w, u)), Mirror(stage, Iterate(code, w, n + 1, u)));
  }

  /** What the scalar sync leaves in staging and in VRAM has current scalars. */
  lemma SyncedScalars(rt: Rt, idx: nat, host: seq<byte>)
    requires BatchReady(rt, idx, host)
    ensures var k, m := rt.descs[idx], MirrorOf(rt, idx);
      var fs := SyncList(k.fields);
      && AllFit(fs, |host|, |m.stage|) && |m.stage| == |m.vram| == ProjSize(k) && RangesFit(DirtyRanges(fs), |m.stage|)
      && var stage := Gather(fs, host, m.stage);
         ScalarsCurrent(k, host, stage) && ScalarsCurrent(k, host, Upload(m.vram, stage, DirtyRanges(fs)))
  {
    ReadySizes(rt, idx, host);
    var k, m := rt.descs[idx], MirrorOf(rt, idx);
    var fs := SyncList(k.fields);
    GatherMeaning(fs, host, m.stage);
    AccelCoherence.SyncMeaning(k, host, m);
    forall f, i | f in fs && f.Has(i)
      ensures 0 <= i < |m.stage| && 0 <= f.HostOf(i) < |host|
    {
      assert f.Fits(|host|, |m.stage|);
    }
  }

  // ── The seeded case: the two are the same call ──

  /** The scalar sync leaves `stage` in the mirror and `u` in VRAM. */
  ghost predicate AfterSync(rt: Rt, idx: nat, host: seq<byte>, stage: seq<byte>, u: seq<byte>)
    requires BatchReady(rt, idx, host)
  {
    var k, m := rt.descs[idx], MirrorOf(rt, idx);
    var fs := SyncList(k.fields);
    && AllFit(fs, |host|, |m.stage|) && |m.stage| == |m.vram| && RangesFit(DirtyRanges(fs), |m.stage|)
    && stage == Gather(fs, host, m.stage) && u == Upload(m.vram, stage, DirtyRanges(fs))
  }

  /** The first launch from a seeded buffer. */
  lemma SyncedFirst(rt: Rt, idx: nat, host: seq<byte>, nx: nat, ny: nat, stage: seq<byte>, u: seq<byte>)
    requires BatchReady(rt, idx, host) && SeededFlag(rt, idx) && AfterSync(rt, idx, host, stage, u)
    ensures var k := rt.descs[idx];
      var m1 := Mirror(stage, k.code(Work(nx, ny), u));
      var rt1 := WithMirror(rt, idx, m1);
      && |u| == |stage| == ProjSize(k)
      && LaunchResident(rt, idx, host, nx, ny) == Result(rt1, host, true)
      && BatchReady(rt1, idx, host) && SeededFlag(rt1, idx) && MirrorOf(rt1, idx) == m1
      && ScalarsCurrent(k, host, stage) && ScalarsCurrent(k, host, m1.vram)
  {
    ReadySizes(rt, idx, host);
    ReadyKept(rt, idx, host, Mirror(stage, rt.descs[idx].code(Work(nx, ny), u)));
    SyncedLaunch(rt, idx, host, Work(nx, ny));
    SyncedScalars(rt, idx, host);
    OneDispatch(rt.descs[idx].code, Work(nx, ny), u);
    CurrentAfterRun(rt.descs[idx], host, Work(nx, ny), 1, u);
  }

  /** From a seeded buffer, `times >= 1` launches sync once in effect and dispatch `times` times. */
  lemma SequentialValue(rt: Rt, idx: nat, host: seq<byte>, nx: nat, ny: nat, times: nat, stage: seq<byte>, u: seq<byte>)
    requires BatchReady(rt, idx, host) && SeededFlag(rt, idx) && times >= 1
    requires AfterSync(rt, idx, host, stage, u)
    ensures BatchSequential(rt, idx, host, nx, ny, times) ==
            Result(WithMirror(rt, idx, Mirror(stage, Iterate(rt.descs[idx].code, Work(nx, ny), times, u))), host, true)
  {
    hide LaunchResident;
    hide BatchSequential;
    hide Gather;
    hide Upload;
    var k, w := rt.descs[idx], Work(nx, ny);
    SyncedFirst(rt, idx, host, nx, ny, stage, u);
    var rt1 := WithMirror(rt, idx, Mirror(stage, k.code(w, u)));
    SequentialStep(rt, idx, host, nx, ny, times, rt1, host);
    RepeatSynced(rt1, idx, host, nx, ny, times - 1);
    MirrorAfter(rt, idx, k.code, w, times - 1, stage, u);
  }

  /** A batch from a seeded buffer syncs once and dispatches `times` times. */
  lemma BatchValue(rt: Rt, idx: nat, host: seq<byte>, nx: nat, ny: nat, times: nat, stage: seq<byte>, u: seq<byte>)
    requires BatchReady(rt, idx, host) && SeededFlag(rt, idx) && times >= 1
    requires AfterSync(rt, idx, host, stage, u)
    ensures LaunchBatch(rt, idx, host, nx, ny, times) ==
            Result(WithMirror(rt, idx, Mirror(stage, Iterate(rt.descs[idx].code, Work(nx, ny), times, u))), host, true)
  {
    SyncedBatch(rt, idx, host, nx, ny, times);
  }

  /** On a seeded buffer a batch is `times` launches, in every respect. */
  lemma SeededBatch(rt: Rt, idx: nat, host: seq<byte>, nx: nat, ny: nat, times: nat)
    requires BatchReady(rt, idx, host) && SeededFlag(rt, idx) && times >= 1
    ensures LaunchBatch(rt, idx, host, nx, ny, times) == BatchSequential(rt, idx, host, nx, ny, times)
    ensures LaunchBatch(rt, idx, host, nx, ny, times).ok
  {
    SyncedScalars(rt, idx, host);
    var fs, m := SyncList(rt.descs[idx].fields), MirrorOf(rt, idx);
    var stage := Gather(fs, host, m.stage);
    var u := Upload(m.vram, stage, DirtyRanges(fs));
    SequentialValue(rt, idx, host, nx, ny, times, stage, u);
    BatchValue(rt, idx, host, nx, ny, times, stage, u);
  }

  // ── The unseeded case ──

  /** What seeding would put into the staging mirror. */
  ghost function Seeded(rt: Rt, idx: nat, host: seq<byte>): (r: seq<byte>)
    requires BatchReady(rt, idx, host)
    ensures |r| == ProjSize(rt.descs[idx])
  {
    ReadySizes(rt, idx, host);
    Gather(rt.descs[idx].seedFields, host, MirrorOf(rt, idx).stage)
  }

  /** A batch from an unseeded buffer seeds, dispatches `times` times and leaves the host alone. */
  lemma SeedingBatchValue(rt: Rt, idx: nat, host: seq<byte>, nx: nat, ny: nat, times: nat)
    requires BatchReady(rt, idx, host) && !SeededFlag(rt, idx) && times >= 1
    ensures var stage := Seeded(rt, idx, host);
      LaunchBatch(rt, idx, host, nx, ny, times) ==
      Result(WithMirror(MarkSeeded(rt, idx), idx, Mirror(stage, Iterate(rt.descs[idx].code, Work(nx, ny), times, stage))), host, true)
  {
    SeedingBatch(rt, idx, host, nx, ny, times);
  }

  /** The first of several launches from an unseeded buffer seeds, dispatches and pulls. */
  lemma FirstLaunchValue(rt: Rt, idx: nat, host: seq<byte>, nx: nat, ny: nat)
    requires BatchReady(rt, idx, host) && !SeededFlag(rt, idx)
    ensures var k := rt.descs[idx];
      var v := k.code(Work(nx, ny), Seeded(rt, idx, host));
      && AllFit(k.fields, |host|, |v|)
      && LaunchResident(rt, idx, host, nx, ny) ==
         Result(WithMirror(MarkSeeded(rt, idx), idx, Mirror(v, v)), Scatter(k.fields, v, host), true)
  {
    ReadySizes(rt, idx, host);
    SeedingLaunch(rt, idx, host, Work(nx, ny));
  }

  lemma MarkedReady(rt: Rt, idx: nat, host: seq<byte>, host': seq<byte>, m: Mirror)
    requires BatchReady(rt, idx, host) && |host'| == |host| && |m.stage| == |m.vram| == ProjSize(rt.descs[idx])
    ensures var rt' := WithMirror(MarkSeeded(rt, idx), idx, m);
      BatchReady(rt', idx, host') && SeededFlag(rt', idx) && MirrorOf(rt', idx) == m
  {
    assert BatchReady(MarkSeeded(rt, idx), idx, host');
    ReadyKept(MarkSeeded(rt, idx), idx, host', m);
  }

  /** Unpacking the outputs does not move the scalars. */
  lemma ScalarsSurviveUnpack(k: KernelDesc, host: seq<byte>, out: seq<byte>, v: seq<byte>)
    requires HostFits(k, |host|) && |out| == ProjSize(k) && ScalarsUnwritten(k)
    ensures AllFit(k.fields, |host|, |out|)
    ensures ScalarsCurrent(k, Scatter(k.fields, out, host), v) <==> ScalarsCurrent(k, host, v)
  {
    ScatterKeeps(k.fields, out, host);
    var host' := Scatter(k.fields, out, host);
    forall f, i | f in SyncList(k.fields) && f.Has(i)
      ensures 0 <= f.HostOf(i) < |host| && host'[f.HostOf(i)] == host[f.HostOf(i)]
    {
      assert f.Fits(|host|, ProjSize(k));
    }
  }

  /** Pulling `v` after pulling `v0` is pulling `v`. */
  lemma PullTwice(fs: seq<Field>, host: seq<byte>, v0: seq<byte>, v: seq<byte>)
    requires |v0| == |v| && AllFit(fs, |host|, |v|) && Consistent(fs)
    ensures Scatter(fs, v, Scatter(fs, v0, host)) == Scatter(fs, v, host)
  {
    var h1 := Scatter(fs, v0, host);
    ScatterMeaning(fs, v0, host);
    ScatterMeaning(fs, v, h1);
    ScatterMeaning(fs, v, host);
    forall h | 0 <= h < |host| ensures Scatter(fs, v, h1)[h] == Scatter(fs, v, host)[h] {
      if HostWritten(fs, h) {
        var f :| f in fs && f.isWrite && f.HasHost(h);
        HostProj(f);
        assert f.Has(f.ProjOf(h)) && f.HostOf(f.ProjOf(h)) == h;
      }
    }
  }

  /** From an unseeded buffer whose seed leaves current scalars, the launches end with the batch's
      VRAM; the host has the first launch's outputs. */
  lemma SequentialFromUnseeded(rt: Rt, idx: nat, host: seq<byte>, nx: nat, ny: nat, times: nat)
    requires BatchReady(rt, idx, host) && !SeededFlag(rt, idx) && times >= 1
    requires ScalarsCurrent(rt.descs[idx], host, Seeded(rt, idx, host))
    ensures var k, w, stage := rt.descs[idx], Work(nx, ny), Seeded(rt, idx, host);
      var v1 := k.code(w, stage);
      && AllFit(k.fields, |host|, |v1|)
      && BatchSequential(rt, idx, host, nx, ny, times) ==
         Result(WithMirror(MarkSeeded(rt, idx), idx, Mirror(v1, Iterate(k.code, w, times, stage))), Scatter(k.fields, v1, host), true)
  {
    hide LaunchResident;
    hide BatchSequential;
    var k, w, stage := rt.descs[idx], Work(nx, ny), Seeded(rt, idx, host);
    ReadySizes(rt, idx, host);
    FirstLaunchValue(rt, idx, host, nx, ny);
    var v1 := k.code(w, stage);
    var host1 := Scatter(k.fields, v1, host);
    var marked := MarkSeeded(rt, idx);
    MarkedReady(rt, idx, host, host1, Mirror(v1, v1));
    OneDispatch(k.code, w, stage);
    CurrentAfterRun(k, host, w, 1, stage);
    ScalarsSurviveUnpack(k, host, v1, v1);
    SequentialStep(rt, idx, host, nx, ny, times, WithMirror(marked, idx, Mirror(v1, v1)), host1);
    RepeatSynced(WithMirror(marked, idx, Mirror(v1, v1)), idx, host1, nx, ny, times - 1);
    IterateShift(k.code, w, times - 1, stage);
    WithMirrorTwice(marked, idx, Mirror(v1, v1), Mirror(v1, Iterate(k.code, w, times, stage)));
  }

  /** Packing scalars from a host whose outputs were unpacked is packing them from the host before. */
  lemma SameScalars(k: KernelDesc, host: seq<byte>, out: seq<byte>, v: seq<byte>)
    requires HostFits(k, |host|) && |out| == |v| == ProjSize(k) && ScalarsUnwritten(k) && Consistent(k.fields)
    ensures AllFit(k.fields, |host|, |out|) && AllFit(SyncList(k.fields), |host|, |v|)
    ensures Gather(SyncList(k.fields), Scatter(k.fields, out, host), v) == Gather(SyncList(k.fields), host, v)
  {
    var fs, host' := SyncList(k.fields), Scatter(k.fields, out, host);
    ScatterKeeps(k.fields, out, host);
    GatherMeaning(fs, host, v);
    GatherMeaning(fs, host', v);
    var l, r := Gather(fs, host', v), Gather(fs, host, v);
    hide Gather;
    hide Scatter;
    hide SyncList;
    forall i | 0 <= i < |v| ensures l[i] == r[i] {
      if Covered(fs, i) {
        var f :| f in fs && f.Has(i);
        assert f.Fits(|host|, |v|);
      }
    }
  }

  /** From an unseeded buffer, two or more launches seed, run, put the host's scalars in, and run on. */
  lemma UnseededSequentialValue(rt: Rt, idx: nat, host: seq<byte>, nx: nat, ny: nat, times: nat)
    requires BatchReady(rt, idx, host) && !SeededFlag(rt, idx) && times >= 2
    ensures var k, w := rt.descs[idx], Work(nx, ny);
      var v1 := k.code(w, Seeded(rt, idx, host));
      && AllFit(k.fields, |host|, |v1|) && AllFit(SyncList(k.fields), |host|, |v1|)
      && var u := Gather(SyncList(k.fields), host, v1);
         BatchSequential(rt, idx, host, nx, ny, times) ==
         Result(WithMirror(MarkSeeded(rt, idx), idx, Mirror(u, Iterate(k.code, w, times - 1, u))), Scatter(k.fields, v1, host), true)
  {
    hide LaunchResident;
    hide BatchSequential;
    var k, w := rt.descs[idx], Work(nx, ny);
    ReadySizes(rt, idx, host);
    FirstLaunchValue(rt, idx, host, nx, ny);
    var v1 := k.code(w, Seeded(rt, idx, host));
    var host1, marked := Scatter(k.fields, v1, host), MarkSeeded(rt, idx);
    var rt1 := WithMirror(marked, idx, Mirror(v1, v1));
    MarkedReady(rt, idx, host, host1, Mirror(v1, v1));
    SequentialStep(rt, idx, host, nx, ny, times, rt1, host1);
    SameScalars(k, host, v1, v1);
    AccelCoherence.SyncedVram(k, host1, Mirror(v1, v1));
    hide Gather;
    hide Scatter;
    hide Upload;
    var u := Gather(SyncList(k.fields), host, v1);
    SequentialValue(rt1, idx, host1, nx, ny, times - 1, u, u);
    WithMirrorTwice(marked, idx, Mirror(v1, v1), Mirror(u, Iterate(k.code, w, times - 1, u)));
  }

  /** A single launch from an unseeded buffer. */
  lemma OneUnseededLaunch(rt: Rt, idx: nat, host: seq<byte>, nx: nat, ny: nat)
    requires BatchReady(rt, idx, host) && !SeededFlag(rt, idx)
    ensures var k := rt.descs[idx];
      var v1 := k.code(Work(nx, ny), Seeded(rt, idx, host));
      && AllFit(k.fields, |host|, |v1|)
      && BatchSequential(rt, idx, host, nx, ny, 1) ==
         Result(WithMirror(MarkSeeded(rt, idx), idx, Mirror(v1, v1)), Scatter(k.fields, v1, host), true)
  {
    hide LaunchResident;
    FirstLaunchValue(rt, idx, host, nx, ny);
    var k := rt.descs[idx];
    var v1 := k.code(Work(nx, ny), Seeded(rt, idx, host));
    SequentialStep(rt, idx, host, nx, ny, 1, WithMirror(MarkSeeded(rt, idx), idx, Mirror(v1, v1)), Scatter(k.fields, v1, host));
  }

  // ── The theorems ──

  /** A batch of `times >= 1` dispatches against `times` launches, from any state of the buffer: the
      same VRAM, and the same runtime and host after the outputs are pulled. Two or more from an
      unseeded buffer need seeding to bring the scalars along. */
  lemma BatchMatchesSequential(rt: Rt, idx: nat, host: seq<byte>, nx: nat, ny: nat, times: nat)
    requires BatchReady(rt, idx, host) && times >= 1
    requires SeededFlag(rt, idx) || times == 1 || ScalarsCurrent(rt.descs[idx], host, Seeded(rt, idx, host))
    ensures var b, s := LaunchBatch(rt, idx, host, nx, ny, times), BatchSequential(rt, idx, host, nx, ny, times);
      && b.ok && s.ok
      && b.rt.driver.value.Slot(idx) in b.rt.driver.value.mem && s.rt.driver.value.Slot(idx) in s.rt.driver.value.mem
      && MirrorOf(b.rt, idx).vram == MirrorOf(s.rt, idx).vram
      && Download(b.rt, idx, b.host) == Download(s.rt, idx, s.host)
  {
    var k, w := rt.descs[idx], Work(nx, ny);
    ReadySizes(rt, idx, host);
    if SeededFlag(rt, idx) {
      SeededBatch(rt, idx, host, nx, ny, times);
    } else {
      var stage := Seeded(rt, idx, host);
      var marked := MarkSeeded(rt, idx);
      var v1 := k.code(w, stage);
      var v := Iterate(k.code, w, times, stage);
      SeedingBatchValue(rt, idx, host, nx, ny, times);
      if times == 1 {
        OneDispatch(k.code, w, stage);
        OneUnseededLaunch(rt, idx, host, nx, ny);
      } else {
        SequentialFromUnseeded(rt, idx, host, nx, ny, times);
      }
      var host1 := Scatter(k.fields, v1, host);
      PulledOutputs(rt, idx, host, host, Mirror(stage, v));
      PulledOutputs(rt, idx, host, host1, Mirror(v1, v));
      PullTwice(k.fields, host, v1, v);
    }
  }

  lemma PulledOutputs(rt: Rt, idx: nat, host: seq<byte>, host': seq<byte>, m: Mirror)
    requires BatchReady(rt, idx, host) && |host'| == |host| && |m.stage| == |m.vram| == ProjSize(rt.descs[idx])
    ensures AllFit(rt.descs[idx].fields, |host'|, |m.vram|)
    ensures var rt' := WithMirror(MarkSeeded(rt, idx), idx, m);
      && Valid(rt') && HostFitsAll(rt', |host'|) && MirrorOf(rt', idx) == m
      && Download(rt', idx, host') ==
         Result(WithMirror(MarkSeeded(rt, idx), idx, Mirror(m.vram, m.vram)), Scatter(rt.descs[idx].fields, m.vram, host'), true)
  {
    MarkedReady(rt, idx, host, host', m);
    var rt' := WithMirror(MarkSeeded(rt, idx), idx, m);
    DownloadValue(rt', idx, host');
    WithMirrorTwice(MarkSeeded(rt, idx), idx, m, Mirror(m.vram, m.vram));
  }

  /** Every launch from a seeded buffer ends with the host's scalars in VRAM. */
  lemma {:induction false} SequentialScalars(rt: Rt, idx: nat, host: seq<byte>, nx: nat, ny: nat, times: nat)
    requires BatchReady(rt, idx, host) && SeededFlag(rt, idx) && times >= 1
    ensures var s := BatchSequential(rt, idx, host, nx, ny, times);
      && s.ok && s.rt.driver.value.Slot(idx) in s.rt.driver.value.mem
      && ScalarsCurrent(rt.descs[idx], host, MirrorOf(s.rt, idx).vram)
  {
    SyncedScalars(rt, idx, host);
    var k, m := rt.descs[idx], MirrorOf(rt, idx);
    var fs := SyncList(k.fields);
    var stage := Gather(fs, host, m.stage);
    var u := Upload(m.vram, stage, DirtyRanges(fs));
    SequentialValue(rt, idx, host, nx, ny, times, stage, u);
    CurrentAfterRun(k, host, Work(nx, ny), times, u);
  }

  /** The launches after the first one run from a seeded buffer. */
  lemma AfterTheFirst(rt: Rt, idx: nat, host: seq<byte>, nx: nat, ny: nat, times: nat)
    requires BatchReady(rt, idx, host) && !SeededFlag(rt, idx) && times >= 2
    ensures var s := BatchSequential(rt, idx, host, nx, ny, times);
      && s.ok && s.rt.driver.value.Slot(idx) in s.rt.driver.value.mem
      && ScalarsCurrent(rt.descs[idx], host, MirrorOf(s.rt, idx).vram)
  {
    hide LaunchResident;
    var k := rt.descs[idx];
    ReadySizes(rt, idx, host);
    FirstLaunchValue(rt, idx, host, nx, ny);
    var v := k.code(Work(nx, ny), Seeded(rt, idx, host));
    var host1 := Scatter(k.fields, v, host);
    var rt1 := WithMirror(MarkSeeded(rt, idx), idx, Mirror(v, v));
    MarkedReady(rt, idx, host, host1, Mirror(v, v));
    SequentialStep(rt, idx, host, nx, ny, times, rt1, host1);
    SequentialScalars(rt1, idx, host1, nx, ny, times - 1);
    ScalarsSurviveUnpack(k, host, v, MirrorOf(BatchSequential(rt1, idx, host1, nx, ny, times - 1).rt, idx).vram);
  }

  /** Exactly when a first batch of two or more dispatches agrees with as many launches: when seeding
      leaves the host's scalars in the staging mirror. The batch never syncs them again. */
  lemma UnseededBatchMatchesIff(rt: Rt, idx: nat, host: seq<byte>, nx: nat, ny: nat, times: nat)
    requires BatchReady(rt, idx, host) && !SeededFlag(rt, idx) && times >= 2
    ensures var b, s := LaunchBatch(rt, idx, host, nx, ny, times), BatchSequential(rt, idx, host, nx, ny, times);
      && b.ok && s.ok
      && b.rt.driver.value.Slot(idx) in b.rt.driver.value.mem && s.rt.driver.value.Slot(idx) in s.rt.driver.value.mem
      && (MirrorOf(b.rt, idx).vram == MirrorOf(s.rt, idx).vram <==>
          ScalarsCurrent(rt.descs[idx], host, Seeded(rt, idx, host)))
  {
    var k, stage := rt.descs[idx], Seeded(rt, idx, host);
    if ScalarsCurrent(k, host, stage) {
      BatchMatchesSequential(rt, idx, host, nx, ny, times);
    } else {
      SeedingBatchValue(rt, idx, host, nx, ny, times);
      IterateKeepsScalars(k, Work(nx, ny), times, stage);
      AfterTheFirst(rt, idx, host, nx, ny, times);
      var v := Iterate(k.code, Work(nx, ny), times, stage);
      assert ScalarsCurrent(k, host, v) ==> ScalarsCurrent(k, host, stage) by {
        forall f, i | f in SyncList(k.fields) && f.Has(i) && 0 <= i < |stage|
          ensures v[i] == stage[i]
        {
        }
      }
    }
  }

  /** What the two bring to the host from an unseeded buffer. */
  lemma UnseededHosts(rt: Rt, idx: nat, host: seq<byte>, nx: nat, ny: nat, times: nat)
    requires BatchReady(rt, idx, host) && !SeededFlag(rt, idx) && times >= 2
    ensures var b, s := LaunchBatch(rt, idx, host, nx, ny, times), BatchSequential(rt, idx, host, nx, ny, times);
      var k, w, stage := rt.descs[idx], Work(nx, ny), Seeded(rt, idx, host);
      var v1 := k.code(w, stage);
      && b.ok && s.ok
      && AllFit(SyncList(k.fields), |host|, |stage|) && AllFit(k.fields, |host|, |stage|)
      && Download(b.rt, idx, b.host).host == Scatter(k.fields, Iterate(k.code, w, times, stage), host)
      && Download(s.rt, idx, s.host).host ==
         Scatter(k.fields, Iterate(k.code, w, times - 1, Gather(SyncList(k.fields), host, v1)), Scatter(k.fields, v1, host))
  {
    var k, w, stage := rt.descs[idx], Work(nx, ny), Seeded(rt, idx, host);
    ReadySizes(rt, idx, host);
    SeedingBatchValue(rt, idx, host, nx, ny, times);
    UnseededSequentialValue(rt, idx, host, nx, ny, times);
    hide LaunchBatch;
    hide BatchSequential;
    hide Download;
    var v1 := k.code(w, stage);
    var u := Gather(SyncList(k.fields), host, v1);
    PulledOutputs(rt, idx, host, host, Mirror(stage, Iterate(k.code, w, times, stage)));
    PulledOutputs(rt, idx, host, Scatter(k.fields, v1, host), Mirror(u, Iterate(k.code, w, times - 1, u)));
  }

  /** … and exactly when the downloaded hosts agree: when running on the seeded scalars and, after the
      first dispatch, on the host's makes the same written bytes. */
  lemma UnseededBatchHostsIff(rt: Rt, idx: nat, host: seq<byte>, nx: nat, ny: nat, times: nat)
    requires BatchReady(rt, idx, host) && !SeededFlag(rt, idx) && times >= 2
    ensures var b, s := LaunchBatch(rt, idx, host, nx, ny, times), BatchSequential(rt, idx, host, nx, ny, times);
      var k, w, stage := rt.descs[idx], Work(nx, ny), Seeded(rt, idx, host);
      && AllFit(SyncList(k.fields), |host|, |stage|)
      && (Download(b.rt, idx, b.host).host == Download(s.rt, idx, s.host).host <==>
          SameWritten(k.fields, Iterate(k.code, w, times, stage),
                      Iterate(k.code, w, times - 1, Gather(SyncList(k.fields), host, k.code(w, stage)))))
  {
    var k, w, stage := rt.descs[idx], Work(nx, ny), Seeded(rt, idx, host);
    UnseededHosts(rt, idx, host, nx, ny, times);
    hide LaunchBatch;
    hide BatchSequential;
    hide Download;
    var v1 := k.code(w, stage);
    ScatterKeeps(k.fields, v1, host);
    SameOutputsIff(k.fields, Iterate(k.code, w, times, stage), host,
                   Iterate(k.code, w, times - 1, Gather(SyncList(k.fields), host, v1)), Scatter(k.fields, v1, host));
  }

  // ── A kernel that shows it ──

  const FACTOR := Field(ScalarField, 0, 1, 1, false, 0)
  const TARGET := Field(ArrayField, 1, 1, 1, true, 1)

  const FILL: Code := (w: nat, p: seq<byte>) => if |p| < 2 then p else p[1 := p[0]]

  /** Copies a scalar into an array; the seed table lists arrays only. */
  const FILL_KERNEL := KernelDesc([FACTOR, TARGET], [TARGET], 2, true, FILL)

  lemma FillDescOk()
    ensures DescOk(FILL_KERNEL) && HostFits(FILL_KERNEL, 2) && |Scalars(FILL_KERNEL.fields)| <= MAX_DIRTY
  {
    assert FACTOR.Size() == TARGET.Size() == 1 && FILL_KERNEL.fields[..1] == [FACTOR] && [FACTOR][..0] == [];
    assert |Scalars([FACTOR])| <= 1;
  }

  lemma FillSyncs()
    ensures SyncList(FILL_KERNEL.fields) == [FACTOR]
  {
    assert FILL_KERNEL.fields[..1] == [FACTOR] && [FACTOR][..0] == [];
    assert Scalars([]) == [] && Scalars([FACTOR]) == [FACTOR];
  }

  lemma FillKernelOk()
    ensures Consistent(FILL_KERNEL.fields) && KeepsScalars(FILL_KERNEL) && ScalarsUnwritten(FILL_KERNEL)
  {
    FillSyncs();
    hide SyncList;
    assert FACTOR.Size() == TARGET.Size() == 1;
    forall i | Covered([FACTOR], i) ensures i == 0 {
    }
  }

  /** What seeding, the scalar sync and unpacking make of two bytes. */
  lemma FillCopies(host: seq<byte>, v: seq<byte>)
    requires |host| == |v| == 2
    ensures AllFit([FACTOR], 2, 2) && AllFit([TARGET], 2, 2) && AllFit([FACTOR, TARGET], 2, 2)
    ensures Gather([FACTOR], host, v) == [host[0], v[1]]
    ensures Gather([TARGET], host, v) == [v[0], host[1]]
    ensures Scatter([FACTOR, TARGET], v, host) == [host[0], v[1]]
  {
    assert FACTOR.Size() == TARGET.Size() == 1;
    assert [FACTOR][..0] == [] && [TARGET][..0] == [] && [FACTOR, TARGET][..1] == [FACTOR];
    assert Gather([], host, v) == v && Scatter([], v, host) == host && Scatter([FACTOR], v, host) == host;
    assert Gather([FACTOR], host, v) == Blit(v, 0, host, 0, 1) == [host[0], v[1]];
    assert Gather([TARGET], host, v) == Blit(v, 1, host, 1, 1) == [v[0], host[1]];
    assert Scatter([FACTOR, TARGET], v, host) == Blit(host, 1, v, 1, 1) == [host[0], v[1]];
  }

  /** Running the kernel leaves the scalar and copies it. */
  lemma FillRuns(w: nat, v: seq<byte>)
    requires |v| == 2
    ensures FILL(w, v) == [v[0], v[0]] && Iterate(FILL, w, 1, v) == [v[0], v[0]] && Iterate(FILL, w, 2, v) == [v[0], v[0]]
  {
    OneDispatch(FILL, w, v);
    assert Iterate(FILL, w, 2, v) == FILL(w, Iterate(FILL, w, 1, v));
  }

  /** Two dispatches of a first batch fill the array with the scalar the mirror had before; the second of
      two launches fills it with the host's. */
  lemma FirstBatchUsesTheOldScalar(rt: Rt, idx: nat, host: seq<byte>)
    requires BatchReady(rt, idx, host) && !SeededFlag(rt, idx) && rt.descs[idx] == FILL_KERNEL && |host| == 2
    ensures var b, s := LaunchBatch(rt, idx, host, 1, 1, 2), BatchSequential(rt, idx, host, 1, 1, 2);
      && |MirrorOf(rt, idx).stage| == 2
      && b.ok && s.ok
      && Download(b.rt, idx, b.host).host == [host[0], MirrorOf(rt, idx).stage[0]]
      && Download(s.rt, idx, s.host).host == [host[0], host[0]]
  {
    var fs, w, m := [FACTOR, TARGET], Work(1, 1), MirrorOf(rt, idx);
    ReadySizes(rt, idx, host);
    UnseededHosts(rt, idx, host, 1, 1, 2);
    FillSyncs();
    FillCopies(host, m.stage);
    hide BatchReady;
    hide LaunchBatch;
    hide BatchSequential;
    hide Download;
    hide Gather;
    hide Scatter;
    var old0 := m.stage[0];
    FillRuns(w, [old0, host[1]]);
    FillCopies(host, [old0, old0]);
    FillRuns(w, [host[0], old0]);
    FillCopies([host[0], old0], [host[0], host[0]]);
  }
}
