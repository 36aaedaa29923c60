/** The main theorem of the accelerator runtime: a resident session ends with the host
    state the full-copy runtime would have left. */
module AccelRefinement {
  import opened Bytes
  import opened AccelLayout
  import opened AccelModel
  import opened AccelSession
  import opened AccelCoherence
  import opened AccelValues
  import AccelPrime

  // ── Every action keeps coherence ──

  lemma WrittenIsStale(p: Program, k: KernelDesc, h: int, stale: set<int>)
    requires ProgramOk(p) && k in p.descs && HostWritten(k.fields, h) && WrittenSet(p, k) <= stale
    ensures StaleHost(p, h, stale)
  {
    assert KernelOk(p, k);
    var f :| f in k.fields && f.isWrite && f.HasHost(h);
    assert f in p.layout && f.Fits(p.hostLen, p.size) && f.Has(f.ProjOf(h));
    assert Written(k.fields, f.ProjOf(h));
  }

  lemma WrittenAreArrays(p: Program, k: KernelDesc)
    requires ProgramOk(p) && k in p.descs
    ensures ArraysOnly(p, WrittenSet(p, k))
  {
    assert KernelOk(p, k);
  }

  /** The eager host has moved on bytes that the kernel writes, at most. */
  ghost predicate SameOutside(k: KernelDesc, eager: seq<byte>, eager': seq<byte>) {
    |eager| == |eager'| && forall h :: 0 <= h < |eager| && !HostWritten(k.fields, h) ==> eager'[h] == eager[h]
  }

  lemma {:induction false} LaunchesStayInside(k: KernelDesc, h: seq<byte>, w: nat, times: nat)
    requires HostFits(k, |h|)
    ensures SameOutside(k, h, EagerLaunches(k, h, w, times))
    decreases times
  {
    if times == 0 {
    } else {
      ScatterKeeps(k.fields, k.code(w, Pack(k, h)), h);
      hide Scatter;
      LaunchesStayInside(k, EagerLaunch(k, h, w), w, times - 1);
    }
  }

  lemma OneLaunch(k: KernelDesc, h: seq<byte>, w: nat)
    requires HostFits(k, |h|)
    ensures EagerLaunches(k, h, w, 1) == EagerLaunch(k, h, w)
  {
    assert EagerLaunches(k, EagerLaunch(k, h, w), w, 0) == EagerLaunch(k, h, w);
  }

  /** The eager host moves on written bytes only, and those are now stale. */
  lemma HostFallsBehind(p: Program, k: KernelDesc, host: seq<byte>, eager: seq<byte>, eager': seq<byte>, stale: set<int>)
    requires ProgramOk(p) && k in p.descs && SameOutside(k, eager, eager') && HostCurrent(p, host, eager, stale)
    ensures HostCurrent(p, host, eager', stale + WrittenSet(p, k))
  {
    var stale' := stale + WrittenSet(p, k);
    forall h | 0 <= h < |host| && !StaleHost(p, h, stale')
      ensures host[h] == eager'[h]
    {
      assert !HostWritten(k.fields, h) by {
        if HostWritten(k.fields, h) {
          WrittenIsStale(p, k, h, stale');
        }
      }
      assert !StaleHost(p, h, stale);
    }
  }

  /** Replacing one kernel's buffer keeps the session. */
  lemma SessionKept(p: Program, rt: Rt, idx: nat, m: Mirror)
    requires InSession(p, rt) && idx < |p.descs| && |m.stage| == |m.vram| == p.size
    ensures InSession(p, WithMirror(rt, idx, m))
  {
    assert KernelOk(p, p.descs[idx]);
    BufferReplaced(rt.driver.value, WithMirror(rt, idx, m).driver.value, rt.descs, idx);
  }

  lemma SessionMarked(p: Program, rt: Rt, idx: nat)
    requires InSession(p, rt) && idx < |p.descs|
    ensures idx < |rt.residentSeeded| && InSession(p, MarkSeeded(rt, idx))
  {
    hide ProgramOk;
  }

  /** Unpacked outputs are as good on the host as in VRAM. */
  lemma PulledBytes(p: Program, k: KernelDesc, host: seq<byte>, eager: seq<byte>, v: seq<byte>,
                    current: set<int>, stale: set<int>)
    requires ProgramOk(p) && k in p.descs && VramCurrent(p, v, eager, current) && HostCurrent(p, host, eager, stale)
    requires AllFit(k.fields, |host|, |v|)
    ensures HostCurrent(p, Scatter(k.fields, v, host), eager, (stale - WrittenSet(p, k)) + (WrittenSet(p, k) - current))
  {
    assert KernelOk(p, k);
    ConsistentPart(p, k.fields);
    ScatterMeaning(k.fields, v, host);
    var host' := Scatter(k.fields, v, host);
    forall h | 0 <= h < |host'| && !StaleHost(p, h, (stale - WrittenSet(p, k)) + (WrittenSet(p, k) - current))
      ensures host'[h] == eager[h]
    {
      if HostWritten(k.fields, h) {
        var f :| f in k.fields && f.isWrite && f.HasHost(h);
        var i := f.ProjOf(h);
        assert f in p.layout && f.Fits(p.hostLen, p.size) && f.Has(i) && f.HostOf(i) == h && Written(k.fields, i);
        assert i in WrittenSet(p, k);
      } else {
        forall g | g in p.layout && g.HasHost(h)
          ensures g.ProjOf(h) !in WrittenSet(p, k)
        {
          HostProj(g);
          WrittenBothSides(p, k, g, g.ProjOf(h));
        }
      }
    }
  }

  /** What another buffer holds stays as good as it was, up to the bytes the launch wrote elsewhere. */
  lemma OthersFallBehind(p: Program, k: KernelDesc, v: seq<byte>, eager: seq<byte>, eager': seq<byte>, current: set<int>)
    requires ProgramOk(p) && k in p.descs && SameOutside(k, eager, eager') && VramCurrent(p, v, eager, current)
    ensures VramCurrent(p, v, eager', current - WrittenSet(p, k))
  {
    forall f, i | f in p.layout && f.kind == ArrayField && f.Has(i) && i in current - WrittenSet(p, k)
      ensures 0 <= i < |v| && 0 <= f.HostOf(i) < |eager'| && v[i] == eager'[f.HostOf(i)]
    {
      WrittenBothSides(p, k, f, i);
    }
  }

  /** All buffers after a launch or a batch that left `m` in kernel `idx`'s. */
  lemma RunDescribed(p: Program, rt: Rt, eager: seq<byte>, eager': seq<byte>, t: Track, idx: nat, m: Mirror, j: nat)
    requires InSession(p, rt) && t.ops == rt.driver.value.ops && Usable(p, rt.kernels, t.ops, idx)
    requires idx < |rt.residentSeeded| && SameOutside(p.descs[idx], eager, eager')
    requires j < |p.descs| && Recordable(rt, j) && Describes(p, rt, eager, t.At(j), j)
    requires VramCurrent(p, m.vram, eager', Held(p, p.descs[idx], t, t.At(idx)) + WrittenSet(p, p.descs[idx]))
    ensures var rt' := WithMirror(MarkSeeded(rt, idx), idx, m);
      Recordable(rt', j) && Describes(p, rt', eager', AfterRun(p, t, idx).At(j), j)
  {
    hide VramCurrent;
    hide Held;
    var k, t' := p.descs[idx], AfterRun(p, t, idx);
    if t.Slot(j) != t.Slot(idx) {
      assert t'.At(j) == Without(t.At(j), WrittenSet(p, k));
      if t.At(j).Seeded? {
        OthersFallBehind(p, k, rt.driver.value.mem[j].vram, eager, eager', t.At(j).current);
      }
    }
  }

  /** The dispatch: what the launch found up to date stays so, and the outputs join it. */
  lemma DispatchedBytes(p: Program, k: KernelDesc, v: seq<byte>, eager: seq<byte>, t: Track, b: Buffer, w: nat)
    requires ProgramOk(p) && k in p.descs && HostFits(k, p.hostLen) && ReadsOnly(k, p.size, ReadSet(p, k, t, b))
    requires VramCurrent(p, v, eager, Held(p, k, t, b)) && InputsCurrent(k, v, eager, ReadSet(p, k, t, b))
    ensures VramCurrent(p, k.code(w, v), EagerLaunch(k, eager, w), Held(p, k, t, b) + WrittenSet(p, k))
  {
    DispatchMatches(p, k, v, eager, ReadSet(p, k, t, b), w);
    hide ReadsOnly;
    hide Held;
    DispatchKeepsCurrent(p, k, v, eager, Held(p, k, t, b), w);
  }

  /** Kernel `idx` of a session, ready to run. */
  lemma UsableIsReady(p: Program, rt: Rt, idx: nat)
    requires InSession(p, rt) && Usable(p, rt.kernels, rt.driver.value.ops, idx)
    ensures KernelReady(rt, idx) && Recordable(rt, idx) && idx < |rt.residentSeeded| && p.descs[idx] in p.descs
    ensures ProgramOk(p) && KernelOk(p, p.descs[idx]) && HostFits(p.descs[idx], p.hostLen) && HostFitsAll(rt, p.hostLen)
  {
    ProgramHostFits(p);
  }

  /** What a launch or a batch leaves, put together. */
  lemma RanIsCoherent(p: Program, rt: Rt, eager: seq<byte>, eager': seq<byte>, t: Track, idx: nat, m: Mirror,
                      host': seq<byte>, stale: set<int>)
    requires InSession(p, rt) && t.ops == rt.driver.value.ops && Usable(p, rt.kernels, t.ops, idx)
    requires idx < |rt.residentSeeded| && SameOutside(p.descs[idx], eager, eager')
    requires forall j :: 0 <= j < |p.descs| && Recordable(rt, j) ==> Describes(p, rt, eager, t.At(j), j)
    requires |m.stage| == |m.vram| == p.size && ArraysOnly(p, t.stale) && stale <= t.stale + WrittenSet(p, p.descs[idx])
    requires VramCurrent(p, m.vram, eager', Held(p, p.descs[idx], t, t.At(idx)) + WrittenSet(p, p.descs[idx]))
    requires HostCurrent(p, host', eager', stale)
    ensures Coherent(p, WithMirror(MarkSeeded(rt, idx), idx, m), host', eager', AfterRun(p, t, idx).(stale := stale))
  {
    hide VramCurrent;
    hide HostCurrent;
    hide Held;
    var k := p.descs[idx];
    assert k in p.descs && KernelOk(p, k);
    SessionMarked(p, rt, idx);
    SessionKept(p, MarkSeeded(rt, idx), idx, m);
    WrittenAreArrays(p, k);
    var rt', t' := WithMirror(MarkSeeded(rt, idx), idx, m), AfterRun(p, t, idx);
    forall j | 0 <= j < |p.descs| && Recordable(rt', j)
      ensures Describes(p, rt', eager', t'.(stale := stale).At(j), j)
    {
      RunDescribed(p, rt, eager, eager', t, idx, m, j);
      assert t'.(stale := stale).At(j) == t'.At(j);
    }
    hide ProgramOk;
  }

  /** A launch into a seeded buffer keeps the session coherent. */
  lemma SyncedStep(p: Program, rt: Rt, host: seq<byte>, eager: seq<byte>, t: Track, idx: nat, nx: nat, ny: nat)
    requires Coherent(p, rt, host, eager, t) && t.At(idx).Seeded? && Allowed(p, rt.kernels, t, RunKernel(idx, nx, ny))
    requires HostFitsAll(rt, |host|) && forall k :: k in p.descs ==> HostFits(k, p.hostLen)
    ensures var r := LaunchResident(rt, idx, host, nx, ny);
      r.ok && Coherent(p, r.rt, r.host, EagerStep(p, eager, RunKernel(idx, nx, ny)), AfterRun(p, t, idx))
  {
    var k, w, current := p.descs[idx], Work(nx, ny), t.At(idx).current;
    UsableIsReady(p, rt, idx);
    hide ProgramOk;
    hide KernelOk;
    hide LaunchResident;
    assert Describes(p, rt, eager, t.At(idx), idx);
    var m := rt.driver.value.mem[rt.driver.value.Slot(idx)];
    MappedResident(rt, idx, host, nx, ny);
    SyncedLaunch(rt, idx, host, w);
    hide RunMapped;
    hide Launch;
    hide Prime;
    SyncMakesCurrent(p, k, host, m, eager, t, current);
    hide Gather;
    hide Upload;
    var fs := SyncList(k.fields);
    var stage := Gather(fs, host, m.stage);
    var u := Upload(m.vram, stage, DirtyRanges(fs));
    DispatchedBytes(p, k, u, eager, t, Seeded(current), w);
    hide ReadsOnly;
    hide VramCurrent;
    hide Held;
    OneLaunch(k, eager, w);
    LaunchesStayInside(k, eager, w, 1);
    HostFallsBehind(p, k, host, eager, EagerLaunch(k, eager, w), t.stale);
    hide HostCurrent;
    hide EagerLaunch;
    assert MarkSeeded(rt, idx) == rt;
    RanIsCoherent(p, rt, eager, EagerLaunch(k, eager, w), t, idx, Mirror(stage, k.code(w, u)), host, AfterRun(p, t, idx).stale);
  }

  /** The host after a launch that seeds: its outputs are unpacked over `before`, which differs from the
      host on written bytes at most. */
  lemma SeededHost(p: Program, k: KernelDesc, host: seq<byte>, before: seq<byte>, eager: seq<byte>,
                   eager': seq<byte>, v: seq<byte>, held: set<int>, stale: set<int>)
    requires ProgramOk(p) && k in p.descs && AllFit(k.fields, p.hostLen, p.size) && SameOutside(k, eager, eager')
    requires HostCurrent(p, host, eager, stale) && SameOutside(k, host, before)
    requires VramCurrent(p, v, eager', held + WrittenSet(p, k))
    ensures HostCurrent(p, Scatter(k.fields, v, before), eager', stale - WrittenSet(p, k))
  {
    var w := WrittenSet(p, k);
    assert HostCurrent(p, before, eager, stale + w) by {
      forall h | 0 <= h < |before| && !StaleHost(p, h, stale + w)
        ensures before[h] == eager[h]
      {
        if HostWritten(k.fields, h) {
          WrittenIsStale(p, k, h, stale + w);
        }
        assert !StaleHost(p, h, stale);
      }
    }
    HostFallsBehind(p, k, before, eager, eager', stale + w);
    hide HostCurrent;
    PulledBytes(p, k, before, eager', v, held + w, stale + w + w);
    assert (stale + w + w - w) + (w - (held + w)) == stale - w;
  }

  /** A launch that seeds: the mirror `stage` its dispatch runs on, and the host `before` the outputs are
      unpacked over. */
  lemma SeedingValue(p: Program, rt: Rt, host: seq<byte>, eager: seq<byte>, t: Track, idx: nat, nx: nat, ny: nat)
    returns (stage: seq<byte>, before: seq<byte>)
    requires Coherent(p, rt, host, eager, t) && !t.At(idx).Seeded? && Usable(p, rt.kernels, t.ops, idx)
    requires HostFitsAll(rt, |host|) && HostFits(p.descs[idx], p.hostLen)
    ensures idx < |rt.residentSeeded| && |before| == |host| && |stage| == p.size && AllFit(p.descs[idx].fields, |host|, p.size)
    ensures forall h :: 0 <= h < |host| && !HostWritten(p.descs[idx].fields, h) ==> before[h] == host[h]
    ensures var k := p.descs[idx];
      && VramCurrent(p, stage, eager, Held(p, k, t, t.At(idx))) && InputsCurrent(k, stage, eager, ReadSet(p, k, t, t.At(idx)))
      && var v := k.code(Work(nx, ny), stage);
         LaunchResident(rt, idx, host, nx, ny)
         == Result(WithMirror(MarkSeeded(rt, idx), idx, Mirror(v, v)), Scatter(k.fields, v, before), true)
  {
    var k, w, b := p.descs[idx], Work(nx, ny), t.At(idx);
    UsableIsReady(p, rt, idx);
    assert Describes(p, rt, eager, b, idx);
    hide ProgramOk;
    if b.Absent? {
      FirstLaunch(rt, idx, host, nx, ny);
      AccelPrime.PrimeIsInvisible(rt, idx, host, w);
      hide *;
      PrimeMakesCurrent(p, k, host, w, eager, t);
      stage, before := FirstMirror(k, host, w, t.ops.launchRefillsStage), Prime(rt, idx, host, w).host;
    } else {
      var m := rt.driver.value.mem[rt.driver.value.Slot(idx)];
      SeedingLaunch(rt, idx, host, w);
      MappedResident(rt, idx, host, nx, ny);
      hide *;
      SeedMakesCurrent(p, k, host, m.stage, eager, t);
      stage, before := Gather(k.seedFields, host, m.stage), host;
    }
  }

  /** A launch into an unseeded buffer, or without one, keeps the session coherent and brings its outputs
      to the host. */
  lemma SeedingStep(p: Program, rt: Rt, host: seq<byte>, eager: seq<byte>, t: Track, idx: nat, nx: nat, ny: nat)
    requires Coherent(p, rt, host, eager, t) && !t.At(idx).Seeded? && Allowed(p, rt.kernels, t, RunKernel(idx, nx, ny))
    requires HostFitsAll(rt, |host|) && forall k :: k in p.descs ==> HostFits(k, p.hostLen)
    ensures var r := LaunchResident(rt, idx, host, nx, ny);
      r.ok && Coherent(p, r.rt, r.host, EagerStep(p, eager, RunKernel(idx, nx, ny)), AfterRun(p, t, idx))
  {
    hide LaunchResident;
    hide ProgramOk;
    var k, w, b := p.descs[idx], Work(nx, ny), t.At(idx);
    var stage, before := SeedingValue(p, rt, host, eager, t, idx, nx, ny);
    DispatchedBytes(p, k, stage, eager, t, b, w);
    hide ReadsOnly;
    hide Held;
    var v := k.code(w, stage);
    OneLaunch(k, eager, w);
    LaunchesStayInside(k, eager, w, 1);
    var eager' := EagerLaunch(k, eager, w);
    hide EagerLaunch;
    SeededHost(p, k, host, before, eager, eager', v, Held(p, k, t, b), t.stale);
    hide HostCurrent;
    hide VramCurrent;
    hide Scatter;
    RanIsCoherent(p, rt, eager, eager', t, idx, Mirror(v, v), Scatter(k.fields, v, before), AfterRun(p, t, idx).stale);
  }

  /** A permitted launch keeps the session coherent, whatever state its buffer is in. */
  lemma RunStep(p: Program, rt: Rt, host: seq<byte>, eager: seq<byte>, t: Track, idx: nat, nx: nat, ny: nat)
    requires Coherent(p, rt, host, eager, t) && Allowed(p, rt.kernels, t, RunKernel(idx, nx, ny))
    requires HostFitsAll(rt, |host|) && forall k :: k in p.descs ==> HostFits(k, p.hostLen)
    ensures var r := LaunchResident(rt, idx, host, nx, ny);
      r.ok && Coherent(p, r.rt, r.host, EagerStep(p, eager, RunKernel(idx, nx, ny)), AfterRun(p, t, idx))
  {
    if t.At(idx).Seeded? {
      SyncedStep(p, rt, host, eager, t, idx, nx, ny);
    } else {
      SeedingStep(p, rt, host, eager, t, idx, nx, ny);
    }
  }

  lemma ReadsMore(p: Program, k: KernelDesc, on: set<int>, more: set<int>)
    requires ReadsOnly(k, p.size, on) && on <= more
    ensures ReadsOnly(k, p.size, more)
  {
    forall w: nat, u: seq<byte>, v: seq<byte> | |u| == p.size && Agree(u, v, more)
      ensures forall i :: 0 <= i < p.size && Written(k.fields, i) ==> k.code(w, u)[i] == k.code(w, v)[i]
    {
      assert Agree(u, v, on);
    }
  }

  // ── Batches ──

  /** The buffer `v` is in step with the eager host on `held`, and has what the kernel reads. */
  ghost predicate ReadyToRun(p: Program, k: KernelDesc, v: seq<byte>, eager: seq<byte>, held: set<int>) {
    && ProgramOk(p) && k in p.descs && HostFits(k, |eager|)
    && VramCurrent(p, v, eager, held) && InputsCurrent(k, v, eager, CoveredSet(p, k.fields) * held)
    && ReadsOnly(k, p.size, CoveredSet(p, k.fields) * held)
  }

  /** One dispatch of a row, and the buffer is ready for the next one. */
  lemma NextDispatch(p: Program, k: KernelDesc, v: seq<byte>, eager: seq<byte>, held: set<int>, w: nat)
    requires ReadyToRun(p, k, v, eager, held)
    ensures HostFits(k, |eager|) && ReadyToRun(p, k, k.code(w, v), EagerLaunch(k, eager, w), held + WrittenSet(p, k))
  {
    var own, all := CoveredSet(p, k.fields), held + WrittenSet(p, k);
    DispatchMatches(p, k, v, eager, own * held, w);
    ReadsMore(p, k, own * held, own * all);
    hide ReadsOnly;
    DispatchKeepsCurrent(p, k, v, eager, held, w);
    DispatchKeepsInputs(p, k, v, eager, held, w);
  }

  /** Dispatches in a row: the buffer stays in step with as many full-copy launches. */
  lemma {:induction false} IteratedBytes(p: Program, k: KernelDesc, v: seq<byte>, eager: seq<byte>, held: set<int>, w: nat, times: nat)
    requires HostFits(k, |eager|) && ReadyToRun(p, k, v, eager, held) && times >= 1
    ensures ReadyToRun(p, k, Iterate(k.code, w, times, v), EagerLaunches(k, eager, w, times), held + WrittenSet(p, k))
    decreases times
  {
    hide ReadyToRun;
    hide EagerLaunch;
    hide WrittenSet;
    hide HostFits;
    NextDispatch(p, k, v, eager, held, w);
    if times == 1 {
      OneDispatch(k.code, w, v);
      OneLaunch(k, eager, w);
    } else {
      var all := held + WrittenSet(p, k);
      IteratedBytes(p, k, k.code(w, v), EagerLaunch(k, eager, w), all, w, times - 1);
      assert all + WrittenSet(p, k) == all;
      IterateShift(k.code, w, times - 1, v);
    }
  }

  /** A batch on a buffer that exists keeps the session coherent. */
  lemma BatchOnBuffer(p: Program, rt: Rt, host: seq<byte>, eager: seq<byte>, t: Track, idx: nat, nx: nat, ny: nat, times: nat)
    requires Coherent(p, rt, host, eager, t) && !t.At(idx).Absent? && Allowed(p, rt.kernels, t, RunBatch(idx, nx, ny, times))
    requires HostFitsAll(rt, |host|) && (forall k :: k in p.descs ==> HostFits(k, p.hostLen)) && t.ops.batch
    ensures var r := LaunchBatch(rt, idx, host, nx, ny, times);
      r.ok && Coherent(p, r.rt, r.host, EagerLaunches(p.descs[idx], eager, Work(nx, ny), times), AfterBatch(p, t, idx))
  {
    hide LaunchBatch;
    var k, w, b := p.descs[idx], Work(nx, ny), t.At(idx);
    UsableIsReady(p, rt, idx);
    assert Describes(p, rt, eager, b, idx);
    var m := rt.driver.value.mem[rt.driver.value.Slot(idx)];
    var stage, u: seq<byte>;
    hide ProgramOk;
    hide KernelOk;
    if b.Seeded? {
      SyncedBatch(rt, idx, host, nx, ny, times);
      SyncMakesCurrent(p, k, host, m, eager, t, b.current);
      assert MarkSeeded(rt, idx) == rt;
      stage := Gather(SyncList(k.fields), host, m.stage);
      u := Upload(m.vram, stage, DirtyRanges(SyncList(k.fields)));
    } else {
      SeedingBatch(rt, idx, host, nx, ny, times);
      SeedMakesCurrent(p, k, host, m.stage, eager, t);
      stage := Gather(k.seedFields, host, m.stage);
      u := stage;
    }
    hide Gather;
    hide Upload;
    var v, eager' := Iterate(k.code, w, times, u), EagerLaunches(k, eager, w, times);
    IteratedBytes(p, k, u, eager, Held(p, k, t, b), w, times);
    hide ReadsOnly;
    hide Held;
    LaunchesStayInside(k, eager, w, times);
    hide VramCurrent;
    hide EagerLaunches;
    hide SameOutside;
    HostFallsBehind(p, k, host, eager, eager', t.stale);
    hide HostCurrent;
    RanIsCoherent(p, rt, eager, eager', t, idx, Mirror(stage, v), host, t.stale + WrittenSet(p, k));
  }

  /** The bookkeeping `t'` claims no more than `t`. */
  ghost predicate NoMore(p: Program, t: Track, t': Track) {
    && t'.ops == t.ops && t.stale <= t'.stale
    && forall j :: 0 <= j < |p.descs| ==>
         t'.At(j) == t.At(j) || (t'.At(j).Seeded? && t.At(j).Seeded? && t'.At(j).current <= t.At(j).current)
  }

  /** Coherence asks less of bookkeeping that claims less. */
  lemma ClaimsLess(p: Program, rt: Rt, host: seq<byte>, eager: seq<byte>, t: Track, t': Track)
    requires Coherent(p, rt, host, eager, t) && NoMore(p, t, t') && ArraysOnly(p, t'.stale)
    ensures Coherent(p, rt, host, eager, t')
  {
    hide ProgramOk;
    forall h | 0 <= h < |host| && !StaleHost(p, h, t'.stale) ensures !StaleHost(p, h, t.stale) {
    }
    forall j | 0 <= j < |p.descs| && Recordable(rt, j) ensures Describes(p, rt, eager, t'.At(j), j) {
      assert Describes(p, rt, eager, t.At(j), j);
    }
  }

  /** A launch and a batch of the same kernel claim no less than the batch alone. */
  lemma TwiceClaimsMore(p: Program, t: Track, idx: nat)
    requires idx < |p.descs|
    ensures NoMore(p, AfterBatch(p, AfterRun(p, t, idx), idx), AfterBatch(p, t, idx))
  {
    hide Held;
    var w, t1 := WrittenSet(p, p.descs[idx]), AfterRun(p, t, idx);
    var twice, once := AfterBatch(p, t1, idx), AfterBatch(p, t, idx);
    forall j | 0 <= j < |p.descs|
      ensures once.At(j) == twice.At(j) || (once.At(j).Seeded? && twice.At(j).Seeded? && once.At(j).current <= twice.At(j).current)
    {
      if t.Slot(j) != t.Slot(idx) {
        assert t1.At(j) == Without(t.At(j), w);
        assert AfterRun(p, t1, idx).At(j) == Without(t1.At(j), w);
        if t.At(j).Seeded? {
          assert t.At(j).current - w - w == t.At(j).current - w;
        }
      } else {
        SeededAgain(p, p.descs[idx], t1, t1.At(idx));
      }
    }
  }

  lemma SeededAgain(p: Program, k: KernelDesc, t: Track, b: Buffer)
    requires b.Seeded?
    ensures b.current <= Held(p, k, t, b)
  {
  }

  /** What the kernel reads stays in its buffer. */
  lemma StillReads(p: Program, t: Track, idx: nat)
    requires idx < |p.descs| && ReadsOnly(p.descs[idx], p.size, ReadSet(p, p.descs[idx], t, t.At(idx)))
    ensures AfterRun(p, t, idx).ops == t.ops
    ensures ReadsOnly(p.descs[idx], p.size, ReadSet(p, p.descs[idx], AfterRun(p, t, idx), AfterRun(p, t, idx).At(idx)))
  {
    ReadsMore(p, p.descs[idx], ReadSet(p, p.descs[idx], t, t.At(idx)),
              ReadSet(p, p.descs[idx], AfterRun(p, t, idx), AfterRun(p, t, idx).At(idx)));
  }

  /** A batch claims no more than a launch. */
  lemma BatchClaimsLess(p: Program, t: Track, idx: nat)
    requires idx < |p.descs|
    ensures NoMore(p, AfterRun(p, t, idx), AfterBatch(p, t, idx))
  {
    forall j | 0 <= j < |p.descs| ensures AfterBatch(p, t, idx).At(j) == AfterRun(p, t, idx).At(j) {
    }
    hide Held;
  }

  /** What a batch leaves out of date is in arrays. */
  lemma StaleArrays(p: Program, t: Track, idx: nat)
    requires ProgramOk(p) && idx < |p.descs| && ArraysOnly(p, t.stale)
    ensures ArraysOnly(p, AfterBatch(p, t, idx).stale)
  {
    WrittenAreArrays(p, p.descs[idx]);
  }

  lemma CoherentParts(p: Program, rt: Rt, host: seq<byte>, eager: seq<byte>, t: Track)
    requires Coherent(p, rt, host, eager, t)
    ensures InSession(p, rt) && |host| == |eager| == p.hostLen && ArraysOnly(p, t.stale)
  {
  }

  /** Launches one by one keep the session coherent. */
  lemma {:induction false} OneByOne(p: Program, rt: Rt, host: seq<byte>, eager: seq<byte>, t: Track, idx: nat, nx: nat, ny: nat, times: nat)
    requires Coherent(p, rt, host, eager, t) && Allowed(p, rt.kernels, t, RunBatch(idx, nx, ny, times))
    requires HostFitsAll(rt, |host|) && forall k :: k in p.descs ==> HostFits(k, p.hostLen)
    ensures var r := BatchSequential(rt, idx, host, nx, ny, times);
      r.ok && Coherent(p, r.rt, r.host, EagerLaunches(p.descs[idx], eager, Work(nx, ny), times), AfterBatch(p, t, idx))
    decreases times
  {
    hide LaunchResident;
    hide ReadsOnly;
    hide Coherent;
    hide AfterRun;
    hide AfterBatch;
    hide ReadSet;
    var k, w, t1 := p.descs[idx], Work(nx, ny), AfterRun(p, t, idx);
    CoherentParts(p, rt, host, eager, t);
    StaleArrays(p, t, idx);
    RunStep(p, rt, host, eager, t, idx, nx, ny);
    hide EagerLaunch;
    hide NoMore;
    var s, eager1 := LaunchResident(rt, idx, host, nx, ny), EagerLaunch(k, eager, w);
    if times == 1 {
      OneLaunch(k, eager, w);
      assert BatchSequential(s.rt, idx, s.host, nx, ny, 0) == Result(s.rt, s.host, true);
      BatchClaimsLess(p, t, idx);
      ClaimsLess(p, s.rt, s.host, eager1, t1, AfterBatch(p, t, idx));
    } else {
      StillReads(p, t, idx);
      OneByOne(p, s.rt, s.host, eager1, t1, idx, nx, ny, times - 1);
      var r := BatchSequential(s.rt, idx, s.host, nx, ny, times - 1);
      TwiceClaimsMore(p, t, idx);
      ClaimsLess(p, r.rt, r.host, EagerLaunches(k, eager1, w, times - 1), AfterBatch(p, t1, idx), AfterBatch(p, t, idx));
    }
  }

  /** A permitted batch keeps the session coherent, whether the driver can batch or not. */
  lemma BatchStep(p: Program, rt: Rt, host: seq<byte>, eager: seq<byte>, t: Track, idx: nat, nx: nat, ny: nat, times: nat)
    requires Coherent(p, rt, host, eager, t) && Allowed(p, rt.kernels, t, RunBatch(idx, nx, ny, times))
    requires HostFitsAll(rt, |host|) && forall k :: k in p.descs ==> HostFits(k, p.hostLen)
    ensures var r := LaunchBatch(rt, idx, host, nx, ny, times);
      r.ok && Coherent(p, r.rt, r.host, EagerLaunches(p.descs[idx], eager, Work(nx, ny), times), AfterBatch(p, t, idx))
  {
    UsableIsReady(p, rt, idx);
    assert Describes(p, rt, eager, t.At(idx), idx);
    if t.ops.batch && !t.At(idx).Absent? {
      BatchOnBuffer(p, rt, host, eager, t, idx, nx, ny, times);
    } else {
      OneByOne(p, rt, host, eager, t, idx, nx, ny, times);
      hide BatchSequential;
    }
  }

  // ── Edits, downloads, pushes and fallbacks ──

  /** All fields name the same host byte for a projection byte, so one edited copy is every copy. */
  lemma EditedIsOneByte(p: Program, f: Field, i: int, bytes: map<nat, byte>)
    requires ProgramOk(p) && f in p.layout && f.Has(i)
    ensures EditedByte(p, bytes, i) <==> f.HostOf(i) in bytes
  {
    if EditedByte(p, bytes, i) {
      var g :| g in p.layout && g.Has(i) && g.HostOf(i) in bytes;
      assert g.HostOf(i) == f.HostOf(i);
    }
  }

  /** An edit leaves the unedited copies in VRAM as good as they were. */
  lemma EditedVram(p: Program, v: seq<byte>, eager: seq<byte>, current: set<int>, bytes: map<nat, byte>)
    requires ProgramOk(p) && VramCurrent(p, v, eager, current)
    ensures VramCurrent(p, v, Overlay(eager, bytes), current - EditedSet(p, bytes))
  {
    forall f, i | f in p.layout && f.kind == ArrayField && f.Has(i) && i in current - EditedSet(p, bytes)
      ensures f.HostOf(i) !in bytes
    {
      assert 0 <= i < p.size && !EditedByte(p, bytes, i);
    }
  }

  /** … and the edited bytes of the host up to date. */
  lemma EditedHost(p: Program, host: seq<byte>, eager: seq<byte>, stale: set<int>, bytes: map<nat, byte>)
    requires ProgramOk(p) && HostCurrent(p, host, eager, stale)
    ensures HostCurrent(p, Overlay(host, bytes), Overlay(eager, bytes), stale - EditedSet(p, bytes))
  {
    forall h | 0 <= h < |host| && !StaleHost(p, h, stale - EditedSet(p, bytes)) && h !in bytes
      ensures !StaleHost(p, h, stale)
    {
      if StaleHost(p, h, stale) {
        var f :| f in p.layout && f.HasHost(h) && f.ProjOf(h) in stale;
        var i := f.ProjOf(h);
        assert f.Has(i) && f.HostOf(i) == h;
        EditedIsOneByte(p, f, i, bytes);
      }
    }
  }

  /** Editing host bytes, of any field, keeps the session coherent. */
  lemma EditStep(p: Program, rt: Rt, host: seq<byte>, eager: seq<byte>, t: Track, bytes: map<nat, byte>)
    requires Coherent(p, rt, host, eager, t)
    ensures Coherent(p, rt, Overlay(host, bytes), Overlay(eager, bytes), AfterEdit(p, t, bytes))
  {
    hide ProgramOk;
    EditedHost(p, host, eager, t.stale, bytes);
    hide HostCurrent;
    hide VramCurrent;
    var t' := AfterEdit(p, t, bytes);
    forall idx | 0 <= idx < |p.descs| && Recordable(rt, idx)
      ensures Describes(p, rt, Overlay(eager, bytes), t'.At(idx), idx)
    {
      assert Describes(p, rt, eager, t.At(idx), idx);
      if t.At(idx).Seeded? {
        EditedVram(p, rt.driver.value.mem[rt.driver.value.Slot(idx)].vram, eager, t.At(idx).current, bytes);
      }
    }
  }

  /** Pulling a kernel's outputs makes their host bytes as good as the buffer's. */
  lemma PullStep(p: Program, rt: Rt, host: seq<byte>, eager: seq<byte>, t: Track, idx: nat)
    requires Coherent(p, rt, host, eager, t) && Usable(p, rt.kernels, t.ops, idx) && HostFitsAll(rt, |host|)
    ensures var r := Download(rt, idx, host);
      Coherent(p, r.rt, r.host, eager, AfterPull(p, t, idx))
  {
    UsableIsReady(p, rt, idx);
    assert Describes(p, rt, eager, t.At(idx), idx);
    if t.At(idx).Seeded? {
      var k := p.descs[idx];
      DownloadValue(rt, idx, host);
      var v := rt.driver.value.mem[rt.driver.value.Slot(idx)].vram;
      hide Download;
      PulledBytes(p, k, host, eager, v, t.At(idx).current, t.stale);
      WrittenAreArrays(p, k);
      hide HostCurrent;
      SameVramSameSession(p, rt, eager, t, idx, Mirror(v, v));
    }
  }

  /** Replacing a mirror's staging half leaves all buffers as the bookkeeping describes them. */
  lemma SameVramSameSession(p: Program, rt: Rt, eager: seq<byte>, t: Track, idx: nat, m: Mirror)
    requires InSession(p, rt) && t.ops == rt.driver.value.ops && idx < |p.descs| && HasBuffer(rt, idx)
    requires |m.stage| == p.size && m.vram == rt.driver.value.mem[rt.driver.value.Slot(idx)].vram && |m.vram| == p.size
    requires forall j :: 0 <= j < |p.descs| && Recordable(rt, j) ==> Describes(p, rt, eager, t.At(j), j)
    ensures var rt' := WithMirror(rt, idx, m);
      InSession(p, rt') && forall j :: 0 <= j < |p.descs| && Recordable(rt', j) ==> Describes(p, rt', eager, t.At(j), j)
  {
    SessionKept(p, rt, idx, m);
    hide ProgramOk;
    hide VramCurrent;
    var rt' := WithMirror(rt, idx, m);
    forall j | 0 <= j < |p.descs| && Recordable(rt', j) ensures Describes(p, rt', eager, t.At(j), j) {
      assert Describes(p, rt, eager, t.At(j), j);
    }
  }

  /** Pushing ranges whose source bytes agree wherever ranges meet: every pushed byte arrives. */
  lemma {:induction false} PushMeaning(ts: seq<Triple>, host: seq<byte>, stage: seq<byte>, src: int -> int)
    requires TriplesFit(ts, |host|, |stage|)
    requires forall t, i :: t in ts && Within(t, i) ==> src(i) == t.1 + i - t.0
    ensures forall i :: 0 <= i < |stage| && PushedByte(ts, i) ==>
      0 <= src(i) < |host| && PushStage(ts, host, stage)[i] == host[src(i)]
    ensures forall i :: 0 <= i < |stage| && !PushedByte(ts, i) ==> PushStage(ts, host, stage)[i] == stage[i]
  {
    if ts == [] {
    } else {
      var last := ts[|ts| - 1];
      var init := ts[..|ts| - 1];
      assert last in ts;
      assert forall t :: t in ts <==> t in init || t == last;
      PushMeaning(init, host, stage, src);
      var before := PushStage(init, host, stage);
      assert PushStage(ts, host, stage) == Blit(before, last.0, host, last.1, last.2);
      hide PushStage;
      forall i | 0 <= i < |stage|
        ensures PushedByte(ts, i) ==> 0 <= src(i) < |host| && PushStage(ts, host, stage)[i] == host[src(i)]
        ensures !PushedByte(ts, i) ==> PushStage(ts, host, stage)[i] == stage[i]
      {
        if Within(last, i) {
          assert PushedByte(ts, i) && src(i) == last.1 + i - last.0;
        } else {
          assert PushedByte(ts, i) == PushedByte(init, i);
        }
      }
    }
  }

  lemma PushedRangesMeaning(ts: seq<Triple>, i: int)
    ensures InRanges(PushedRanges(ts), i) <==> PushedByte(ts, i)
  {
    var rs := PushedRanges(ts);
    if InRanges(rs, i) {
      var r :| r in rs && r.0 <= i < r.0 + r.1;
      var j :| 0 <= j < |rs| && rs[j] == r;
      assert ts[j] in ts;
    }
    if PushedByte(ts, i) {
      var t :| t in ts && Within(t, i);
      var j :| 0 <= j < |ts| && ts[j] == t;
      assert rs[j] in rs;
    }
  }

  /** The host byte a projection byte of the layout stands for. */
  ghost function HostByte(p: Program, i: int): int {
    if Covered(p.layout, i) then
      var f :| f in p.layout && f.Has(i);
      f.HostOf(i)
    else -1
  }

  lemma OneHostByte(p: Program, f: Field, i: int)
    requires ProgramOk(p) && f in p.layout && f.Has(i)
    ensures HostByte(p, i) == f.HostOf(i)
  {
    assert Covered(p.layout, i);
  }

  /** A pushed byte comes from the host byte its field stands for. */
  lemma PushedSource(p: Program, ts: seq<Triple>, tr: Triple, i: int)
    requires ProgramOk(p) && PushOk(p, ts) && tr in ts && Within(tr, i)
    ensures HostByte(p, i) == tr.1 + i - tr.0
  {
    var f :| f in p.layout && f.Has(i) && f.HostOf(i) == tr.1 + i - tr.0;
    OneHostByte(p, f, i);
  }

  /** After a push every pushed byte is as good as the host's, and what was current stays so. */
  lemma PushedBytes(p: Program, m: Mirror, host: seq<byte>, eager: seq<byte>, current: set<int>, stale: set<int>, ts: seq<Triple>)
    requires ProgramOk(p) && VramCurrent(p, m.vram, eager, current) && HostCurrent(p, host, eager, stale)
    requires |m.stage| == p.size && PushOk(p, ts) && RangesFit(PushedRanges(ts), p.size)
    ensures var stage := PushStage(ts, host, m.stage);
      VramCurrent(p, Upload(m.vram, stage, PushedRanges(ts)), eager, (current + PushedSet(p, ts)) - (PushedSet(p, ts) * stale))
  {
    hide Field.Size;
    hide HostByte;
    hide PushStage;
    hide Upload;
    hide KernelOk;
    var src := (i: int) => HostByte(p, i);
    forall tr, i | tr in ts && Within(tr, i) ensures src(i) == tr.1 + i - tr.0 {
      PushedSource(p, ts, tr, i);
    }
    PushMeaning(ts, host, m.stage, src);
    var stage := PushStage(ts, host, m.stage);
    UploadMeaning(m.vram, stage, PushedRanges(ts));
    var v := Upload(m.vram, stage, PushedRanges(ts));
    var current' := (current + PushedSet(p, ts)) - (PushedSet(p, ts) * stale);
    forall f, i | f in p.layout && f.kind == ArrayField && f.Has(i) && i in current'
      ensures 0 <= i < |v| && 0 <= f.HostOf(i) < |eager| && v[i] == eager[f.HostOf(i)]
    {
      assert f.Fits(p.hostLen, p.size);
      PushedRangesMeaning(ts, i);
      OneHostByte(p, f, i);
      StaleBothSides(p, f, i, stale);
    }
  }

  /** Pushing ranges of the host keeps the session coherent. */
  lemma PushStep(p: Program, rt: Rt, host: seq<byte>, eager: seq<byte>, t: Track, ts: seq<Triple>)
    requires Coherent(p, rt, host, eager, t) && HostFitsAll(rt, |host|)
    requires t.ops.shared && t.ops.uploadRanges && Usable(p, rt.kernels, t.ops, 0) && t.At(0).Seeded? && PushOk(p, ts)
    requires forall k :: k in rt.descs ==> TriplesFit(ts, |host|, ProjSize(k))
    ensures var r := PushRanges(rt, host, ts);
      r.ok && r.host == host && Coherent(p, r.rt, host, eager, AfterPush(p, t, ts))
  {
    var m := rt.driver.value.mem[0];
    assert Describes(p, rt, eager, t.At(0), 0);
    assert KernelOk(p, p.descs[0]);
    forall r | r in PushedRanges(ts)
      ensures r.0 + r.1 <= p.size
    {
      var i :| 0 <= i < |ts| && PushedRanges(ts)[i] == r;
      assert ts[i] in ts;
    }
    PushedBytes(p, m, host, eager, t.At(0).current, t.stale, ts);
    hide HostCurrent;
    hide VramCurrent;
    hide Upload;
    var stage := PushStage(ts, host, m.stage);
    var m' := Mirror(stage, Upload(m.vram, stage, PushedRanges(ts)));
    SessionKept(p, rt, 0, m');
    hide PushStage;
    assert PushRanges(rt, host, ts).rt == WithMirror(rt, 0, m');
    hide ProgramOk;
    var rt', t' := WithMirror(rt, 0, m'), AfterPush(p, t, ts);
    forall idx | 0 <= idx < |p.descs| && Recordable(rt', idx) ensures Describes(p, rt', eager, t'.At(idx), idx) {
      assert Describes(p, rt, eager, t.At(idx), idx);
    }
  }

  /** Storing array bytes on the host and pushing ranges keeps the session coherent. */
  lemma AppendStep(p: Program, rt: Rt, host: seq<byte>, eager: seq<byte>, t: Track, bytes: map<nat, byte>, ts: seq<Triple>)
    requires Coherent(p, rt, host, eager, t) && Allowed(p, rt.kernels, t, AppendArrays(bytes, ts)) && HostFitsAll(rt, |host|)
    requires forall k :: k in rt.descs ==> TriplesFit(ts, |host|, ProjSize(k))
    ensures var r := PushRanges(rt, Overlay(host, bytes), ts);
      && r.ok && r.host == Overlay(host, bytes)
      && Coherent(p, r.rt, r.host, Overlay(eager, bytes), NextTrack(p, t, AppendArrays(bytes, ts)))
  {
    EditStep(p, rt, host, eager, t, bytes);
    hide Coherent;
    hide PushRanges;
    PushStep(p, rt, Overlay(host, bytes), Overlay(eager, bytes), AfterEdit(p, t, bytes), ts);
  }

  /** After a CPU fallback and an invalidation no buffer is seeded. */
  lemma FallBackStep(p: Program, rt: Rt, host: seq<byte>, eager: seq<byte>, t: Track, bytes: map<nat, byte>)
    requires Coherent(p, rt, host, eager, t)
    ensures Coherent(p, Invalidate(rt), Overlay(host, bytes), Overlay(eager, bytes), NextTrack(p, t, FallBack(bytes)))
  {
    EditStep(p, rt, host, eager, t, bytes);
    hide ProgramOk;
    hide HostCurrent;
    hide VramCurrent;
    hide AfterEdit;
    var t1 := AfterEdit(p, t, bytes);
    var fallen, eager' := Invalidate(rt), Overlay(eager, bytes);
    forall idx | 0 <= idx < |p.descs| && Recordable(fallen, idx) ensures Describes(p, fallen, eager', Fallen(t1).At(idx), idx) {
      assert Describes(p, rt, eager', t1.At(idx), idx);
    }
  }

  lemma AnyStep(p: Program, rt: Rt, host: seq<byte>, eager: seq<byte>, t: Track, a: Action)
    requires Coherent(p, rt, host, eager, t) && Allowed(p, rt.kernels, t, a)
    requires HostFitsAll(rt, |host|) && forall k :: k in p.descs ==> HostFits(k, p.hostLen)
    requires PushesFit(rt.descs, |host|, [a])
    ensures var r := ResidentStep(rt, host, a);
      && Coherent(p, r.rt, r.host, EagerStep(p, eager, a), NextTrack(p, t, a))
      && (Reports(a) ==> r.ok)
  {
    match a
    case RunKernel(idx, nx, ny) => RunStep(p, rt, host, eager, t, idx, nx, ny);
    case RunBatch(idx, nx, ny, times) => BatchStep(p, rt, host, eager, t, idx, nx, ny, times);
    case EditHost(bytes) => EditStep(p, rt, host, eager, t, bytes);
    case Pull(idx) => PullStep(p, rt, host, eager, t, idx);
    case AppendArrays(bytes, ts) => assert a in [a]; AppendStep(p, rt, host, eager, t, bytes, ts);
    case FallBack(bytes) => FallBackStep(p, rt, host, eager, t, bytes);
  }

  // ── Whole sessions ──

  /** A permitted session pushes ranges that fit. */
  lemma {:induction false} PermittedFits(p: Program, kernels: seq<bool>, t: Track, actions: seq<Action>)
    requires ProgramOk(p) && Permitted(p, kernels, t, actions)
    ensures PushesFit(p.descs, p.hostLen, actions)
    decreases |actions|
  {
    if actions == [] {
    } else {
      PermittedFits(p, kernels, NextTrack(p, t, actions[0]), actions[1..]);
      forall a, k | a in actions && a.AppendArrays? && k in p.descs ensures TriplesFit(a.ranges, p.hostLen, ProjSize(k)) {
        assert KernelOk(p, k) && (a == actions[0] || a in actions[1..]);
      }
    }
  }

  /** Every permitted run keeps the resident state coherent with the eager host state,
      and every launch and push in it succeeds. */
  lemma {:induction false} RunStaysCoherent(p: Program, rt: Rt, host: seq<byte>, eager: seq<byte>, t: Track, actions: seq<Action>)
    requires Coherent(p, rt, host, eager, t) && Permitted(p, rt.kernels, t, actions)
    ensures HostFitsAll(rt, |host|) && PushesFit(rt.descs, |host|, actions)
    ensures forall k :: k in p.descs ==> HostFits(k, p.hostLen)
    ensures var r := ResidentRun(rt, host, actions);
      r.ok && Coherent(p, r.rt, r.host, EagerRun(p, eager, actions), FinalTrack(p, t, actions))
    decreases |actions|
  {
    ProgramHostFits(p);
    PermittedFits(p, rt.kernels, t, actions);
    hide Coherent;
    hide NextTrack;
    hide Allowed;
    if actions == [] {
    } else {
      var a := actions[0];
      assert a in actions;
      CoherentParts(p, rt, host, eager, t);
      AnyStep(p, rt, host, eager, t, a);
      var s := ResidentStep(rt, host, a);
      assert forall b :: b in actions[1..] ==> b in actions;
      RunStaysCoherent(p, s.rt, s.host, EagerStep(p, eager, a), NextTrack(p, t, a), actions[1..]);
    }
  }

  /** A run that reports success has had success from every launch, every batch and every push in it. */
  lemma {:induction false} OkMeansAll(rt: Rt, h: seq<byte>, actions: seq<Action>, n: nat)
    requires Valid(rt) && HostFitsAll(rt, |h|) && PushesFit(rt.descs, |h|, actions) && n < |actions|
    requires ResidentRun(rt, h, actions).ok
    requires actions[n].RunKernel? || actions[n].RunBatch? || actions[n].AppendArrays?
    ensures PushesFit(rt.descs, |h|, actions[..n])
    ensures var s := ResidentRun(rt, h, actions[..n]);
      && Valid(s.rt) && HostFitsAll(s.rt, |s.host|) && s.rt.descs == rt.descs
      && (actions[n].AppendArrays? ==> forall k :: k in s.rt.descs ==> TriplesFit(actions[n].ranges, |s.host|, ProjSize(k)))
      && ResidentStep(s.rt, s.host, actions[n]).ok
    decreases n
  {
    assert forall a :: a in actions[..n] ==> a in actions;
    assert actions[n] in actions && actions[0] in actions;
    if n == 0 {
      assert actions[..0] == [];
    } else {
      assert forall a :: a in actions[1..] ==> a in actions;
      var s := ResidentStep(rt, h, actions[0]);
      hide ResidentStep;
      OkMeansAll(s.rt, s.host, actions[1..], n - 1);
      assert actions[..n][1..] == actions[1..][..n - 1] && actions[..n][0] == actions[0];
    }
  }

  /** A session in which nothing is seeded starts coherent. */
  lemma StartsCoherent(p: Program, rt: Rt, host: seq<byte>)
    requires InSession(p, rt) && NothingSeeded(p, rt) && |host| == p.hostLen
    ensures Coherent(p, rt, host, host, Start(rt))
  {
    hide ProgramOk;
  }

  lemma NothingStale(p: Program, host: seq<byte>, eager: seq<byte>)
    requires HostCurrent(p, host, eager, {})
    ensures host == eager
  {
  }

  /** Resident execution refines eager execution: from a session in which nothing is seeded, on one shared
      buffer or a buffer for each of up to 32 kernels, any permitted mix of launches and batches of any kernels, host
      edits, pulls, pushes and CPU fallbacks that leaves nothing stale ends with exactly the host state
      full-copy launches would leave. */
  lemma ResidentRefinesEager(p: Program, rt: Rt, host: seq<byte>, actions: seq<Action>)
    requires InSession(p, rt) && NothingSeeded(p, rt) && |host| == p.hostLen
    requires Permitted(p, rt.kernels, Start(rt), actions) && FinalTrack(p, Start(rt), actions).stale == {}
    ensures HostFitsAll(rt, |host|) && PushesFit(rt.descs, |host|, actions)
    ensures forall k :: k in p.descs ==> HostFits(k, p.hostLen)
    ensures ResidentRun(rt, host, actions).ok
    ensures ResidentRun(rt, host, actions).host == EagerRun(p, host, actions)
  {
    StartsCoherent(p, rt, host);
    RunStaysCoherent(p, rt, host, host, Start(rt), actions);
    NothingStale(p, ResidentRun(rt, host, actions).host, EagerRun(p, host, actions));
  }

  // ── Sessions of one kernel ──

  /** Launches and batches of one kernel with host edits of scalars (or of bytes outside every array) in between. */
  ghost predicate OneKernelRun(p: Program, idx: nat, actions: seq<Action>) {
    forall a :: a in actions ==>
      || (a.RunKernel? && a.idx == idx)
      || (a.RunBatch? && a.idx == idx && a.times >= 1)
      || (a.EditHost? && forall f, h :: f in p.layout && f.kind == ArrayField && f.HasHost(h) ==> h !in a.bytes)
  }

  /** The kernel's array bytes among `on` are held in its buffer, and only its outputs may be stale. */
  ghost predicate Steady(p: Program, t: Track, idx: nat, on: set<int>)
    requires idx < |p.descs|
  {
    var k := p.descs[idx];
    && on <= ReadSet(p, k, t, t.At(idx))
    && t.stale <= WrittenSet(p, k)
    && (t.At(idx).Seeded? ==> WrittenSet(p, k) <= t.At(idx).current)
    && (!t.At(idx).Seeded? ==> t.stale == {})
  }

  /** Editing scalars takes no array byte from the buffer. */
  lemma ScalarEditKeepsSteady(p: Program, t: Track, idx: nat, on: set<int>, bytes: map<nat, byte>)
    requires ProgramOk(p) && idx < |p.descs| && Steady(p, t, idx, on)
    requires forall f, h :: f in p.layout && f.kind == ArrayField && f.HasHost(h) ==> h !in bytes
    ensures Steady(p, AfterEdit(p, t, bytes), idx, on)
  {
    var k, t' := p.descs[idx], AfterEdit(p, t, bytes);
    assert k in p.descs && KernelOk(p, k);
    assert t'.At(idx) == Without(t.At(idx), EditedSet(p, bytes));
    forall f, i | f in p.layout && f.kind == ArrayField && f.Has(i)
      ensures i !in EditedSet(p, bytes)
    {
      EditedIsOneByte(p, f, i, bytes);
      assert f.HasHost(f.HostOf(i));
    }
    forall i | i in on ensures i in ReadSet(p, k, t', t'.At(idx)) {
      var f :| f in k.fields && f.Has(i);
      assert f in p.layout;
      if f.kind == ScalarField {
        assert f in Scalars(k.fields);
      }
    }
    forall i | i in WrittenSet(p, k) ensures i !in EditedSet(p, bytes) {
      var f :| f in k.fields && f.isWrite && f.Has(i);
      assert f in p.layout;
    }
  }

  lemma LaunchKeepsSteady(p: Program, t: Track, idx: nat, on: set<int>)
    requires idx < |p.descs| && Steady(p, t, idx, on)
    ensures Steady(p, AfterRun(p, t, idx), idx, on) && Steady(p, AfterBatch(p, t, idx), idx, on)
  {
    assert AfterBatch(p, t, idx).At(idx) == AfterRun(p, t, idx).At(idx);
  }

  lemma {:induction false} OneKernelPermitted(p: Program, kernels: seq<bool>, idx: nat, t: Track, on: set<int>, actions: seq<Action>)
    requires ProgramOk(p) && Usable(p, kernels, t.ops, idx) && OneKernelRun(p, idx, actions)
    requires Steady(p, t, idx, on) && ReadsOnly(p.descs[idx], p.size, on)
    ensures Permitted(p, kernels, t, actions + [Pull(idx)])
    ensures FinalTrack(p, t, actions + [Pull(idx)]).stale == {}
    decreases |actions|
  {
    hide ReadsOnly;
    hide ProgramOk;
    var all := actions + [Pull(idx)];
    if actions == [] {
      assert all == [Pull(idx)] && all[1..] == [];
      assert Permitted(p, kernels, NextTrack(p, t, all[0]), []);
      assert FinalTrack(p, NextTrack(p, t, all[0]), []) == NextTrack(p, t, all[0]);
    } else {
      var a := actions[0];
      assert a in actions && all[0] == a && all[1..] == actions[1..] + [Pull(idx)];
      assert forall b :: b in actions[1..] ==> b in actions;
      if !a.EditHost? {
        ReadsMore(p, p.descs[idx], on, ReadSet(p, p.descs[idx], t, t.At(idx)));
        LaunchKeepsSteady(p, t, idx, on);
      } else {
        ScalarEditKeepsSteady(p, t, idx, on, a.bytes);
      }
      hide Steady;
      OneKernelPermitted(p, kernels, idx, NextTrack(p, t, a), on, actions[1..]);
    }
  }

  /** A final download changes nothing for the eager runtime. */
  lemma {:induction false} EagerPull(p: Program, h: seq<byte>, actions: seq<Action>, idx: nat)
    requires |h| == p.hostLen && forall k :: k in p.descs ==> HostFits(k, p.hostLen)
    ensures EagerRun(p, h, actions + [Pull(idx)]) == EagerRun(p, h, actions)
    decreases |actions|
  {
    var all := actions + [Pull(idx)];
    if actions == [] {
      assert all[1..] == [];
      assert EagerRun(p, EagerStep(p, h, all[0]), []) == h;
    } else {
      assert all[1..] == actions[1..] + [Pull(idx)];
      EagerPull(p, EagerStep(p, h, actions[0]), actions[1..], idx);
    }
  }

  /** A single-kernel session: launches and batches with scalar edits in between, then one download. If what the
      kernel writes depends only on what its first launch finds up to date, the host ends exactly as
      full-copy launches would have left it, on a shared or a per-kernel driver. Without a buffer that is
      everything the prime packs; with one, left from before an invalidation, the seed table. */
  lemma OneKernelRefinesEager(p: Program, rt: Rt, host: seq<byte>, idx: nat, actions: seq<Action>)
    requires InSession(p, rt) && NothingSeeded(p, rt) && |host| == p.hostLen
    requires Usable(p, rt.kernels, rt.driver.value.ops, idx) && OneKernelRun(p, idx, actions)
    requires ReadsOnly(p.descs[idx], p.size, ReadSet(p, p.descs[idx], Start(rt), Start(rt).At(idx)))
    ensures HostFitsAll(rt, |host|) && PushesFit(rt.descs, |host|, actions + [Pull(idx)])
    ensures forall k :: k in p.descs ==> HostFits(k, p.hostLen)
    ensures ResidentRun(rt, host, actions + [Pull(idx)]).ok
    ensures ResidentRun(rt, host, actions + [Pull(idx)]).host == EagerRun(p, host, actions)
  {
    var t := Start(rt);
    OneKernelPermitted(p, rt.kernels, idx, t, ReadSet(p, p.descs[idx], t, t.At(idx)), actions);
    hide ReadSet;
    ResidentRefinesEager(p, rt, host, actions + [Pull(idx)]);
    EagerPull(p, host, actions, idx);
  }

  // ── The eager run, call by call ──

  /** A batch of full-copy launches, all of them made. */
  function LaunchTimes(rt: Rt, idx: nat, h: seq<byte>, w: nat, times: nat): (r: Result)
    requires Valid(rt) && HostFitsAll(rt, |h|)
    ensures Valid(r.rt) && HostFitsAll(r.rt, |r.host|) && |r.host| == |h|
    decreases times
  {
    if times == 0 then Result(rt, h, true)
    else
      var l := Launch(rt, idx, h, w);
      var rest := LaunchTimes(l.rt, idx, l.host, w, times - 1);
      rest.(ok := rest.ok && l.ok)
  }

  /** The run on the runtime with every launch a full-copy one; downloads, pushes and invalidations have
      nothing to do. */
  function LaunchRun(rt: Rt, h: seq<byte>, actions: seq<Action>): (r: Result)
    requires Valid(rt) && HostFitsAll(rt, |h|)
    ensures |r.host| == |h|
    decreases |actions|
  {
    if actions == [] then Result(rt, h, true)
    else
      match actions[0]
      case RunKernel(idx, nx, ny) =>
        var l := Launch(rt, idx, h, nx * ny);
        var rest := LaunchRun(l.rt, l.host, actions[1..]);
        rest.(ok := rest.ok && l.ok)
      case RunBatch(idx, nx, ny, times) =>
        var l := LaunchTimes(rt, idx, h, nx * ny, times);
        var rest := LaunchRun(l.rt, l.host, actions[1..]);
        rest.(ok := rest.ok && l.ok)
      case EditHost(bytes) => LaunchRun(rt, Overlay(h, bytes), actions[1..])
      case Pull(_) => LaunchRun(rt, h, actions[1..])
      case AppendArrays(bytes, _) => LaunchRun(rt, Overlay(h, bytes), actions[1..])
      case FallBack(bytes) => LaunchRun(rt, Overlay(h, bytes), actions[1..])
  }

  /** Every kernel of the run has a live handle. */
  ghost predicate AllReady(rt: Rt, actions: seq<Action>)
    requires Valid(rt)
  {
    forall a :: a in actions && (a.RunKernel? || a.RunBatch?) ==> KernelReady(rt, a.idx)
  }

  lemma {:induction false} LaunchTimesValue(rt: Rt, idx: nat, h: seq<byte>, w: nat, times: nat)
    requires Valid(rt) && HostFitsAll(rt, |h|) && KernelReady(rt, idx)
    requires rt.driver.Some? && rt.driver.value.faults == [] && rt.driver.value.ops.launch
    ensures HostFits(rt.descs[idx], |h|)
    ensures var l := LaunchTimes(rt, idx, h, w, times);
      && l.ok && l.host == EagerLaunches(rt.descs[idx], h, w, times)
      && SameHandles(rt, l.rt) && l.rt.driver.Some? && l.rt.driver.value.faults == []
    decreases times
  {
    if times == 0 {
    } else {
      var l := Launch(rt, idx, h, w);
      assert l.ok && l.host == EagerLaunch(rt.descs[idx], h, w) && l.rt.driver.value.faults == [];
      hide Launch;
      LaunchTimesValue(l.rt, idx, l.host, w, times - 1);
    }
  }

  /** The eager run is what full-copy launches through the runtime's own entry point do. */
  lemma {:induction false} EagerRunIsLaunches(p: Program, rt: Rt, h: seq<byte>, actions: seq<Action>)
    requires Valid(rt) && HostFitsAll(rt, |h|) && rt.descs == p.descs && |h| == p.hostLen
    requires rt.driver.Some? && rt.driver.value.faults == [] && rt.driver.value.ops.launch && AllReady(rt, actions)
    ensures forall k :: k in p.descs ==> HostFits(k, p.hostLen)
    ensures LaunchRun(rt, h, actions).ok && LaunchRun(rt, h, actions).host == EagerRun(p, h, actions)
    decreases |actions|
  {
    if actions == [] {
    } else {
      var a, rest := actions[0], actions[1..];
      assert a in actions;
      assert forall b :: b in rest ==> b in actions;
      match a
      case RunKernel(idx, nx, ny) =>
        var l := Launch(rt, idx, h, nx * ny);
        assert l.host == EagerStep(p, h, a) && l.rt.driver.value.faults == [] && l.ok;
        EagerRunIsLaunches(p, l.rt, l.host, rest);
      case RunBatch(idx, nx, ny, times) =>
        LaunchTimesValue(rt, idx, h, nx * ny, times);
        var l := LaunchTimes(rt, idx, h, nx * ny, times);
        EagerRunIsLaunches(p, l.rt, l.host, rest);
      case EditHost(bytes) => EagerRunIsLaunches(p, rt, Overlay(h, bytes), rest);
      case Pull(_) => EagerRunIsLaunches(p, rt, h, rest);
      case AppendArrays(bytes, _) => EagerRunIsLaunches(p, rt, Overlay(h, bytes), rest);
      case FallBack(bytes) => EagerRunIsLaunches(p, rt, Overlay(h, bytes), rest);
    }
  }

  /** A permitted session launches kernels with a live handle only. */
  lemma {:induction false} PermittedIsReady(p: Program, rt: Rt, t: Track, actions: seq<Action>)
    requires InSession(p, rt) && Permitted(p, rt.kernels, t, actions)
    ensures AllReady(rt, actions)
    decreases |actions|
  {
    hide ProgramOk;
    hide NextTrack;
    hide ReadsOnly;
    if actions == [] {
    } else {
      PermittedIsReady(p, rt, NextTrack(p, t, actions[0]), actions[1..]);
      forall a | a in actions && (a.RunKernel? || a.RunBatch?) ensures KernelReady(rt, a.idx) {
        assert a == actions[0] || a in actions[1..];
      }
    }
  }

  /** The refinement theorem in terms of the two entry points alone. */
  lemma ResidentRefinesLaunches(p: Program, rt: Rt, host: seq<byte>, actions: seq<Action>)
    requires InSession(p, rt) && NothingSeeded(p, rt) && |host| == p.hostLen
    requires Permitted(p, rt.kernels, Start(rt), actions) && FinalTrack(p, Start(rt), actions).stale == {}
    ensures HostFitsAll(rt, |host|) && PushesFit(rt.descs, |host|, actions)
    ensures ResidentRun(rt, host, actions).ok && LaunchRun(rt, host, actions).ok
    ensures ResidentRun(rt, host, actions).host == LaunchRun(rt, host, actions).host
  {
    ResidentRefinesEager(p, rt, host, actions);
    PermittedIsReady(p, rt, Start(rt), actions);
    EagerRunIsLaunches(p, rt, host, actions);
  }
}
