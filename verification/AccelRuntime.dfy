/** The runtime as the host program sees it: one object holding the session state, whose
    entry points update it and the host state buffer in place. Every entry point is proved
    to do what its specification function in AccelModel says. */
module AccelRuntime {
  import opened Bytes
  import opened Options
  import opened AccelLayout
  import opened AccelModel

  // ── Facts about prefixes of a field table, for the loops below ──

  lemma SyncListStep(fs: seq<Field>, i: nat)
    requires i < |fs|
    ensures SyncList(fs[..i + 1]) ==
            if fs[i].kind == ScalarField && |SyncList(fs[..i])| < MAX_DIRTY then SyncList(fs[..i]) + [fs[i]]
            else SyncList(fs[..i])
  {
    var part := fs[..i + 1];
    assert part[..i] == fs[..i] && part[|part| - 1] == fs[i];
  }

  lemma SyncListFull(fs: seq<Field>, i: nat)
    requires i <= |fs| && |SyncList(fs[..i])| == MAX_DIRTY
    ensures SyncList(fs) == SyncList(fs[..i])
  {
    ScalarsPrefix(fs, i);
    assert Scalars(fs)[..MAX_DIRTY] == Scalars(fs[..i])[..MAX_DIRTY];
    if |Scalars(fs[..i])| == MAX_DIRTY {
      assert Scalars(fs[..i])[..MAX_DIRTY] == Scalars(fs[..i]);
    }
    if |Scalars(fs)| == MAX_DIRTY {
      assert Scalars(fs)[..MAX_DIRTY] == Scalars(fs);
    }
  }

  lemma GatherStep(fs: seq<Field>, f: Field, host: seq<byte>, proj: seq<byte>)
    requires AllFit(fs, |host|, |proj|) && f.Fits(|host|, |proj|)
    ensures AllFit(fs + [f], |host|, |proj|)
    ensures Gather(fs + [f], host, proj) == Blit(Gather(fs, host, proj), f.projOffset, host, f.hostOffset, f.Size())
  {
    var all := fs + [f];
    assert all[..|all| - 1] == fs && all[|all| - 1] == f;
    assert forall g :: g in all ==> g.Fits(|host|, |proj|);
  }

  lemma EmptySync(fs: seq<Field>, host: seq<byte>, mirror: seq<byte>)
    ensures SyncList(fs[..0]) == [] && Gather([], host, mirror) == mirror
  {
  }

  /** What one turn of the dirty-scalar loop adds. */
  lemma SyncStep(fs: seq<Field>, i: nat, host: seq<byte>, mirror: seq<byte>)
    requires i < |fs| && AllFit(fs, |host|, |mirror|) && AllFit(SyncList(fs[..i]), |host|, |mirror|)
    requires fs[i].kind == ScalarField ==> fs[i].count == 1
    requires |SyncList(fs[..i])| < MAX_DIRTY
    ensures AllFit(SyncList(fs[..i + 1]), |host|, |mirror|)
    ensures fs[i].kind != ScalarField ==> SyncList(fs[..i + 1]) == SyncList(fs[..i])
    ensures fs[i].kind == ScalarField ==>
      var f := fs[i];
      && f.hostOffset + f.elemBytes <= |host| && f.projOffset + f.elemBytes <= |mirror|
      && DirtyRanges(SyncList(fs[..i + 1])) == DirtyRanges(SyncList(fs[..i])) + [(f.projOffset, f.elemBytes)]
      && Gather(SyncList(fs[..i + 1]), host, mirror) ==
         Blit(Gather(SyncList(fs[..i]), host, mirror), f.projOffset, host, f.hostOffset, f.elemBytes)
  {
    SyncListStep(fs, i);
    hide SyncList;
    hide Gather;
    hide Blit;
    if fs[i].kind == ScalarField {
      assert fs[i].Fits(|host|, |mirror|) && fs[i].Size() == fs[i].elemBytes;
      GatherStep(SyncList(fs[..i]), fs[i], host, mirror);
    }
  }

  lemma ScatterStep(fs: seq<Field>, f: Field, proj: seq<byte>, host: seq<byte>)
    requires AllFit(fs, |host|, |proj|) && f.Fits(|host|, |proj|)
    ensures AllFit(fs + [f], |host|, |proj|)
    ensures Scatter(fs + [f], proj, host) ==
            if f.isWrite then Blit(Scatter(fs, proj, host), f.hostOffset, proj, f.projOffset, f.Size())
            else Scatter(fs, proj, host)
  {
    var all := fs + [f];
    assert all[..|all| - 1] == fs && all[|all| - 1] == f;
    assert forall g :: g in all ==> g.Fits(|host|, |proj|);
  }

  lemma PrefixStep<T>(s: seq<T>, i: nat)
    requires i < |s|
    ensures s[..i + 1] == s[..i] + [s[i]]
  {
  }

  // ── Loops over a field table ──

  /** The unpack loop of both the launch and the downloads. */
  method Unpack(fs: seq<Field>, proj: seq<byte>, state: array<byte>)
    requires AllFit(fs, state.Length, |proj|)
    modifies state
    ensures state[..] == Scatter(fs, proj, old(state[..]))
  {
    for i := 0 to |fs|
      invariant AllFit(fs[..i], state.Length, |proj|)
      invariant state[..] == Scatter(fs[..i], proj, old(state[..]))
    {
      var f := fs[i];
      PrefixStep(fs, i);
      ScatterStep(fs[..i], f, proj, old(state[..]));
      if !f.isWrite {
        continue;
      }
      CopyBytes(state, f.hostOffset, proj, f.projOffset, f.Size());
    }
    assert fs[..|fs|] == fs;
  }

  /** The pack loop of the launch and the seed loop. */
  method PackFields(fs: seq<Field>, host: seq<byte>, proj: array<byte>)
    requires AllFit(fs, |host|, proj.Length)
    modifies proj
    ensures proj[..] == Gather(fs, host, old(proj[..]))
  {
    for i := 0 to |fs|
      invariant AllFit(fs[..i], |host|, proj.Length)
      invariant proj[..] == Gather(fs[..i], host, old(proj[..]))
    {
      var f := fs[i];
      PrefixStep(fs, i);
      GatherStep(fs[..i], f, host, old(proj[..]));
      CopyBytes(proj, f.projOffset, host, f.hostOffset, f.Size());
    }
    assert fs[..|fs|] == fs;
  }

  /** The projection's extent: the compiler's figure, or the end of the last field. */
  method ProjectionSize(k: KernelDesc) returns (end: nat)
    ensures end == ProjSize(k)
    ensures k.programBytes != 0 ==> end == k.programBytes
    ensures k.programBytes == 0 ==> forall f :: f in k.fields ==> f.projOffset + f.Size() <= end
  {
    MaxEndIsLeastBound(k.fields);
    if k.programBytes != 0 {
      return k.programBytes;
    }
    end := 0;
    for j := 0 to |k.fields|
      invariant end == MaxEnd(k.fields[..j])
    {
      var f := k.fields[j];
      assert k.fields[..j + 1][..j] == k.fields[..j];
      var fEnd := f.projOffset + f.Size();
      if fEnd > end {
        end := fEnd;
      }
    }
    assert k.fields[..|k.fields|] == k.fields;
  }

  lemma SnapshotPlus(fs: seq<Field>, f: Field, host: seq<byte>)
    requires f.hostOffset + f.Size() <= |host| && forall g :: g in fs ==> g.hostOffset + g.Size() <= |host|
    ensures forall g :: g in fs + [f] ==> g.hostOffset + g.Size() <= |host|
    ensures SpanBytes(fs + [f]) == SpanBytes(fs) + f.Size()
    ensures Snapshot(fs + [f], host) == Snapshot(fs, host) + host[f.hostOffset..f.hostOffset + f.Size()]
  {
    hide Field.Size;
    var all := fs + [f];
    assert all[..|all| - 1] == fs && all[|all| - 1] == f;
  }

  lemma RestorePlus(fs: seq<Field>, f: Field, snap: seq<byte>, host: seq<byte>)
    requires f.hostOffset + f.Size() <= |host| && forall g :: g in fs ==> g.hostOffset + g.Size() <= |host|
    requires SpanBytes(fs) + f.Size() <= |snap|
    ensures forall g :: g in fs + [f] ==> g.hostOffset + g.Size() <= |host|
    ensures SpanBytes(fs + [f]) == SpanBytes(fs) + f.Size()
    ensures Restore(fs + [f], snap, host) == Blit(Restore(fs, snap, host), f.hostOffset, snap, SpanBytes(fs), f.Size())
  {
    hide Field.Size;
    var all := fs + [f];
    assert all[..|all| - 1] == fs && all[|all| - 1] == f;
  }

  lemma SpansStep(fs: seq<Field>, i: nat)
    requires i < |fs|
    ensures SpanBytes(fs[..i + 1]) == SpanBytes(fs[..i]) + fs[i].Size() <= SpanBytes(fs)
  {
    hide Field.Size;
    assert fs[..i + 1][..i] == fs[..i];
    SpansGrow(fs, i + 1);
  }

  /** The total of the seed spans. */
  method SnapshotBytes(fs: seq<Field>) returns (bytes: nat)
    ensures bytes == SpanBytes(fs)
  {
    bytes := 0;
    for i := 0 to |fs|
      invariant bytes == SpanBytes(fs[..i])
    {
      assert fs[..i + 1][..i] == fs[..i];
      bytes := bytes + fs[i].Size();
    }
    assert fs[..|fs|] == fs;
  }

  /** Save the seed spans of the host state. */
  method TakeSnapshot(fs: seq<Field>, host: seq<byte>) returns (snap: array<byte>)
    requires forall f :: f in fs ==> f.hostOffset + f.Size() <= |host|
    ensures fresh(snap) && snap[..] == Snapshot(fs, host)
  {
    var bytes := SnapshotBytes(fs);
    snap := new byte[bytes](_ => 0);
    var off := 0;
    for i := 0 to |fs|
      invariant off == SpanBytes(fs[..i]) <= snap.Length == SpanBytes(fs)
      invariant forall f :: f in fs[..i] ==> f.hostOffset + f.Size() <= |host|
      invariant snap[..off] == Snapshot(fs[..i], host)
    {
      var f := fs[i];
      assert f in fs && f.hostOffset + f.Size() <= |host|;
      PrefixStep(fs, i);
      SpansStep(fs, i);
      SnapshotPlus(fs[..i], f, host);
      ghost var before := snap[..];
      CopyBytes(snap, off, host, f.hostOffset, f.Size());
      BlitAppends(before, off, host, f.hostOffset, f.Size());
      assert snap[..off + f.Size()] == snap[..][..off + f.Size()];
      off := off + f.Size();
    }
    assert fs[..|fs|] == fs;
    assert snap[..off] == snap[..];
  }

  lemma {:induction false} SpansGrow(fs: seq<Field>, i: nat)
    requires i <= |fs|
    ensures SpanBytes(fs[..i]) <= SpanBytes(fs)
    decreases |fs| - i
  {
    if i < |fs| {
      assert fs[..i + 1][..i] == fs[..i];
      SpansGrow(fs, i + 1);
    } else {
      assert fs[..i] == fs;
    }
  }

  /** Put the saved spans back. */
  method PutBack(fs: seq<Field>, snap: seq<byte>, state: array<byte>)
    requires forall f :: f in fs ==> f.hostOffset + f.Size() <= state.Length
    requires |snap| == SpanBytes(fs)
    modifies state
    ensures state[..] == Restore(fs, snap, old(state[..]))
  {
    var off := 0;
    for i := 0 to |fs|
      invariant off == SpanBytes(fs[..i]) <= |snap|
      invariant forall f :: f in fs[..i] ==> f.hostOffset + f.Size() <= state.Length
      invariant state[..] == Restore(fs[..i], snap, old(state[..]))
    {
      var f := fs[i];
      assert f in fs && f.hostOffset + f.Size() <= state.Length;
      PrefixStep(fs, i);
      SpansStep(fs, i);
      RestorePlus(fs[..i], f, snap, old(state[..]));
      CopyBytes(state, f.hostOffset, snap, off, f.Size());
      off := off + f.Size();
    }
    assert fs[..|fs|] == fs;
  }

  /** The dirty-scalar loop: copy each scalar into the mirror and note its range, at most sixteen. */
  method SyncLoop(fs: seq<Field>, host: seq<byte>, mirror: array<byte>) returns (dirty: seq<Range>)
    requires AllFit(fs, |host|, mirror.Length)
    requires forall f :: f in fs && f.kind == ScalarField ==> f.count == 1
    modifies mirror
    ensures AllFit(SyncList(fs), |host|, mirror.Length)
    ensures mirror[..] == Gather(SyncList(fs), host, old(mirror[..]))
    ensures dirty == DirtyRanges(SyncList(fs))
  {
    hide SyncList;
    hide Gather;
    hide Blit;
    dirty := [];
    ghost var was := mirror[..];
    assert SyncList(fs[..0]) == [] && Gather([], host, was) == was by {
      EmptySync(fs, host, was);
    }
    var i := 0;
    while i < |fs|
      invariant 0 <= i <= |fs|
      invariant AllFit(SyncList(fs[..i]), |host|, mirror.Length)
      invariant mirror[..] == Gather(SyncList(fs[..i]), host, was)
      invariant dirty == DirtyRanges(SyncList(fs[..i]))
    {
      if |dirty| >= MAX_DIRTY {
        SyncListFull(fs, i);
        return;
      }
      var f := fs[i];
      SyncStep(fs, i, host, was);
      if f.kind == ScalarField {
        dirty := dirty + [(f.projOffset, f.elemBytes)];
        CopyBytes(mirror, f.projOffset, host, f.hostOffset, f.elemBytes);
      }
      i := i + 1;
    }
    assert fs[..i] == fs;
  }

  // ── The runtime object ──

  class Runtime {
    var driver: Option<Device>
    var initDone: bool
    var residentSeeded: seq<bool>
    var programSeeded: bool
    var kernels: seq<bool>
    var descs: seq<KernelDesc>
    var nKernels: nat

    function View(): Rt
      reads this
    {
      Rt(driver, initDone, residentSeeded, programSeeded, kernels, descs, nKernels)
    }

    constructor ()
      ensures View() == BOOT
    {
      driver, initDone, residentSeeded, programSeeded := None, false, [], false;
      kernels, descs, nKernels := [], [], 0;
    }

    /** briev_accel_launch: pack every field, run, unpack the written fields, whatever the outcome. */
    method LaunchFull(idx: nat, state: array<byte>, work: nat) returns (ok: bool)
      requires Valid(View()) && HostFitsAll(View(), state.Length)
      modifies this, state
      ensures Result(View(), state[..], ok) == Launch(old(View()), idx, old(state[..]), work)
    {
      if driver.None? || !KernelReady(View(), idx) {
        return false;
      }
      var d, k := driver.value, descs[idx];
      assert HostFits(k, state.Length);
      var bytes := ProjectionSize(k);
      var proj := new byte[bytes](_ => 0);
      assert proj[..] == Zeros(bytes);
      PackFields(k.fields, state[..], proj);
      var out := Zeros(bytes);
      ok := false;
      if d.ops.launch {
        var (d', done, result) := DevLaunch(d, d.Slot(idx), k.code, proj[..], work);
        driver, ok, out := Some(d'), done, result;
      }
      Unpack(k.fields, out, state);
    }

    /** Create a lazy driver's buffer by a throw-away launch, keeping the seed spans. */
    method PrimeLazyBuffer(idx: nat, state: array<byte>, work: nat) returns (ok: bool)
      requires Valid(View()) && HostFitsAll(View(), state.Length) && driver.Some? && KernelReady(View(), idx)
      modifies this, state
      ensures Result(View(), state[..], ok) == Prime(old(View()), idx, old(state[..]), work)
    {
      var k := descs[idx];
      assert HostFits(k, state.Length);
      assert forall f :: f in k.seedFields ==> f.Fits(state.Length, ProjSize(k));
      var snap := TakeSnapshot(k.seedFields, state[..]);
      var primed := LaunchFull(idx, state, work);
      PutBack(k.seedFields, snap[..], state);
      ok := primed && driver.value.Slot(idx) in driver.value.mem;
    }

    /** Seed the mirror on a first launch, refresh the scalars on later ones. */
    method SeedOrSyncScalars(idx: nat, state: array<byte>) returns (fullSync: bool, dirty: seq<Range>)
      requires Valid(View()) && HostFitsAll(View(), state.Length) && driver.Some? && KernelReady(View(), idx)
      requires driver.value.Slot(idx) in driver.value.mem
      modifies this
      ensures Sync(View(), fullSync, dirty) == SeedOrSync(old(View()), idx, state[..])
    {
      var d, k := driver.value, descs[idx];
      var slot := d.Slot(idx);
      var stage := d.mem[slot].stage;
      assert HostFits(k, state.Length);
      var mapped := new byte[|stage|](i requires 0 <= i < |stage| => stage[i]);
      assert mapped[..] == stage;
      if !SeededFlag(View(), idx) {
        PackFields(k.seedFields, state[..], mapped);
        driver := Some(SetStage(d, slot, mapped[..]));
        if d.ops.shared {
          programSeeded := true;
        } else if idx < FLAG_SLOTS {
          residentSeeded := residentSeeded[idx := true];
        }
        return true, [];
      }
      assert DescOk(k);
      dirty := SyncLoop(k.fields, state[..], mapped);
      driver := Some(SetStage(d, slot, mapped[..]));
      fullSync := false;
    }

    /** briev_accel_download and briev_accel_download_written. */
    method Pull(idx: nat, state: array<byte>) returns (ok: bool)
      requires Valid(View()) && HostFitsAll(View(), state.Length)
      modifies this, state
      ensures Result(View(), state[..], ok) == Download(old(View()), idx, old(state[..]))
    {
      if driver.None? || !KernelReady(View(), idx) || !SeededFlag(View(), idx) {
        return false;
      }
      var d := driver.value;
      if !d.ops.mapped || d.Slot(idx) !in d.mem {
        return false;
      }
      assert HostFits(descs[idx], state.Length);
      driver := Some(DevDownload(d, d.Slot(idx)));
      Unpack(descs[idx].fields, driver.value.mem[d.Slot(idx)].stage, state);
      return true;
    }

    /** The resident launch once the buffer exists. */
    method LaunchMapped(idx: nat, state: array<byte>, work: nat) returns (ok: bool)
      requires Valid(View()) && HostFitsAll(View(), state.Length) && driver.Some? && KernelReady(View(), idx)
      requires driver.value.Slot(idx) in driver.value.mem
      modifies this, state
      ensures Result(View(), state[..], ok) == RunMapped(old(View()), idx, old(state[..]), work)
    {
      ghost var rt0 := View();
      var fullSync, dirty := SeedOrSyncScalars(idx, state);
      ghost var s := SeedOrSync(rt0, idx, state[..]);
      var (d', launched) := DevDispatch(driver.value, driver.value.Slot(idx), descs[idx].code, work, 1, fullSync, dirty);
      driver := Some(d');
      assert (View(), launched) == Dispatch(s, idx, work, 1);
      if launched && fullSync {
        var pulled := Pull(idx, state);
      }
      ok := launched;
    }

    /** briev_accel_launch_resident_2d. */
    method LaunchResident2d(idx: nat, state: array<byte>, nx: nat, ny: nat) returns (ok: bool)
      requires Valid(View()) && HostFitsAll(View(), state.Length)
      modifies this, state
      ensures Result(View(), state[..], ok) == LaunchResident(old(View()), idx, old(state[..]), nx, ny)
    {
      if driver.None? || !KernelReady(View(), idx) {
        return false;
      }
      if ResidentOpsMissing(driver.value.ops) {
        ok := LaunchFull(idx, state, Work(nx, ny));
        return;
      }
      if driver.value.Slot(idx) !in driver.value.mem {
        var primed := PrimeLazyBuffer(idx, state, Work(nx, ny));
        if !primed {
          return false;
        }
      }
      ok := LaunchMapped(idx, state, Work(nx, ny));
    }

    /** The fallback of a driver that cannot batch. */
    method BatchOneByOne(idx: nat, state: array<byte>, nx: nat, ny: nat, times: nat) returns (ok: bool)
      requires Valid(View()) && HostFitsAll(View(), state.Length)
      modifies this, state
      ensures Result(View(), state[..], ok) == BatchSequential(old(View()), idx, old(state[..]), nx, ny, times)
    {
      hide LaunchResident;
      ghost var goal := BatchSequential(View(), idx, state[..], nx, ny, times);
      for t := 0 to times
        invariant Valid(View()) && HostFitsAll(View(), state.Length)
        invariant BatchSequential(View(), idx, state[..], nx, ny, times - t) == goal
      {
        var launched := LaunchResident2d(idx, state, nx, ny);
        if !launched {
          return false;
        }
      }
      ok := true;
    }

    /** briev_accel_launch_resident_batch. */
    method LaunchResidentBatch(idx: nat, state: array<byte>, nx: nat, ny: nat, times: nat) returns (ok: bool)
      requires Valid(View()) && HostFitsAll(View(), state.Length)
      modifies this, state
      ensures Result(View(), state[..], ok) == LaunchBatch(old(View()), idx, old(state[..]), nx, ny, times)
    {
      if driver.None? || !KernelReady(View(), idx) || times == 0 {
        return false;
      }
      var d := driver.value;
      if ResidentOpsMissing(d.ops) || !d.ops.batch || d.Slot(idx) !in d.mem {
        ok := BatchOneByOne(idx, state, nx, ny, times);
        return;
      }
      ghost var rt0 := View();
      var fullSync, dirty := SeedOrSyncScalars(idx, state);
      ghost var s := SeedOrSync(rt0, idx, state[..]);
      var (d', launched) := DevDispatch(driver.value, driver.value.Slot(idx), descs[idx].code, Work(nx, ny), times, fullSync, dirty);
      driver := Some(d');
      assert (View(), launched) == Dispatch(s, idx, Work(nx, ny), times);
      ok := launched;
    }

    /** briev_accel_invalidate_resident. */
    method InvalidateResident()
      modifies this
      ensures View() == Invalidate(old(View()))
    {
      for i := 0 to |residentSeeded|
        invariant |residentSeeded| == |old(residentSeeded)|
        invariant forall j :: 0 <= j < i ==> !residentSeeded[j]
        invariant View() == old(View()).(residentSeeded := residentSeeded)
      {
        residentSeeded := residentSeeded[i := false];
      }
      programSeeded := false;
    }

    /** briev_accel_push_ranges. */
    method Push(state: array<byte>, ranges: seq<Triple>) returns (ok: bool)
      requires Valid(View()) && HostFitsAll(View(), state.Length)
      requires forall k :: k in descs ==> TriplesFit(ranges, state.Length, ProjSize(k))
      modifies this
      ensures Result(View(), state[..], ok) == PushRanges(old(View()), state[..], ranges)
    {
      if driver.None? || !PushPrereqs(View()) {
        return false;
      }
      var d := driver.value;
      var slot := d.Slot(0);
      if !d.ops.uploadRanges || !d.ops.mapped || slot !in d.mem {
        return false;
      }
      assert descs[0] in descs;
      var stage := d.mem[slot].stage;
      var devRanges: seq<Range> := [];
      for r := 0 to |ranges|
        invariant View() == old(View())
        invariant |stage| == |d.mem[slot].stage| && TriplesFit(ranges[..r], state.Length, |stage|)
        invariant stage == PushStage(ranges[..r], state[..], d.mem[slot].stage)
        invariant devRanges == PushedRanges(ranges[..r])
      {
        var t := ranges[r];
        assert t in ranges;
        PrefixStep(ranges, r);
        assert ranges[..r + 1][..r] == ranges[..r];
        stage := Blit(stage, t.0, state[..], t.1, t.2);
        devRanges := devRanges + [(t.0, t.2)];
      }
      assert ranges[..|ranges|] == ranges;
      var d1 := SetStage(d, slot, stage);
      driver := Some(d1.Spent());
      ok := d1.NextSucceeds();
      assert stage == PushStage(ranges, state[..], d.mem[slot].stage) && devRanges == PushedRanges(ranges);
      if ok {
        forall r | r in devRanges
          ensures r.0 + r.1 <= |stage|
        {
          var i :| 0 <= i < |devRanges| && devRanges[i] == r;
          assert ranges[i] in ranges;
        }
        var m := Mirror(stage, Upload(d.mem[slot].vram, stage, devRanges));
        driver := Some(d1.Spent().(mem := d.mem[slot := m]));
      }
    }

    /** briev_accel_init. `found` is what driver selection and driver init come to. */
    method Start(found: Option<Device>, newDescs: seq<KernelDesc>) returns (ok: bool)
      modifies this
      ensures (View(), ok) == Init(old(View()), found, newDescs)
    {
      if !initDone {
        driver := found;
        initDone := true;
      }
      descs := newDescs;
      nKernels := |newDescs|;
      if driver.None? {
        return false;
      }
      kernels := seq(|newDescs|, _ => false);
      residentSeeded := seq(|newDescs|, _ => false);
      driver := Some(FreshHandles(driver.value));
      ok := CompileAll();
    }

    /** create_kernels: compile in table order; a rejected image kills the chain. */
    method CompileAll() returns (ok: bool)
      requires driver.Some? && |kernels| == |descs|
      modifies this`driver, this`kernels
      ensures var (d, live) := CreateKernels(old(driver.value), descs, old(kernels), 0);
              driver == d && kernels == live && ok == d.Some?
    {
      ghost var goal := CreateKernels(driver.value, descs, kernels, 0);
      for i := 0 to |descs|
        invariant driver.Some? && |kernels| == |descs|
        invariant CreateKernels(driver.value, descs, kernels, i) == goal
      {
        if !descs[i].hasImage {
          kernels := kernels[i := false];
          continue;
        }
        if !driver.value.NextSucceeds() {
          driver := None;
          return false;
        }
        driver := Some(driver.value.Spent());
        kernels := kernels[i := true];
      }
      ok := true;
    }

    /** briev_accel_shutdown. */
    method Stop()
      modifies this
      ensures View() == Shutdown(old(View()))
    {
      residentSeeded := [];
      kernels := [];
      driver := None;
      initDone := false;
    }
  }
}
