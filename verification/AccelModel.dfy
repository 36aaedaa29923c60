/** The accelerator runtime as functions on values: the device driver's contract,
    the runtime state, and what every entry point of the C ABI does to both and to
    the host state. `AccelRuntime.Runtime` implements these step by step. */
module AccelModel {
  import opened Bytes
  import opened Options
  import opened AccelLayout

  // ── The device driver, as its ops table promises it ──

  /** The meaning of a compiled kernel image: work-item count and projection to projection. */
  type Code = f: (nat, seq<byte>) -> seq<byte> | forall w: nat, p: seq<byte> :: |f(w, p)| == |p|
    witness (w: nat, p: seq<byte>) => p

  datatype KernelDesc = KernelDesc(fields: seq<Field>, seedFields: seq<Field>, programBytes: nat,
                                   hasImage: bool, code: Code)

  /** One device buffer: the host-visible staging mirror and the working set in VRAM. */
  datatype Mirror = Mirror(stage: seq<byte>, vram: seq<byte>)

  /** Which operations the driver's table provides, and its capability bits. */
  datatype Ops = Ops(shared: bool, launch: bool, mapped: bool, launchDev: bool, launchDev2d: bool,
                     batch: bool, download: bool, uploadRanges: bool, launchRefillsStage: bool)

  /** A driver: its table, the buffers it has created, and the outcomes of its next
      fallible calls (`true` fails; calls beyond the end of the list succeed). */
  datatype Device = Device(ops: Ops, mem: map<nat, Mirror>, faults: seq<bool>)
  {
    predicate NextSucceeds() { faults == [] || !faults[0] }

    function Spent(): (d: Device)
      ensures d.ops == ops && d.mem == mem
    {
      this.(faults := if faults == [] then [] else faults[1..])
    }

    /** The buffer kernel `idx` runs on: one for the program, or one for each kernel. */
    function Slot(idx: nat): nat { if ops.shared then 0 else idx }
  }

  /** Full-copy launch: upload `proj`, run, copy the result out. Creates the buffer. */
  function DevLaunch(d: Device, slot: nat, code: Code, proj: seq<byte>, work: nat)
    : (r: (Device, bool, seq<byte>))
    ensures |r.2| == |proj|
    ensures r.0.ops == d.ops
  {
    if !d.NextSucceeds() then (d.Spent(), false, Zeros(|proj|))
    else
      var result := code(work, proj);
      var stage := if d.ops.launchRefillsStage then result else proj;
      (d.Spent().(mem := d.mem[slot := Mirror(stage, result)]), true, result)
  }

  /** A dirty byte range: offset and length. */
  type Range = (nat, nat)

  predicate RangesFit(rs: seq<Range>, n: nat) {
    forall r :: r in rs ==> r.0 + r.1 <= n
  }

  /** Copy the given ranges of the staging mirror into VRAM. */
  function Upload(vram: seq<byte>, stage: seq<byte>, dirty: seq<Range>): (r: seq<byte>)
    requires |vram| == |stage| && RangesFit(dirty, |stage|)
    ensures |r| == |vram|
  {
    if dirty == [] then vram
    else
      var (off, n) := dirty[|dirty| - 1];
      assert (off, n) in dirty;
      Blit(Upload(vram, stage, dirty[..|dirty| - 1]), off, stage, off, n)
  }

  /** `times` dispatches in a row. */
  function Iterate(code: Code, work: nat, times: nat, v: seq<byte>): (r: seq<byte>)
    ensures |r| == |v|
  {
    if times == 0 then v else code(work, Iterate(code, work, times - 1, v))
  }

  /** Resident dispatch: upload all of staging (`fullSync`) or the dirty ranges, then run `times` times. */
  function DevDispatch(d: Device, slot: nat, code: Code, work: nat, times: nat,
                       fullSync: bool, dirty: seq<Range>): (r: (Device, bool))
    requires slot in d.mem && |d.mem[slot].vram| == |d.mem[slot].stage|
    requires RangesFit(dirty, |d.mem[slot].stage|)
    ensures r.0.ops == d.ops && r.0.mem.Keys == d.mem.Keys
  {
    if !d.NextSucceeds() then (d.Spent(), false)
    else
      var m := d.mem[slot];
      var v := if fullSync then m.stage else Upload(m.vram, m.stage, dirty);
      (d.Spent().(mem := d.mem[slot := m.(vram := Iterate(code, work, times, v))]), true)
  }

  /** Pull VRAM into the staging mirror. A failure is not reported. */
  function DevDownload(d: Device, slot: nat): (r: Device)
    requires slot in d.mem
    ensures r.ops == d.ops && r.mem.Keys == d.mem.Keys
  {
    if !d.ops.download then d
    else if !d.NextSucceeds() then d.Spent()
    else d.Spent().(mem := d.mem[slot := d.mem[slot].(stage := d.mem[slot].vram)])
  }

  function SetStage(d: Device, slot: nat, stage: seq<byte>): (r: Device)
    requires slot in d.mem
    ensures r.ops == d.ops && r.mem.Keys == d.mem.Keys && r.faults == d.faults
  {
    d.(mem := d.mem[slot := d.mem[slot].(stage := stage)])
  }

  // ── Runtime state ──

  datatype Rt = Rt(driver: Option<Device>, initDone: bool, residentSeeded: seq<bool>, programSeeded: bool,
                   kernels: seq<bool>, descs: seq<KernelDesc>, nKernels: nat)

  /** The state before the first call. */
  const BOOT := Rt(None, false, [], false, [], [], 0)

  /** What one entry point leaves: runtime, host state, and the C return value. */
  datatype Result = Result(rt: Rt, host: seq<byte>, ok: bool)

  function ProjSize(k: KernelDesc): nat {
    if k.programBytes != 0 then k.programBytes else MaxEnd(k.fields)
  }

  /** A descriptor the compiler may emit: fields and seed table inside the projection,
      scalars single-valued. */
  ghost predicate DescOk(k: KernelDesc) {
    && (forall f :: f in k.fields ==> f.projOffset + f.Size() <= ProjSize(k))
    && (forall f :: f in k.seedFields ==> f.projOffset + f.Size() <= ProjSize(k))
    && (forall f :: f in k.fields && f.kind == ScalarField ==> f.count == 1)
  }

  /** `host` is large enough for every field of the descriptor. */
  ghost predicate HostFits(k: KernelDesc, hostLen: nat) {
    && AllFit(k.fields, hostLen, ProjSize(k))
    && AllFit(k.seedFields, hostLen, ProjSize(k))
  }

  ghost predicate HostFitsAll(rt: Rt, hostLen: nat) {
    forall k :: k in rt.descs ==> HostFits(k, hostLen)
  }

  /** Every buffer the driver holds for a kernel has that kernel's projection size. */
  ghost predicate Sized(d: Device, descs: seq<KernelDesc>) {
    forall i :: 0 <= i < |descs| && d.Slot(i) in d.mem ==>
      |d.mem[d.Slot(i)].stage| == |d.mem[d.Slot(i)].vram| == ProjSize(descs[i])
  }

  /** One shared buffer serves every kernel, so all projections have one size. */
  ghost predicate Uniform(d: Device, descs: seq<KernelDesc>) {
    d.ops.shared ==> forall i, j :: 0 <= i < |descs| && 0 <= j < |descs| ==> ProjSize(descs[i]) == ProjSize(descs[j])
  }

  /** With an active driver, every per-kernel table has one entry per kernel. */
  predicate TablesAgree(rt: Rt) {
    rt.driver.Some? ==> |rt.kernels| == |rt.residentSeeded| == |rt.descs| == rt.nKernels
  }

  /** The session invariant: tables that agree, and buffers of their kernels' projection size. */
  ghost predicate Valid(rt: Rt) {
    && (forall k :: k in rt.descs ==> DescOk(k))
    && TablesAgree(rt)
    && (rt.driver.Some? ==> Sized(rt.driver.value, rt.descs) && Uniform(rt.driver.value, rt.descs))
  }

  /** Replacing one kernel's buffer by one of the right size keeps every buffer the right size. */
  lemma BufferReplaced(d: Device, d': Device, descs: seq<KernelDesc>, idx: nat)
    requires Sized(d, descs) && Uniform(d, descs) && idx < |descs| && d'.ops == d.ops
    requires d'.mem == d.mem ||
             (d.Slot(idx) in d'.mem && d'.mem == d.mem[d.Slot(idx) := d'.mem[d.Slot(idx)]] &&
              |d'.mem[d.Slot(idx)].stage| == |d'.mem[d.Slot(idx)].vram| == ProjSize(descs[idx]))
    ensures Sized(d', descs) && Uniform(d', descs)
  {
    forall i | 0 <= i < |descs| && d'.Slot(i) in d'.mem
      ensures |d'.mem[d'.Slot(i)].stage| == |d'.mem[d'.Slot(i)].vram| == ProjSize(descs[i])
    {
      if d.Slot(i) == d.Slot(idx) {
        assert ProjSize(descs[i]) == ProjSize(descs[idx]);
      } else {
        assert d.Slot(i) in d.mem;
      }
    }
  }

  // ── Guards ──

  predicate Available(rt: Rt) { rt.initDone && rt.driver.Some? }

  predicate KernelReady(rt: Rt, idx: nat)
    requires Valid(rt)
  {
    Available(rt) && idx < rt.nKernels && rt.kernels != [] && rt.kernels[idx]
  }

  /** The number of kernels that have a seed flag of their own. */
  const FLAG_SLOTS: nat := 32

  predicate SeededFlag(rt: Rt, idx: nat)
    requires rt.driver.Some?
  {
    if rt.driver.value.ops.shared then rt.programSeeded
    else idx < FLAG_SLOTS && idx < |rt.residentSeeded| && rt.residentSeeded[idx]
  }

  /** A seed of kernel `idx` can be recorded. */
  predicate Recordable(rt: Rt, idx: nat)
    requires rt.driver.Some?
  {
    rt.driver.value.ops.shared || idx < FLAG_SLOTS
  }

  predicate ResidentOpsMissing(o: Ops) { !o.launchDev2d || !o.mapped || !o.launchDev }

  /** A driver whose next calls succeed and which keeps residency. */
  predicate Healthy(d: Device) {
    d.faults == [] && !ResidentOpsMissing(d.ops) && d.ops.launch && d.ops.download
  }

  predicate PushPrereqs(rt: Rt)
    requires rt.driver.Some?
  {
    Available(rt) && rt.kernels != [] && rt.kernels[0] && rt.programSeeded && rt.driver.value.ops.shared
  }

  /** Only init and shutdown change the kernel handles and the driver's table. */
  ghost predicate SameHandles(rt: Rt, rt': Rt) {
    && rt'.descs == rt.descs && rt'.kernels == rt.kernels && rt'.nKernels == rt.nKernels && rt'.initDone == rt.initDone
    && rt'.driver.Some? == rt.driver.Some?
    && (rt.driver.Some? ==> rt'.driver.value.ops == rt.driver.value.ops)
  }

  // ── Full-copy launch ──

  /** The projection a full-copy launch uploads. */
  function Pack(k: KernelDesc, host: seq<byte>): (r: seq<byte>)
    requires HostFits(k, |host|)
    ensures |r| == ProjSize(k)
  {
    Gather(k.fields, host, Zeros(ProjSize(k)))
  }

  function Launch(rt: Rt, idx: nat, host: seq<byte>, work: nat): (r: Result)
    requires Valid(rt) && HostFitsAll(rt, |host|)
    ensures Valid(r.rt) && HostFitsAll(r.rt, |host|) && |r.host| == |host| && SameHandles(rt, r.rt)
  {
    if rt.driver.None? || !KernelReady(rt, idx) then Result(rt, host, false)
    else
      var d, k := rt.driver.value, rt.descs[idx];
      var proj := Pack(k, host);
      var (d', ok, out) := if d.ops.launch then DevLaunch(d, d.Slot(idx), k.code, proj, work)
                           else (d, false, Zeros(ProjSize(k)));
      BufferReplaced(d, d', rt.descs, idx);
      Result(rt.(driver := Some(d')), Scatter(k.fields, out, host), ok)
  }

  // ── Lazy prime ──

  function SpanBytes(fs: seq<Field>): nat {
    if fs == [] then 0 else SpanBytes(fs[..|fs| - 1]) + fs[|fs| - 1].Size()
  }

  /** The seed spans of the host state, back to back. */
  function Snapshot(fs: seq<Field>, host: seq<byte>): (r: seq<byte>)
    requires forall f :: f in fs ==> f.hostOffset + f.Size() <= |host|
    ensures |r| == SpanBytes(fs)
  {
    if fs == [] then []
    else
      var f := fs[|fs| - 1];
      assert f in fs && f.hostOffset + f.Size() <= |host|;
      Snapshot(fs[..|fs| - 1], host) + host[f.hostOffset..f.hostOffset + f.Size()]
  }

  /** Write the saved spans back, in table order. */
  function Restore(fs: seq<Field>, snap: seq<byte>, host: seq<byte>): (r: seq<byte>)
    requires forall f :: f in fs ==> f.hostOffset + f.Size() <= |host|
    requires |snap| >= SpanBytes(fs)
    ensures |r| == |host|
  {
    if fs == [] then host
    else
      var f := fs[|fs| - 1];
      assert f in fs && f.hostOffset + f.Size() <= |host|;
      Blit(Restore(fs[..|fs| - 1], snap, host), f.hostOffset, snap, SpanBytes(fs[..|fs| - 1]), f.Size())
  }

  /** Create a lazy driver's buffer by one full launch, keeping the seed spans of the host. */
  function Prime(rt: Rt, idx: nat, host: seq<byte>, work: nat): (r: Result)
    requires Valid(rt) && HostFitsAll(rt, |host|) && rt.driver.Some? && KernelReady(rt, idx)
    ensures Valid(r.rt) && HostFitsAll(r.rt, |host|) && |r.host| == |host| && SameHandles(rt, r.rt)
    ensures r.rt.driver.Some? && KernelReady(r.rt, idx)
    ensures r.rt.descs == rt.descs && r.rt.driver.value.ops == rt.driver.value.ops
    ensures r.ok ==> r.rt.driver.value.Slot(idx) in r.rt.driver.value.mem
  {
    var k := rt.descs[idx];
    assert HostFits(k, |host|);
    assert forall f :: f in k.seedFields ==> f.Fits(|host|, ProjSize(k));
    var snap := Snapshot(k.seedFields, host);
    var l := Launch(rt, idx, host, work);
    var host' := Restore(k.seedFields, snap, l.host);
    var d' := l.rt.driver.value;
    Result(l.rt, host', l.ok && d'.Slot(idx) in d'.mem)
  }

  // ── Resident launch ──

  /** Outcome of the seed-or-sync step. */
  datatype Sync = Sync(rt: Rt, fullSync: bool, dirty: seq<Range>)

  function MarkSeeded(rt: Rt, idx: nat): (r: Rt)
    requires rt.driver.Some?
    requires idx < |rt.residentSeeded|
    ensures Valid(rt) ==> Valid(r)
  {
    if rt.driver.value.ops.shared then rt.(programSeeded := true)
    else if idx < FLAG_SLOTS then rt.(residentSeeded := rt.residentSeeded[idx := true])
    else rt
  }

  function DirtyRanges(fs: seq<Field>): (r: seq<Range>)
    ensures |r| == |fs|
    ensures forall i :: 0 <= i < |r| ==> r[i] == (fs[i].projOffset, fs[i].elemBytes)
  {
    seq(|fs|, i requires 0 <= i < |fs| => (fs[i].projOffset, fs[i].elemBytes))
  }

  /** Replace kernel `idx`'s staging mirror. */
  function WithStage(rt: Rt, idx: nat, stage: seq<byte>): (r: Rt)
    requires Valid(rt) && rt.driver.Some? && idx < rt.nKernels
    requires rt.driver.value.Slot(idx) in rt.driver.value.mem && |stage| == ProjSize(rt.descs[idx])
    ensures Valid(r) && r == rt.(driver := r.driver) && r.driver.Some?
    ensures r.driver.value.ops == rt.driver.value.ops && r.driver.value.mem.Keys == rt.driver.value.mem.Keys
  {
    var d := rt.driver.value;
    var d' := SetStage(d, d.Slot(idx), stage);
    BufferReplaced(d, d', rt.descs, idx);
    rt.(driver := Some(d'))
  }

  /** First launch: fill the staging mirror from the seed table. */
  function Seed(rt: Rt, idx: nat, host: seq<byte>): (r: Rt)
    requires Valid(rt) && HostFitsAll(rt, |host|) && rt.driver.Some? && idx < rt.nKernels
    requires rt.driver.value.Slot(idx) in rt.driver.value.mem
    ensures Valid(r) && r.driver.Some? && r.descs == rt.descs && r.kernels == rt.kernels
    ensures r.initDone == rt.initDone && r.nKernels == rt.nKernels
    ensures r.driver.value.ops == rt.driver.value.ops && r.driver.value.mem.Keys == rt.driver.value.mem.Keys
  {
    var d, k := rt.driver.value, rt.descs[idx];
    assert HostFits(k, |host|);
    MarkSeeded(WithStage(rt, idx, Gather(k.seedFields, host, d.mem[d.Slot(idx)].stage)), idx)
  }

  /** Later launches: refresh the scalars in the staging mirror. */
  function SyncScalars(rt: Rt, idx: nat, host: seq<byte>): (r: Rt)
    requires Valid(rt) && HostFitsAll(rt, |host|) && rt.driver.Some? && idx < rt.nKernels
    requires rt.driver.value.Slot(idx) in rt.driver.value.mem
    ensures Valid(r) && r.driver.Some? && r == rt.(driver := r.driver)
    ensures r.driver.value.ops == rt.driver.value.ops && r.driver.value.mem.Keys == rt.driver.value.mem.Keys
  {
    var d, k := rt.driver.value, rt.descs[idx];
    assert HostFits(k, |host|);
    WithStage(rt, idx, Gather(SyncList(k.fields), host, d.mem[d.Slot(idx)].stage))
  }

  lemma DirtyRangesFit(k: KernelDesc)
    requires DescOk(k)
    ensures RangesFit(DirtyRanges(SyncList(k.fields)), ProjSize(k))
  {
    var fs := SyncList(k.fields);
    forall r | r in DirtyRanges(fs)
      ensures r.0 + r.1 <= ProjSize(k)
    {
      var i :| 0 <= i < |fs| && DirtyRanges(fs)[i] == r;
      assert fs[i] in k.fields && fs[i].count == 1;
    }
  }

  /** The first launch seeds; later launches refresh the scalars and name their bytes as dirty. */
  function SeedOrSync(rt: Rt, idx: nat, host: seq<byte>): (r: Sync)
    requires Valid(rt) && HostFitsAll(rt, |host|) && rt.driver.Some? && KernelReady(rt, idx)
    requires rt.driver.value.Slot(idx) in rt.driver.value.mem
    ensures Valid(r.rt) && HostFitsAll(r.rt, |host|) && r.rt.driver.Some? && KernelReady(r.rt, idx)
    ensures r.rt.driver.value.ops == rt.driver.value.ops && r.rt.descs == rt.descs
    ensures r.rt.driver.value.Slot(idx) in r.rt.driver.value.mem
    ensures RangesFit(r.dirty, ProjSize(rt.descs[idx]))
  {
    if !SeededFlag(rt, idx) then Sync(Seed(rt, idx, host), true, [])
    else
      DirtyRangesFit(rt.descs[idx]);
      Sync(SyncScalars(rt, idx, host), false, DirtyRanges(SyncList(rt.descs[idx].fields)))
  }

  /** Hand the synced buffer to the driver and run. */
  function Dispatch(s: Sync, idx: nat, work: nat, times: nat): (r: (Rt, bool))
    requires Valid(s.rt) && s.rt.driver.Some? && idx < s.rt.nKernels
    requires s.rt.driver.value.Slot(idx) in s.rt.driver.value.mem
    requires RangesFit(s.dirty, ProjSize(s.rt.descs[idx]))
    ensures Valid(r.0) && r.0 == s.rt.(driver := r.0.driver) && r.0.driver.Some?
    ensures r.0.driver.value.ops == s.rt.driver.value.ops
  {
    var d := s.rt.driver.value;
    var (d', ok) := DevDispatch(d, d.Slot(idx), s.rt.descs[idx].code, work, times, s.fullSync, s.dirty);
    BufferReplaced(d, d', s.rt.descs, idx);
    (s.rt.(driver := Some(d')), ok)
  }

  /** Pull the written fields (both download entry points; images are not modelled). */
  function Download(rt: Rt, idx: nat, host: seq<byte>): (r: Result)
    requires Valid(rt) && HostFitsAll(rt, |host|)
    ensures Valid(r.rt) && HostFitsAll(r.rt, |host|) && |r.host| == |host| && SameHandles(rt, r.rt)
  {
    if rt.driver.None? || !KernelReady(rt, idx) || !SeededFlag(rt, idx) then Result(rt, host, false)
    else
      var d := rt.driver.value;
      var slot := d.Slot(idx);
      if !d.ops.mapped || slot !in d.mem then Result(rt, host, false)
      else
        var d' := DevDownload(d, slot);
        BufferReplaced(d, d', rt.descs, idx);
        assert HostFits(rt.descs[idx], |host|);
        Result(rt.(driver := Some(d')), Scatter(rt.descs[idx].fields, d'.mem[slot].stage, host), true)
  }

  /** A resident launch into a buffer that exists: sync, run, and after a seed pull the outputs. */
  function RunMapped(rt: Rt, idx: nat, host: seq<byte>, work: nat): (r: Result)
    requires Valid(rt) && HostFitsAll(rt, |host|) && rt.driver.Some? && KernelReady(rt, idx)
    requires rt.driver.value.Slot(idx) in rt.driver.value.mem
    ensures Valid(r.rt) && HostFitsAll(r.rt, |host|) && |r.host| == |host| && SameHandles(rt, r.rt)
  {
    var s := SeedOrSync(rt, idx, host);
    var (rt', ok) := Dispatch(s, idx, work, 1);
    if ok && s.fullSync then
      var pulled := Download(rt', idx, host);
      Result(pulled.rt, pulled.host, true)
    else Result(rt', host, ok)
  }

  /** The work items of a two-dimensional launch. */
  function Work(nx: nat, ny: nat): nat { nx * ny }

  function LaunchResident(rt: Rt, idx: nat, host: seq<byte>, nx: nat, ny: nat): (r: Result)
    requires Valid(rt) && HostFitsAll(rt, |host|)
    ensures Valid(r.rt) && HostFitsAll(r.rt, |host|) && |r.host| == |host| && SameHandles(rt, r.rt)
  {
    if rt.driver.None? || !KernelReady(rt, idx) then Result(rt, host, false)
    else if ResidentOpsMissing(rt.driver.value.ops) then Launch(rt, idx, host, Work(nx, ny))
    else if rt.driver.value.Slot(idx) in rt.driver.value.mem then RunMapped(rt, idx, host, Work(nx, ny))
    else
      var p := Prime(rt, idx, host, Work(nx, ny));
      if p.ok then RunMapped(p.rt, idx, p.host, Work(nx, ny)) else p
  }

  // ── Batches ──

  function BatchSequential(rt: Rt, idx: nat, host: seq<byte>, nx: nat, ny: nat, times: nat): (r: Result)
    requires Valid(rt) && HostFitsAll(rt, |host|)
    ensures Valid(r.rt) && HostFitsAll(r.rt, |host|) && |r.host| == |host| && SameHandles(rt, r.rt)
    decreases times
  {
    if times == 0 then Result(rt, host, true)
    else
      var s := LaunchResident(rt, idx, host, nx, ny);
      if !s.ok then s else BatchSequential(s.rt, idx, s.host, nx, ny, times - 1)
  }

  function LaunchBatch(rt: Rt, idx: nat, host: seq<byte>, nx: nat, ny: nat, times: nat): (r: Result)
    requires Valid(rt) && HostFitsAll(rt, |host|)
    ensures Valid(r.rt) && HostFitsAll(r.rt, |host|) && |r.host| == |host| && SameHandles(rt, r.rt)
  {
    if rt.driver.None? || !KernelReady(rt, idx) || times == 0 then Result(rt, host, false)
    else
      var d := rt.driver.value;
      if ResidentOpsMissing(d.ops) || !d.ops.batch || d.Slot(idx) !in d.mem then
        BatchSequential(rt, idx, host, nx, ny, times)
      else
        var s := SeedOrSync(rt, idx, host);
        var (rt', ok) := Dispatch(s, idx, Work(nx, ny), times);
        Result(rt', host, ok)
  }

  // ── Coherence entry points ──

  function Invalidate(rt: Rt): (r: Rt)
    ensures Valid(rt) ==> Valid(r)
    ensures SameHandles(rt, r)
  {
    rt.(residentSeeded := seq(|rt.residentSeeded|, _ => false), programSeeded := false)
  }

  /** A pushed range: projection offset, host offset, bytes. */
  type Triple = (nat, nat, nat)

  predicate TriplesFit(ts: seq<Triple>, hostLen: nat, projLen: nat) {
    forall t :: t in ts ==> t.0 + t.2 <= projLen && t.1 + t.2 <= hostLen
  }

  /** Copy the pushed ranges from the host into the staging mirror, in order. */
  function PushStage(ts: seq<Triple>, host: seq<byte>, stage: seq<byte>): (r: seq<byte>)
    requires TriplesFit(ts, |host|, |stage|)
    ensures |r| == |stage|
  {
    if ts == [] then stage
    else
      var t := ts[|ts| - 1];
      assert t in ts;
      Blit(PushStage(ts[..|ts| - 1], host, stage), t.0, host, t.1, t.2)
  }

  function PushedRanges(ts: seq<Triple>): (r: seq<Range>)
    ensures |r| == |ts|
    ensures forall i :: 0 <= i < |r| ==> r[i] == (ts[i].0, ts[i].2)
  {
    seq(|ts|, i requires 0 <= i < |ts| => (ts[i].0, ts[i].2))
  }

  function PushRanges(rt: Rt, host: seq<byte>, ts: seq<Triple>): (r: Result)
    requires Valid(rt) && HostFitsAll(rt, |host|)
    requires forall k :: k in rt.descs ==> TriplesFit(ts, |host|, ProjSize(k))
    ensures Valid(r.rt) && HostFitsAll(r.rt, |host|) && r.host == host && SameHandles(rt, r.rt)
  {
    if rt.driver.None? || !PushPrereqs(rt) then Result(rt, host, false)
    else
      var d := rt.driver.value;
      var slot := d.Slot(0);
      if !d.ops.uploadRanges || !d.ops.mapped || slot !in d.mem then Result(rt, host, false)
      else
        assert rt.descs[0] in rt.descs;
        var m := d.mem[slot];
        var stage := PushStage(ts, host, m.stage);
        var d1 := SetStage(d, slot, stage);
        if !d1.NextSucceeds() then Result(rt.(driver := Some(d1.Spent())), host, false)
        else
          assert RangesFit(PushedRanges(ts), |stage|) by {
            forall r | r in PushedRanges(ts) ensures r.0 + r.1 <= |stage| {
              var i :| 0 <= i < |ts| && PushedRanges(ts)[i] == r;
              assert ts[i] in ts;
            }
          }
          var d2 := d1.Spent().(mem := d.mem[slot := Mirror(stage, Upload(m.vram, stage, PushedRanges(ts)))]);
          Result(rt.(driver := Some(d2)), host, true)
  }

  // ── Init and shutdown ──

  /** The outcome of compiling the kernels from `i` on: driver, live handles, success. */
  function CreateKernels(d: Device, descs: seq<KernelDesc>, live: seq<bool>, i: nat)
    : (r: (Option<Device>, seq<bool>))
    requires |live| == |descs| && i <= |descs|
    ensures |r.1| == |descs|
    ensures r.0.Some? ==> r.0.value.ops == d.ops && r.0.value.mem == d.mem
    decreases |descs| - i
  {
    if i == |descs| then (Some(d), live)
    else if !descs[i].hasImage then CreateKernels(d, descs, live[i := false], i + 1)
    else if !d.NextSucceeds() then (None, live)
    else CreateKernels(d.Spent(), descs, live[i := true], i + 1)
  }

  /** What init finds: `found` is the outcome of driver selection and driver init. */
  function Selected(rt: Rt, found: Option<Device>): Option<Device> {
    if rt.initDone then rt.driver else found
  }

  /** New handles start without a buffer; a shared buffer outlives its handles. */
  function FreshHandles(d: Device): (r: Device)
    ensures r.ops == d.ops && r.faults == d.faults
  {
    if d.ops.shared then d else d.(mem := map[])
  }

  ghost predicate InitOk(rt: Rt, found: Option<Device>, descs: seq<KernelDesc>) {
    && (forall k :: k in descs ==> DescOk(k))
    && (found.Some? ==> found.value.mem == map[])
    && (Selected(rt, found).Some? ==>
         var d := FreshHandles(Selected(rt, found).value);
         Sized(d, descs) && Uniform(d, descs))
  }

  /** Init resets the tables whatever it is given; the rest of the session invariant needs buffers of
      the right size. */
  function Init(rt: Rt, found: Option<Device>, descs: seq<KernelDesc>): (r: (Rt, bool))
    ensures InitOk(rt, found, descs) ==> Valid(r.0)
    ensures TablesAgree(r.0)
    ensures r.0.descs == descs
    ensures r.1 == Available(r.0)
  {
    var sel := Selected(rt, found);
    var rt1 := rt.(driver := sel, initDone := true, descs := descs, nKernels := |descs|);
    if sel.None? then (rt1, false)
    else
      var none := seq(|descs|, _ => false);
      var (d', live) := CreateKernels(FreshHandles(sel.value), descs, none, 0);
      (rt1.(driver := d', kernels := live, residentSeeded := none), d'.Some?)
  }

  /** Shutdown frees the handles and the driver. It leaves `programSeeded` as it is. */
  function Shutdown(rt: Rt): (r: Rt)
    ensures Valid(rt) ==> Valid(r)
    ensures r.programSeeded == rt.programSeeded
  {
    rt.(residentSeeded := [], kernels := [], driver := None, initDone := false)
  }
}
