/** Sessions: what a generated runner may do between init and exit, what the full-copy
    (eager) runtime makes of it, and the bookkeeping that says which bytes are where. */
module AccelSession {
  import opened Bytes
  import opened AccelLayout
  import opened AccelModel

  // ── The program: its kernels and their layout ──

  datatype Program = Program(descs: seq<KernelDesc>, layout: seq<Field>, seeds: seq<Field>, size: nat, hostLen: nat)

  /** A kernel stores to the fields it declares as written and nowhere else. */
  ghost predicate WritesOnlyDeclared(k: KernelDesc, size: nat) {
    forall w: nat, p: seq<byte>, i :: |p| == size && 0 <= i < size && !Written(k.fields, i) ==>
      k.code(w, p)[i] == p[i]
  }

  ghost predicate Agree(p: seq<byte>, q: seq<byte>, on: set<int>) {
    |p| == |q| && forall i :: i in on && 0 <= i < |p| ==> p[i] == q[i]
  }

  /** What the kernel writes depends on the bytes `on` alone. */
  ghost predicate ReadsOnly(k: KernelDesc, size: nat, on: set<int>) {
    forall w: nat, p: seq<byte>, q: seq<byte> :: |p| == size && Agree(p, q, on) ==>
      forall i :: 0 <= i < size && Written(k.fields, i) ==> k.code(w, p)[i] == k.code(w, q)[i]
  }

  /** Arrays and scalars do not share bytes, and only arrays are kernel-written. */
  ghost predicate Separated(fs: seq<Field>) {
    && (forall f :: f in fs && f.isWrite ==> f.kind == ArrayField)
    && (forall f, g, i :: f in fs && g in fs && f.kind == ScalarField && g.kind == ArrayField && f.Has(i) ==> !g.Has(i))
  }

  ghost predicate KernelOk(p: Program, k: KernelDesc) {
    && DescOk(k) && ProjSize(k) == p.size && k.seedFields == p.seeds
    && (forall f :: f in k.fields || f in k.seedFields ==> f in p.layout)
    && |Scalars(k.fields)| <= MAX_DIRTY
    && WritesOnlyDeclared(k, p.size)
  }

  /** The compiler's promises about the descriptors of one program. */
  ghost predicate ProgramOk(p: Program) {
    && Consistent(p.layout) && Separated(p.layout) && AllFit(p.layout, p.hostLen, p.size)
    && forall k :: k in p.descs ==> KernelOk(p, k)
  }

  // ── What a runner does ──

  datatype Action =
    | RunKernel(idx: nat, nx: nat, ny: nat)
    | RunBatch(idx: nat, nx: nat, ny: nat, times: nat)
    | EditHost(bytes: map<nat, byte>)
    | Pull(idx: nat)
    | AppendArrays(bytes: map<nat, byte>, ranges: seq<Triple>)
    | FallBack(bytes: map<nat, byte>)

  /** The host state after the host program stored `bytes`. */
  function Overlay(h: seq<byte>, bytes: map<nat, byte>): (r: seq<byte>)
    ensures |r| == |h|
    ensures forall i :: 0 <= i < |h| ==> r[i] == if i in bytes then bytes[i] else h[i]
  {
    seq(|h|, i requires 0 <= i < |h| => if i in bytes then bytes[i] else h[i])
  }

  /** A full-copy launch: pack, run, unpack. */
  function EagerLaunch(k: KernelDesc, h: seq<byte>, w: nat): (r: seq<byte>)
    requires HostFits(k, |h|)
    ensures |r| == |h|
  {
    Scatter(k.fields, k.code(w, Pack(k, h)), h)
  }

  function EagerLaunches(k: KernelDesc, h: seq<byte>, w: nat, times: nat): (r: seq<byte>)
    requires HostFits(k, |h|)
    ensures |r| == |h|
    decreases times
  {
    if times == 0 then h else EagerLaunches(k, EagerLaunch(k, h, w), w, times - 1)
  }

  /** The host state after the action under the full-copy runtime, where every launch packs
      everything, runs and unpacks, and the host is always current. */
  function EagerStep(p: Program, h: seq<byte>, a: Action): (r: seq<byte>)
    requires |h| == p.hostLen && forall k :: k in p.descs ==> HostFits(k, p.hostLen)
    ensures |r| == |h|
  {
    match a
    case RunKernel(idx, nx, ny) =>
      if idx < |p.descs| then
        assert p.descs[idx] in p.descs;
        EagerLaunch(p.descs[idx], h, nx * ny)
      else h
    case RunBatch(idx, nx, ny, times) =>
      if idx < |p.descs| then
        assert p.descs[idx] in p.descs;
        EagerLaunches(p.descs[idx], h, nx * ny, times)
      else h
    case EditHost(bytes) => Overlay(h, bytes)
    case Pull(_) => h
    case AppendArrays(bytes, _) => Overlay(h, bytes)
    case FallBack(bytes) => Overlay(h, bytes)
  }

  /** The same action under the resident runtime. */
  ghost function ResidentStep(rt: Rt, h: seq<byte>, a: Action): (r: Result)
    requires Valid(rt) && HostFitsAll(rt, |h|)
    requires a.AppendArrays? ==> forall k :: k in rt.descs ==> TriplesFit(a.ranges, |h|, ProjSize(k))
    ensures Valid(r.rt) && HostFitsAll(r.rt, |h|) && |r.host| == |h| && SameHandles(rt, r.rt)
  {
    match a
    case RunKernel(idx, nx, ny) => LaunchResident(rt, idx, h, nx, ny)
    case RunBatch(idx, nx, ny, times) => LaunchBatch(rt, idx, h, nx, ny, times)
    case EditHost(bytes) => Result(rt, Overlay(h, bytes), true)
    case Pull(idx) => Download(rt, idx, h)
    case AppendArrays(bytes, ranges) => PushRanges(rt, Overlay(h, bytes), ranges)
    case FallBack(bytes) => Result(Invalidate(rt), Overlay(h, bytes), true)
  }

  // ── Whole runs ──

  function EagerRun(p: Program, h: seq<byte>, actions: seq<Action>): (r: seq<byte>)
    requires |h| == p.hostLen && forall k :: k in p.descs ==> HostFits(k, p.hostLen)
    ensures |r| == |h|
    decreases |actions|
  {
    if actions == [] then h else EagerRun(p, EagerStep(p, h, actions[0]), actions[1..])
  }

  ghost predicate PushesFit(descs: seq<KernelDesc>, hostLen: nat, actions: seq<Action>) {
    forall a, k :: a in actions && a.AppendArrays? && k in descs ==> TriplesFit(a.ranges, hostLen, ProjSize(k))
  }

  /** Actions that report success or failure to a caller that heeds it. */
  predicate Reports(a: Action) { a.RunKernel? || a.RunBatch? || a.AppendArrays? }

  /** The run on the resident runtime; `ok` tells whether every launch, batch and push reported success. */
  ghost function ResidentRun(rt: Rt, h: seq<byte>, actions: seq<Action>): (r: Result)
    requires Valid(rt) && HostFitsAll(rt, |h|) && PushesFit(rt.descs, |h|, actions)
    ensures |r.host| == |h|
    decreases |actions|
  {
    if actions == [] then Result(rt, h, true)
    else
      assert actions[0] in actions;
      var s := ResidentStep(rt, h, actions[0]);
      assert forall a :: a in actions[1..] ==> a in actions;
      var rest := ResidentRun(s.rt, s.host, actions[1..]);
      rest.(ok := rest.ok && (Reports(actions[0]) ==> s.ok))
  }

  // ── Bookkeeping: which bytes are where ──

  /** What is known of one device buffer: it does not exist yet, exists but is not seeded, or is seeded and
      its VRAM holds the up-to-date copy of the projection bytes `current`. */
  datatype Buffer = Absent | Unseeded | Seeded(current: set<int>)

  /** The buffers of the driver by slot, absent ones left out, and the projection bytes whose host copy
      is out of date. */
  datatype Track = Track(ops: Ops, buffers: map<nat, Buffer>, stale: set<int>)
  {
    function Slot(idx: nat): nat { if ops.shared then 0 else idx }

    /** The buffer kernel `idx` runs on. */
    function At(idx: nat): Buffer { if Slot(idx) in buffers then buffers[Slot(idx)] else Absent }
  }

  /** The bookkeeping of a runtime in which no buffer is seeded. */
  function Start(rt: Rt): Track
    requires rt.driver.Some?
  {
    var d := rt.driver.value;
    Track(d.ops, map s | s in d.mem :: Unseeded, {})
  }

  ghost function CoveredSet(p: Program, fs: seq<Field>): set<int> {
    set i | 0 <= i < p.size && Covered(fs, i)
  }

  ghost function WrittenSet(p: Program, k: KernelDesc): set<int> {
    set i | 0 <= i < p.size && Written(k.fields, i)
  }

  /** The bytes the kernel's first launch leaves in a new mirror as the host had them: the seed table's,
      and the packed fields unless the driver put the kernel's outputs over them. */
  ghost function PrimedSet(p: Program, k: KernelDesc, refills: bool): set<int> {
    CoveredSet(p, p.seeds) + if refills then CoveredSet(p, k.fields) - WrittenSet(p, k) else CoveredSet(p, k.fields)
  }

  /** The bytes of the buffer that a launch of `k` finds up to date when its dispatch begins. */
  ghost function Held(p: Program, k: KernelDesc, t: Track, b: Buffer): set<int> {
    match b
    case Absent => PrimedSet(p, k, t.ops.launchRefillsStage) - t.stale
    case Unseeded => CoveredSet(p, p.seeds) - t.stale
    case Seeded(current) => current + CoveredSet(p, Scalars(k.fields))
  }

  /** Those of them that the kernel can see: only its own fields count. */
  ghost function ReadSet(p: Program, k: KernelDesc, t: Track, b: Buffer): set<int> {
    CoveredSet(p, k.fields) * Held(p, k, t, b)
  }

  /** A buffer whose copies of the bytes `gone` are out of date. */
  function Without(b: Buffer, gone: set<int>): Buffer {
    if b.Seeded? then Seeded(b.current - gone) else b
  }

  function AllWithout(buffers: map<nat, Buffer>, gone: set<int>): map<nat, Buffer> {
    map s | s in buffers :: Without(buffers[s], gone)
  }

  /** Projection byte `i` stands for one of the host bytes `bytes`. */
  ghost predicate EditedByte(p: Program, bytes: map<nat, byte>, i: int) {
    exists f :: f in p.layout && f.Has(i) && f.HostOf(i) in bytes
  }

  ghost function EditedSet(p: Program, bytes: map<nat, byte>): set<int> {
    set i | 0 <= i < p.size && EditedByte(p, bytes, i)
  }

  predicate Within(t: Triple, i: int) { t.0 <= i < t.0 + t.2 }

  ghost predicate PushedByte(ts: seq<Triple>, i: int) {
    exists t :: t in ts && Within(t, i)
  }

  ghost function PushedSet(p: Program, ts: seq<Triple>): set<int> {
    set i | 0 <= i < p.size && PushedByte(ts, i)
  }

  /** Every pushed byte is a byte of the layout, copied from its own host byte. */
  ghost predicate PushOk(p: Program, ts: seq<Triple>) {
    && TriplesFit(ts, p.hostLen, p.size)
    && forall t, i :: t in ts && Within(t, i) ==> exists f :: f in p.layout && f.Has(i) && f.HostOf(i) == t.1 + i - t.0
  }

  /** The session may launch kernel `idx`: its handle is live and its seed can be recorded. */
  predicate Usable(p: Program, kernels: seq<bool>, ops: Ops, idx: nat) {
    idx < |p.descs| && idx < |kernels| && kernels[idx] && (ops.shared || idx < 32)
  }

  /** What the runner's actions must respect. A launch must find the bytes its kernel reads up to date;
      edits, downloads and fallbacks are free. */
  ghost predicate Allowed(p: Program, kernels: seq<bool>, t: Track, a: Action) {
    match a
    case RunKernel(idx, _, _) =>
      Usable(p, kernels, t.ops, idx) && ReadsOnly(p.descs[idx], p.size, ReadSet(p, p.descs[idx], t, t.At(idx)))
    case RunBatch(idx, _, _, times) =>
      && times >= 1 && Usable(p, kernels, t.ops, idx)
      && ReadsOnly(p.descs[idx], p.size, ReadSet(p, p.descs[idx], t, t.At(idx)))
    case EditHost(_) => true
    case Pull(idx) => Usable(p, kernels, t.ops, idx)
    case AppendArrays(_, ranges) =>
      t.ops.shared && t.ops.uploadRanges && Usable(p, kernels, t.ops, 0) && t.At(0).Seeded? && PushOk(p, ranges)
    case FallBack(_) => true
  }

  /** A launch: the kernel's buffer is seeded and has its outputs, no other buffer has them. The host has
      them too after a launch that seeds. */
  ghost function AfterRun(p: Program, t: Track, idx: nat): Track
    requires idx < |p.descs|
  {
    var k, b := p.descs[idx], t.At(idx);
    var w := WrittenSet(p, k);
    Track(t.ops, AllWithout(t.buffers, w)[t.Slot(idx) := Seeded(Held(p, k, t, b) + w)],
          if b.Seeded? then t.stale + w else t.stale - w)
  }

  /** A batch: the same, but the host cannot be relied on to have the outputs. */
  ghost function AfterBatch(p: Program, t: Track, idx: nat): Track
    requires idx < |p.descs|
  {
    AfterRun(p, t, idx).(stale := t.stale + WrittenSet(p, p.descs[idx]))
  }

  /** An edit: no buffer has the new bytes, and the host has them. */
  ghost function AfterEdit(p: Program, t: Track, bytes: map<nat, byte>): Track {
    var e := EditedSet(p, bytes);
    t.(buffers := AllWithout(t.buffers, e), stale := t.stale - e)
  }

  /** A download: the written bytes on the host are as good as the buffer's. */
  ghost function AfterPull(p: Program, t: Track, idx: nat): Track
    requires idx < |p.descs|
  {
    var w := WrittenSet(p, p.descs[idx]);
    match t.At(idx)
    case Seeded(current) => t.(stale := (t.stale - w) + (w - current))
    case _ => t
  }

  /** A push: the pushed bytes in the shared buffer are as good as the host's. */
  ghost function AfterPush(p: Program, t: Track, ts: seq<Triple>): Track {
    match t.At(0)
    case Seeded(current) => t.(buffers := t.buffers[t.Slot(0) := Seeded((current + PushedSet(p, ts)) - (PushedSet(p, ts) * t.stale))])
    case _ => t
  }

  /** An invalidation: no buffer counts as seeded. */
  function Fallen(t: Track): Track {
    t.(buffers := map s | s in t.buffers :: if t.buffers[s].Seeded? then Unseeded else t.buffers[s])
  }

  ghost function NextTrack(p: Program, t: Track, a: Action): Track {
    match a
    case RunKernel(idx, _, _) => if idx < |p.descs| then AfterRun(p, t, idx) else t
    case RunBatch(idx, _, _, _) => if idx < |p.descs| then AfterBatch(p, t, idx) else t
    case EditHost(bytes) => AfterEdit(p, t, bytes)
    case Pull(idx) => if idx < |p.descs| then AfterPull(p, t, idx) else t
    case AppendArrays(bytes, ranges) => AfterPush(p, AfterEdit(p, t, bytes), ranges)
    case FallBack(bytes) => Fallen(AfterEdit(p, t, bytes))
  }

  // ── What a run must respect, and the bookkeeping it leaves ──

  /** Said of the bookkeeping alone: no run is needed to check it. */
  ghost predicate Permitted(p: Program, kernels: seq<bool>, t: Track, actions: seq<Action>)
    decreases |actions|
  {
    actions == [] ||
    (Allowed(p, kernels, t, actions[0]) && Permitted(p, kernels, NextTrack(p, t, actions[0]), actions[1..]))
  }

  ghost function FinalTrack(p: Program, t: Track, actions: seq<Action>): Track
    decreases |actions|
  {
    if actions == [] then t else FinalTrack(p, NextTrack(p, t, actions[0]), actions[1..])
  }

  // ── The coherence invariant ──

  /** A session on a driver whose calls succeed and which keeps residency. */
  ghost predicate InSession(p: Program, rt: Rt) {
    ProgramOk(p) && Valid(rt) && Available(rt) && rt.descs == p.descs && Healthy(rt.driver.value)
  }

  /** Every current array byte of VRAM holds what the eager host state holds. */
  ghost predicate VramCurrent(p: Program, vram: seq<byte>, eager: seq<byte>, current: set<int>) {
    && |vram| == p.size && |eager| == p.hostLen
    && forall f, i :: f in p.layout && f.kind == ArrayField && f.Has(i) && i in current ==>
         0 <= i < |vram| && 0 <= f.HostOf(i) < |eager| && vram[i] == eager[f.HostOf(i)]
  }

  ghost predicate StaleHost(p: Program, h: int, stale: set<int>) {
    exists f :: f in p.layout && f.HasHost(h) && f.ProjOf(h) in stale
  }

  /** The resident host state differs from the eager one on stale bytes at most. */
  ghost predicate HostCurrent(p: Program, host: seq<byte>, eager: seq<byte>, stale: set<int>) {
    && |host| == |eager| == p.hostLen
    && forall h :: 0 <= h < |host| && !StaleHost(p, h, stale) ==> host[h] == eager[h]
  }

  /** The stale bytes are array bytes. */
  ghost predicate ArraysOnly(p: Program, stale: set<int>) {
    forall f, i :: f in p.layout && f.kind == ScalarField && f.Has(i) ==> i !in stale
  }

  /** The bookkeeping describes kernel `idx`'s buffer and seed flag. */
  ghost predicate Describes(p: Program, rt: Rt, eager: seq<byte>, b: Buffer, idx: nat)
    requires rt.driver.Some?
  {
    var d := rt.driver.value;
    var s := d.Slot(idx);
    && SeededFlag(rt, idx) == b.Seeded?
    && (s in d.mem <==> !b.Absent?)
    && (b.Seeded? && s in d.mem ==> VramCurrent(p, d.mem[s].vram, eager, b.current))
  }

  ghost predicate Coherent(p: Program, rt: Rt, host: seq<byte>, eager: seq<byte>, t: Track) {
    && InSession(p, rt) && t.ops == rt.driver.value.ops
    && HostCurrent(p, host, eager, t.stale) && ArraysOnly(p, t.stale)
    && forall idx :: 0 <= idx < |p.descs| && Recordable(rt, idx) ==> Describes(p, rt, eager, t.At(idx), idx)
  }

  /** No kernel counts as seeded. */
  ghost predicate NothingSeeded(p: Program, rt: Rt)
    requires rt.driver.Some?
  {
    forall idx :: 0 <= idx < |p.descs| ==> !SeededFlag(rt, idx)
  }

  lemma ProgramHostFits(p: Program)
    requires ProgramOk(p)
    ensures forall k :: k in p.descs ==> HostFits(k, p.hostLen)
  {
    forall k | k in p.descs ensures HostFits(k, p.hostLen) {
      assert KernelOk(p, k);
      forall f | f in k.fields || f in k.seedFields ensures f.Fits(p.hostLen, p.size) {
        assert f in p.layout;
      }
    }
  }
}
