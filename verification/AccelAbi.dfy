/** Any sequence of calls into the C ABI: tables stay as long as the kernel set, a dead chain
    stays dead until shutdown, and the host is touched in written fields only. */
module AccelAbi {
  import opened Bytes
  import opened Options
  import opened AccelLayout
  import opened AccelModel
  import AccelPrime

  datatype Call =
    | InitCall(found: Option<Device>, descs: seq<KernelDesc>)
    | LaunchCall(idx: nat, work: nat)
    | ResidentCall(idx: nat, nx: nat, ny: nat)
    | BatchCall(idx: nat, nx: nat, ny: nat, times: nat)
    | DownloadCall(idx: nat)
    | PushCall(ranges: seq<Triple>)
    | InvalidateCall
    | ShutdownCall

  /** The state block covers the spans of all kernels, and buffers are of their kernels' size. */
  ghost predicate SpansFit(rt: Rt, hostLen: nat) {
    && (forall k :: k in rt.descs ==> DescOk(k)) && HostFitsAll(rt, hostLen)
    && (rt.driver.Some? ==> Sized(rt.driver.value, rt.descs) && Uniform(rt.driver.value, rt.descs))
  }

  /** What the C contract demands of the caller: a fresh driver holds no buffer; a call that moves
      bytes finds spans that fit. An init may bring any kernel set at any time. Nothing is asked of the
      runtime's own tables. */
  ghost predicate CallOk(rt: Rt, hostLen: nat, c: Call) {
    match c
    case InitCall(found, _) => found.Some? ==> found.value.mem == map[]
    case InvalidateCall => true
    case ShutdownCall => true
    case PushCall(ranges) =>
      SpansFit(rt, hostLen) && forall k :: k in rt.descs ==> TriplesFit(ranges, hostLen, ProjSize(k))
    case _ => SpansFit(rt, hostLen)
  }

  ghost function Perform(rt: Rt, host: seq<byte>, c: Call): (r: Result)
    requires TablesAgree(rt) && CallOk(rt, |host|, c)
    ensures |r.host| == |host| && TablesAgree(r.rt)
  {
    match c
    case InitCall(found, descs) => Result(Init(rt, found, descs).0, host, Init(rt, found, descs).1)
    case LaunchCall(idx, work) => Launch(rt, idx, host, work)
    case ResidentCall(idx, nx, ny) => LaunchResident(rt, idx, host, nx, ny)
    case BatchCall(idx, nx, ny, times) => LaunchBatch(rt, idx, host, nx, ny, times)
    case DownloadCall(idx) => Download(rt, idx, host)
    case PushCall(ranges) => PushRanges(rt, host, ranges)
    case InvalidateCall => Result(Invalidate(rt), host, true)
    case ShutdownCall => Result(Shutdown(rt), host, true)
  }

  /** The caller keeps its side of the contract throughout. */
  ghost predicate CallsOk(rt: Rt, host: seq<byte>, calls: seq<Call>)
    requires TablesAgree(rt)
    decreases |calls|
  {
    calls == [] ||
    (CallOk(rt, |host|, calls[0]) &&
     var s := Perform(rt, host, calls[0]);
     CallsOk(s.rt, s.host, calls[1..]))
  }

  /** The state after all the calls. `ok` tells whether any entry point reported success. */
  ghost function PerformAll(rt: Rt, host: seq<byte>, calls: seq<Call>): (r: Result)
    requires TablesAgree(rt) && CallsOk(rt, host, calls)
    ensures |r.host| == |host| && TablesAgree(r.rt)
    decreases |calls|
  {
    if calls == [] then Result(rt, host, false)
    else
      var s := Perform(rt, host, calls[0]);
      var rest := PerformAll(s.rt, s.host, calls[1..]);
      rest.(ok := rest.ok || (s.ok && !calls[0].InvalidateCall? && !calls[0].ShutdownCall?))
  }

  // ── Tables ──

  /** Every index an entry point takes is in range of every per-kernel table, and a field-derived
      projection holds every field. */
  ghost predicate TablesCover(rt: Rt) {
    && (rt.driver.Some? ==> |rt.kernels| == |rt.residentSeeded| == |rt.descs| == rt.nKernels)
    && (forall k, f :: k in rt.descs && k.programBytes == 0 && f in k.fields ==> f.projOffset + f.Size() <= ProjSize(k))
  }

  lemma AgreeingTablesCover(rt: Rt)
    requires TablesAgree(rt)
    ensures TablesCover(rt)
  {
    forall k, f | k in rt.descs && k.programBytes == 0 && f in k.fields
      ensures f.projOffset + f.Size() <= ProjSize(k)
    {
      MaxEndIsLeastBound(k.fields);
    }
  }

  /** Over every sequence of calls, successful or not, with any kernel set at any init. */
  lemma TablesAlwaysCover(rt: Rt, host: seq<byte>, calls: seq<Call>)
    requires TablesAgree(rt) && CallsOk(rt, host, calls)
    ensures TablesCover(PerformAll(rt, host, calls).rt)
  {
    AgreeingTablesCover(PerformAll(rt, host, calls).rt);
  }

  /** … and from the start of the process. */
  lemma BootCovers(host: seq<byte>, calls: seq<Call>)
    ensures CallsOk(BOOT, host, calls) ==> TablesCover(PerformAll(BOOT, host, calls).rt)
  {
    if CallsOk(BOOT, host, calls) {
      TablesAlwaysCover(BOOT, host, calls);
    }
  }

  // ── What an init has to respect for the later calls to meet the contract ──

  /** An init brings kernels that suit the buffers, and spans fit; nothing is asked of the other calls. */
  ghost predicate CareOk(rt: Rt, hostLen: nat, c: Call) {
    match c
    case InitCall(found, descs) => InitOk(rt, found, descs) && forall k :: k in descs ==> HostFits(k, hostLen)
    case PushCall(ranges) => forall k :: k in rt.descs ==> TriplesFit(ranges, hostLen, ProjSize(k))
    case _ => true
  }

  lemma CareKeepsValid(rt: Rt, host: seq<byte>, c: Call)
    requires Valid(rt) && HostFitsAll(rt, |host|) && CareOk(rt, |host|, c)
    ensures CallOk(rt, |host|, c)
    ensures Valid(Perform(rt, host, c).rt) && HostFitsAll(Perform(rt, host, c).rt, |host|)
  {
    hide LaunchBatch;
    hide LaunchResident;
    hide Launch;
    hide Download;
    hide PushRanges;
    hide Init;
    hide Sized;
    hide Uniform;
    hide DescOk;
    hide HostFits;
  }

  ghost predicate CarefulCalls(rt: Rt, host: seq<byte>, calls: seq<Call>)
    requires Valid(rt) && HostFitsAll(rt, |host|)
    decreases |calls|
  {
    calls == [] ||
    (CareOk(rt, |host|, calls[0]) &&
     (CareKeepsValid(rt, host, calls[0]);
      var s := Perform(rt, host, calls[0]);
      CarefulCalls(s.rt, s.host, calls[1..])))
  }

  /** Careful inits and fitting spans keep the session invariant over any calls, whatever fails, and so
      every call meets the contract. */
  lemma {:induction false} CarefulIsEnough(rt: Rt, host: seq<byte>, calls: seq<Call>)
    requires Valid(rt) && HostFitsAll(rt, |host|) && CarefulCalls(rt, host, calls)
    ensures CallsOk(rt, host, calls) && Valid(PerformAll(rt, host, calls).rt)
    decreases |calls|
  {
    hide Perform;
    hide CallOk;
    hide CareOk;
    if calls == [] {
    } else {
      CareKeepsValid(rt, host, calls[0]);
      var s := Perform(rt, host, calls[0]);
      CarefulIsEnough(s.rt, s.host, calls[1..]);
    }
  }

  // ── A contract the caller can check beforehand ──

  /** A call on kernels of one projection size. */
  ghost predicate OneSize(size: nat, hostLen: nat, c: Call) {
    match c
    case InitCall(found, descs) =>
      && (found.Some? ==> found.value.mem == map[])
      && forall k :: k in descs ==> DescOk(k) && ProjSize(k) == size && HostFits(k, hostLen)
    case PushCall(ranges) => TriplesFit(ranges, hostLen, size)
    case _ => true
  }

  /** The registered kernels and a shared buffer, if there is one, have that size. */
  ghost predicate OfSize(rt: Rt, size: nat, hostLen: nat) {
    && Valid(rt) && (forall k :: k in rt.descs ==> ProjSize(k) == size && HostFits(k, hostLen))
    && (rt.driver.Some? && rt.driver.value.ops.shared && 0 in rt.driver.value.mem ==>
         |rt.driver.value.mem[0].stage| == |rt.driver.value.mem[0].vram| == size)
  }

  /** With kernels registered, their size is that of the shared buffer. */
  lemma SharedBufferSize(rt: Rt, size: nat)
    requires Valid(rt) && rt.descs != [] && forall k :: k in rt.descs ==> ProjSize(k) == size
    requires rt.driver.Some? && rt.driver.value.ops.shared && 0 in rt.driver.value.mem
    ensures |rt.driver.value.mem[0].stage| == |rt.driver.value.mem[0].vram| == size
  {
    assert rt.driver.value.Slot(0) == 0 && rt.descs[0] in rt.descs;
  }

  /** An init on kernels of one size keeps the session invariant, with or without a shared buffer. */
  lemma InitKeepsSize(rt: Rt, found: Option<Device>, descs: seq<KernelDesc>, size: nat, hostLen: nat)
    requires OfSize(rt, size, hostLen) && OneSize(size, hostLen, InitCall(found, descs))
    ensures OfSize(Init(rt, found, descs).0, size, hostLen)
  {
    assert InitOk(rt, found, descs);
  }

  /** No kernel, no change to the driver's buffers. */
  lemma NothingRegistered(rt: Rt, host: seq<byte>, c: Call)
    requires Valid(rt) && HostFitsAll(rt, |host|) && CallOk(rt, |host|, c) && rt.descs == [] && !c.InitCall? && !c.ShutdownCall?
    ensures Perform(rt, host, c).rt.driver == rt.driver
  {
    if c.BatchCall? && c.times > 0 && rt.driver.Some? {
      assert !KernelReady(rt, c.idx);
    }
  }

  lemma CallKeepsSize(rt: Rt, host: seq<byte>, c: Call, size: nat)
    requires OfSize(rt, size, |host|) && OneSize(size, |host|, c)
    ensures CallOk(rt, |host|, c)
    ensures OfSize(Perform(rt, host, c).rt, size, |host|)
  {
    hide LaunchBatch;
    hide LaunchResident;
    hide Launch;
    hide Download;
    hide PushRanges;
    hide Init;
    hide Sized;
    hide Uniform;
    hide DescOk;
    hide HostFits;
    if c.InitCall? {
      InitKeepsSize(rt, c.found, c.descs, size, |host|);
    } else if !c.ShutdownCall? {
      var s := Perform(rt, host, c);
      assert Valid(s.rt) && s.rt.descs == rt.descs;
      if rt.descs == [] {
        NothingRegistered(rt, host, c);
      } else if s.rt.driver.Some? && s.rt.driver.value.ops.shared && 0 in s.rt.driver.value.mem {
        SharedBufferSize(s.rt, size);
      }
    }
  }

  /** Calls whose inits all bring kernels of one size and whose spans fit meet the contract whatever
      fails on the way, and end with the session invariant. */
  lemma {:induction false} OneSizeIsEnough(rt: Rt, host: seq<byte>, calls: seq<Call>, size: nat)
    requires OfSize(rt, size, |host|) && forall c :: c in calls ==> OneSize(size, |host|, c)
    ensures CallsOk(rt, host, calls) && Valid(PerformAll(rt, host, calls).rt)
    decreases |calls|
  {
    hide Perform;
    hide CallOk;
    hide OneSize;
    if calls == [] {
    } else {
      assert calls[0] in calls && forall c :: c in calls[1..] ==> c in calls;
      CallKeepsSize(rt, host, calls[0], size);
      var s := Perform(rt, host, calls[0]);
      OneSizeIsEnough(s.rt, s.host, calls[1..], size);
    }
  }

  /** … and so from the start of the process. */
  lemma OneSizeFromBoot(host: seq<byte>, calls: seq<Call>, size: nat)
    requires forall c :: c in calls ==> OneSize(size, |host|, c)
    ensures CallsOk(BOOT, host, calls)
    ensures TablesCover(PerformAll(BOOT, host, calls).rt) && Valid(PerformAll(BOOT, host, calls).rt)
  {
    OneSizeIsEnough(BOOT, host, calls, size);
    TablesAlwaysCover(BOOT, host, calls);
  }

  // ── Dead chains ──

  /** Init was tried and left no driver. */
  predicate Dead(rt: Rt) { rt.initDone && rt.driver.None? }

  /** A failed init is final: until a shutdown every call, init included, reports failure
      and leaves the host alone. */
  lemma {:induction false} DeadUntilShutdown(rt: Rt, host: seq<byte>, calls: seq<Call>)
    requires TablesAgree(rt) && CallsOk(rt, host, calls)
    requires Dead(rt) && forall c :: c in calls ==> !c.ShutdownCall?
    ensures var r := PerformAll(rt, host, calls);
      !r.ok && r.host == host && Dead(r.rt)
    decreases |calls|
  {
    if calls == [] {
    } else {
      assert calls[0] in calls;
      assert forall c :: c in calls[1..] ==> c in calls;
      var s := Perform(rt, host, calls[0]);
      assert Dead(s.rt) && s.host == host;
      DeadUntilShutdown(s.rt, s.host, calls[1..]);
    }
  }

  /** A failed init leaves the chain dead; a successful one leaves it alive. */
  lemma InitDecides(rt: Rt, found: Option<Device>, descs: seq<KernelDesc>)
    ensures Dead(Init(rt, found, descs).0) <==> !Init(rt, found, descs).1
  {
  }

  // ── The host footprint ──

  /** Some kernel of the set writes host byte `h`. */
  ghost predicate WrittenBySome(descs: seq<KernelDesc>, h: int) {
    exists k :: k in descs && HostWritten(k.fields, h)
  }

  ghost predicate KeptOutside(descs: seq<KernelDesc>, host: seq<byte>, host': seq<byte>) {
    |host| == |host'| && forall h :: 0 <= h < |host| && !WrittenBySome(descs, h) ==> host'[h] == host[h]
  }

  lemma LaunchFootprint(rt: Rt, idx: nat, host: seq<byte>, work: nat)
    requires Valid(rt) && HostFitsAll(rt, |host|)
    ensures KeptOutside(rt.descs, host, Launch(rt, idx, host, work).host)
  {
    if rt.driver.Some? && KernelReady(rt, idx) {
      AccelPrime.LaunchKeeps(rt, idx, host, work);
      Narrow(rt, idx, host, Launch(rt, idx, host, work).host);
    }
  }

  lemma Narrow(rt: Rt, idx: nat, host: seq<byte>, host': seq<byte>)
    requires idx < |rt.descs| && |host| == |host'|
    requires forall h :: 0 <= h < |host| && !HostWritten(rt.descs[idx].fields, h) ==> host'[h] == host[h]
    ensures KeptOutside(rt.descs, host, host')
  {
    forall h | 0 <= h < |host| && !WrittenBySome(rt.descs, h)
      ensures host'[h] == host[h]
    {
      assert rt.descs[idx] in rt.descs;
    }
  }

  lemma DownloadFootprint(rt: Rt, idx: nat, host: seq<byte>)
    requires Valid(rt) && HostFitsAll(rt, |host|)
    ensures KeptOutside(rt.descs, host, Download(rt, idx, host).host)
  {
    if Download(rt, idx, host).ok {
      var d := rt.driver.value;
      assert HostFits(rt.descs[idx], |host|);
      var d' := DevDownload(d, d.Slot(idx));
      ScatterKeeps(rt.descs[idx].fields, d'.mem[d.Slot(idx)].stage, host);
      Narrow(rt, idx, host, Download(rt, idx, host).host);
    }
  }

  lemma MappedFootprint(rt: Rt, idx: nat, host: seq<byte>, work: nat)
    requires Valid(rt) && HostFitsAll(rt, |host|) && rt.driver.Some? && KernelReady(rt, idx)
    requires rt.driver.value.Slot(idx) in rt.driver.value.mem
    ensures KeptOutside(rt.descs, host, RunMapped(rt, idx, host, work).host)
  {
    hide Download;
    var s := SeedOrSync(rt, idx, host);
    var rt' := Dispatch(s, idx, work, 1).0;
    DownloadFootprint(rt', idx, host);
  }

  lemma ResidentFootprint(rt: Rt, idx: nat, host: seq<byte>, nx: nat, ny: nat)
    requires Valid(rt) && HostFitsAll(rt, |host|)
    ensures KeptOutside(rt.descs, host, LaunchResident(rt, idx, host, nx, ny).host)
  {
    hide RunMapped;
    hide Launch;
    hide Prime;
    if rt.driver.None? || !KernelReady(rt, idx) {
    } else if ResidentOpsMissing(rt.driver.value.ops) {
      LaunchFootprint(rt, idx, host, Work(nx, ny));
    } else if rt.driver.value.Slot(idx) in rt.driver.value.mem {
      MappedFootprint(rt, idx, host, Work(nx, ny));
    } else {
      var p := Prime(rt, idx, host, Work(nx, ny));
      AccelPrime.PrimeIsInvisible(rt, idx, host, Work(nx, ny));
      Narrow(rt, idx, host, p.host);
      if p.ok {
        MappedFootprint(p.rt, idx, p.host, Work(nx, ny));
      }
    }
  }

  lemma {:induction false} SequentialFootprint(rt: Rt, idx: nat, host: seq<byte>, nx: nat, ny: nat, times: nat)
    requires Valid(rt) && HostFitsAll(rt, |host|)
    ensures KeptOutside(rt.descs, host, BatchSequential(rt, idx, host, nx, ny, times).host)
    decreases times
  {
    hide LaunchResident;
    if times == 0 {
    } else {
      ResidentFootprint(rt, idx, host, nx, ny);
      var s := LaunchResident(rt, idx, host, nx, ny);
      SequentialFootprint(s.rt, idx, s.host, nx, ny, times - 1);
    }
  }

  lemma BatchFootprint(rt: Rt, idx: nat, host: seq<byte>, nx: nat, ny: nat, times: nat)
    requires Valid(rt) && HostFitsAll(rt, |host|)
    ensures KeptOutside(rt.descs, host, LaunchBatch(rt, idx, host, nx, ny, times).host)
  {
    hide BatchSequential;
    SequentialFootprint(rt, idx, host, nx, ny, times);
  }

  /** The kernels registered so far and those that the calls register. */
  function Registered(descs: seq<KernelDesc>, calls: seq<Call>): seq<KernelDesc>
    decreases |calls|
  {
    if calls == [] then descs
    else if calls[0].InitCall? then descs + Registered(calls[0].descs, calls[1..])
    else Registered(descs, calls[1..])
  }

  lemma {:induction false} RegisteredKeeps(descs: seq<KernelDesc>, calls: seq<Call>, k: KernelDesc)
    requires k in descs
    ensures k in Registered(descs, calls)
    decreases |calls|
  {
    if calls == [] {
    } else if !calls[0].InitCall? {
      RegisteredKeeps(descs, calls[1..], k);
    }
  }

  /** One call stores in the written fields of the kernels registered before it. */
  lemma CallFootprint(rt: Rt, host: seq<byte>, c: Call)
    requires TablesAgree(rt) && CallOk(rt, |host|, c)
    ensures KeptOutside(rt.descs, host, Perform(rt, host, c).host)
    ensures Perform(rt, host, c).rt.descs == if c.InitCall? then c.descs else rt.descs
  {
    hide LaunchBatch;
    hide LaunchResident;
    hide Launch;
    hide Download;
    hide PushRanges;
    match c
    case LaunchCall(idx, work) => LaunchFootprint(rt, idx, host, work);
    case ResidentCall(idx, nx, ny) => ResidentFootprint(rt, idx, host, nx, ny);
    case BatchCall(idx, nx, ny, times) => BatchFootprint(rt, idx, host, nx, ny, times);
    case DownloadCall(idx) => DownloadFootprint(rt, idx, host);
    case _ =>
  }

  /** Whatever is called, inits with new kernel sets included, and whatever fails, the runtime stores
      to the host inside the fields that the kernels registered before or during the run declare as
      written. */
  lemma {:induction false} HostFootprint(rt: Rt, host: seq<byte>, calls: seq<Call>)
    requires TablesAgree(rt) && CallsOk(rt, host, calls)
    ensures KeptOutside(Registered(rt.descs, calls), host, PerformAll(rt, host, calls).host)
    decreases |calls|
  {
    hide Perform;
    hide CallOk;
    if calls == [] {
    } else {
      var c := calls[0];
      CallFootprint(rt, host, c);
      var s := Perform(rt, host, c);
      HostFootprint(s.rt, s.host, calls[1..]);
      var all := Registered(rt.descs, calls);
      forall h | 0 <= h < |host| && !WrittenBySome(all, h)
        ensures !WrittenBySome(rt.descs, h) && !WrittenBySome(Registered(s.rt.descs, calls[1..]), h)
      {
        forall k | k in rt.descs ensures k in all {
          RegisteredKeeps(rt.descs, calls, k);
        }
        forall k | k in Registered(s.rt.descs, calls[1..]) ensures k in all {
        }
      }
    }
  }
}
