/** Drivers without resident operations: every resident entry point falls back to full-copy launches. */
module AccelPlain {
  import opened Bytes
  import opened Options
  import opened AccelModel
  import opened AccelSession

  /** The driver can launch, none of its calls fails, and its table lacks a resident operation. */
  predicate Plain(rt: Rt) {
    && rt.driver.Some? && rt.driver.value.faults == [] && rt.driver.value.ops.launch
    && var ops := rt.driver.value.ops; !ops.mapped || !ops.launchDev || !ops.launchDev2d
  }

  ghost predicate PlainReady(rt: Rt, idx: nat, hostLen: nat) {
    Valid(rt) && HostFitsAll(rt, hostLen) && Plain(rt) && KernelReady(rt, idx)
  }

  /** Only buffers differ. */
  ghost predicate OnlyBuffersMoved(rt: Rt, rt': Rt) {
    rt.driver.Some? && rt'.driver.Some? && rt' == rt.(driver := Some(rt.driver.value.(mem := rt'.driver.value.mem)))
  }

  /** A resident launch of `nx` by `ny` work items is a full-copy launch of their product. */
  lemma PlainLaunch(rt: Rt, idx: nat, host: seq<byte>, nx: nat, ny: nat)
    requires PlainReady(rt, idx, |host|)
    ensures HostFits(rt.descs[idx], |host|)
    ensures var r := LaunchResident(rt, idx, host, nx, ny);
      && r.ok && r.host == EagerLaunch(rt.descs[idx], host, nx * ny)
      && OnlyBuffersMoved(rt, r.rt) && PlainReady(r.rt, idx, |r.host|)
  {
    assert HostFits(rt.descs[idx], |host|);
  }

  /** A batch is as many full-copy launches, whether the driver's table has a batch operation or not. */
  lemma {:induction false} PlainSequence(rt: Rt, idx: nat, host: seq<byte>, nx: nat, ny: nat, times: nat)
    requires PlainReady(rt, idx, |host|)
    ensures HostFits(rt.descs[idx], |host|)
    ensures var r := BatchSequential(rt, idx, host, nx, ny, times);
      r.ok && r.host == EagerLaunches(rt.descs[idx], host, nx * ny, times)
      && OnlyBuffersMoved(rt, r.rt) && PlainReady(r.rt, idx, |r.host|)
    decreases times
  {
    assert HostFits(rt.descs[idx], |host|);
    hide EagerLaunch;
    hide LaunchResident;
    if times == 0 {
    } else {
      PlainLaunch(rt, idx, host, nx, ny);
      var s := LaunchResident(rt, idx, host, nx, ny);
      PlainSequence(s.rt, idx, s.host, nx, ny, times - 1);
    }
  }

  lemma PlainBatch(rt: Rt, idx: nat, host: seq<byte>, nx: nat, ny: nat, times: nat)
    requires PlainReady(rt, idx, |host|) && times >= 1
    ensures HostFits(rt.descs[idx], |host|)
    ensures var r := LaunchBatch(rt, idx, host, nx, ny, times);
      r.ok && r.host == EagerLaunches(rt.descs[idx], host, nx * ny, times)
      && OnlyBuffersMoved(rt, r.rt) && PlainReady(r.rt, idx, |r.host|)
  {
    PlainSequence(rt, idx, host, nx, ny, times);
    hide BatchSequential;
  }

  // ── Sessions ──

  /** A session on such a driver, in which nothing counts as seeded. */
  ghost predicate PlainSession(p: Program, rt: Rt, host: seq<byte>) {
    && Valid(rt) && Available(rt) && rt.descs == p.descs && |host| == p.hostLen && HostFitsAll(rt, |host|)
    && Plain(rt) && NothingSeeded(p, rt)
  }

  lemma PlainKept(p: Program, rt: Rt, host: seq<byte>, rt': Rt, host': seq<byte>)
    requires PlainSession(p, rt, host) && OnlyBuffersMoved(rt, rt') && Valid(rt') && |host'| == |host|
    ensures PlainSession(p, rt', host')
  {
    forall idx | 0 <= idx < |p.descs| ensures !SeededFlag(rt', idx) {
      assert !SeededFlag(rt, idx);
    }
  }

  /** Every launch is of a live kernel, and every batch of at least one dispatch. */
  predicate Launchable(kernels: seq<bool>, a: Action) {
    match a
    case RunKernel(idx, _, _) => idx < |kernels| && kernels[idx]
    case RunBatch(idx, _, _, times) => idx < |kernels| && kernels[idx] && times >= 1
    case _ => true
  }

  /** One action: the host is the eager one, and everything but a push reports success. */
  lemma PlainStep(p: Program, rt: Rt, host: seq<byte>, a: Action)
    requires PlainSession(p, rt, host) && Launchable(rt.kernels, a) && PushesFit(rt.descs, |host|, [a])
    ensures forall k :: k in p.descs ==> HostFits(k, p.hostLen)
    ensures a.AppendArrays? ==> forall k :: k in rt.descs ==> TriplesFit(a.ranges, |host|, ProjSize(k))
    ensures var r := ResidentStep(rt, host, a);
      && r.host == EagerStep(p, host, a) && PlainSession(p, r.rt, r.host) && r.rt.kernels == rt.kernels
      && (Reports(a) ==> r.ok == !a.AppendArrays?)
  {
    hide EagerLaunch;
    hide EagerLaunches;
    hide LaunchResident;
    hide LaunchBatch;
    match a
    case RunKernel(idx, nx, ny) =>
      PlainLaunch(rt, idx, host, nx, ny);
      PlainKept(p, rt, host, LaunchResident(rt, idx, host, nx, ny).rt, LaunchResident(rt, idx, host, nx, ny).host);
    case RunBatch(idx, nx, ny, times) =>
      PlainBatch(rt, idx, host, nx, ny, times);
      PlainKept(p, rt, host, LaunchBatch(rt, idx, host, nx, ny, times).rt, LaunchBatch(rt, idx, host, nx, ny, times).host);
    case AppendArrays(bytes, ranges) =>
      assert a in [a];
      assert rt.kernels != [] && rt.driver.value.ops.shared ==> !SeededFlag(rt, 0);
    case _ =>
  }

  /** A session without resident operations: any mix of launches, batches, edits, downloads, pushes and
      fallbacks ends with the host state full-copy launches would leave, at every moment, with nothing to
      keep track of. Everything but a push reports success. */
  lemma {:induction false} PlainSessionIsEager(p: Program, rt: Rt, host: seq<byte>, actions: seq<Action>)
    requires PlainSession(p, rt, host) && PushesFit(rt.descs, |host|, actions)
    requires forall a :: a in actions ==> Launchable(rt.kernels, a)
    ensures forall k :: k in p.descs ==> HostFits(k, p.hostLen)
    ensures ResidentRun(rt, host, actions).host == EagerRun(p, host, actions)
    ensures (forall a :: a in actions ==> !a.AppendArrays?) ==> ResidentRun(rt, host, actions).ok
    decreases |actions|
  {
    hide ResidentStep;
    hide EagerStep;
    hide Launchable;
    if actions == [] {
    } else {
      var a := actions[0];
      assert a in actions;
      assert forall b :: b in [a] ==> b in actions;
      PlainStep(p, rt, host, a);
      var s := ResidentStep(rt, host, a);
      assert forall b :: b in actions[1..] ==> b in actions;
      PlainSessionIsEager(p, s.rt, s.host, actions[1..]);
    }
  }
}
