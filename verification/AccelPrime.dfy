/** The lazy prime is invisible: creating a driver's buffer with a throw-away launch
    leaves every seed span of the host as the program author wrote it. */
module AccelPrime {
  import opened Bytes
  import opened AccelLayout
  import opened AccelModel

  ghost predicate HostSpansFit(fs: seq<Field>, hostLen: nat) {
    forall f :: f in fs ==> f.hostOffset + f.Size() <= hostLen
  }

  /** Restoring a snapshot puts the snapshotted bytes back on every span, even where
      spans overlap, and touches nothing else. */
  lemma {:induction false} RestoreUndoes(fs: seq<Field>, orig: seq<byte>, snap: seq<byte>, host: seq<byte>)
    requires |host| == |orig| && HostSpansFit(fs, |host|)
    requires Snapshot(fs, orig) <= snap
    ensures forall h :: 0 <= h < |host| ==>
      Restore(fs, snap, host)[h] == if HostCovered(fs, h) then orig[h] else host[h]
  {
    hide Field.Size;
    if fs == [] {
    } else {
      var last := fs[|fs| - 1];
      var init := fs[..|fs| - 1];
      assert last in fs && last.hostOffset + last.Size() <= |host|;
      assert forall f :: f in init ==> f in fs;
      var taken := orig[last.hostOffset..last.hostOffset + last.Size()];
      var at := SpanBytes(init);
      assert Snapshot(fs, orig) == Snapshot(init, orig) + taken;
      assert snap[at..at + last.Size()] == taken;
      RestoreUndoes(init, orig, snap, host);
      RestoreLast(init, last, orig, snap, at, host, Restore(init, snap, host));
      assert fs == init + [last];
    }
  }

  /** The last span written back, on top of the others. */
  lemma RestoreLast(init: seq<Field>, last: Field, orig: seq<byte>, snap: seq<byte>, at: nat, host: seq<byte>, mid: seq<byte>)
    requires |host| == |orig| == |mid| && last.hostOffset + last.Size() <= |host| && at + last.Size() <= |snap|
    requires snap[at..at + last.Size()] == orig[last.hostOffset..last.hostOffset + last.Size()]
    requires forall h :: 0 <= h < |host| ==> mid[h] == if HostCovered(init, h) then orig[h] else host[h]
    ensures forall h :: 0 <= h < |host| ==>
      Blit(mid, last.hostOffset, snap, at, last.Size())[h] == if HostCovered(init + [last], h) then orig[h] else host[h]
  {
    var size := last.Size();
    var r := Blit(mid, last.hostOffset, snap, at, size);
    forall h | 0 <= h < |host| ensures r[h] == if HostCovered(init + [last], h) then orig[h] else host[h] {
      if last.HasHost(h) {
        assert last in init + [last];
        assert snap[at..at + size][h - last.hostOffset] == orig[last.hostOffset..last.hostOffset + size][h - last.hostOffset];
      } else {
        assert HostCovered(init + [last], h) == HostCovered(init, h);
      }
    }
  }

  /** The lazy prime, whether its launch succeeds or fails: seed bytes and unwritten bytes
      of the host are what they were. No disjointness of spans is needed. */
  lemma {:induction false} PrimeIsInvisible(rt: Rt, idx: nat, host: seq<byte>, work: nat)
    requires Valid(rt) && HostFitsAll(rt, |host|) && rt.driver.Some? && KernelReady(rt, idx)
    ensures var k, p := rt.descs[idx], Prime(rt, idx, host, work);
      forall h :: 0 <= h < |host| && (HostCovered(k.seedFields, h) || !HostWritten(k.fields, h)) ==> p.host[h] == host[h]
  {
    var k := rt.descs[idx];
    assert HostFits(k, |host|);
    assert forall f :: f in k.seedFields ==> f.Fits(|host|, ProjSize(k));
    var l := Launch(rt, idx, host, work);
    RestoreUndoes(k.seedFields, host, Snapshot(k.seedFields, host), l.host);
    LaunchKeeps(rt, idx, host, work);
  }

  /** The host after the prime: the eager launch's, with the seed table's bytes put back. */
  lemma PrimedHost(rt: Rt, idx: nat, host: seq<byte>, work: nat)
    requires Valid(rt) && HostFitsAll(rt, |host|) && rt.driver.Some? && KernelReady(rt, idx)
    ensures var eager, k := Launch(rt, idx, host, work).host, rt.descs[idx];
      forall h :: 0 <= h < |host| ==>
        Prime(rt, idx, host, work).host[h] == if HostCovered(k.seedFields, h) then host[h] else eager[h]
  {
    var k := rt.descs[idx];
    assert HostFits(k, |host|);
    assert forall f :: f in k.seedFields ==> f.Fits(|host|, ProjSize(k));
    RestoreUndoes(k.seedFields, host, Snapshot(k.seedFields, host), Launch(rt, idx, host, work).host);
  }

  /** A full-copy launch changes host bytes of written fields only, whatever its outcome. */
  lemma LaunchKeeps(rt: Rt, idx: nat, host: seq<byte>, work: nat)
    requires Valid(rt) && HostFitsAll(rt, |host|) && rt.driver.Some? && KernelReady(rt, idx)
    ensures forall h :: 0 <= h < |host| && !HostWritten(rt.descs[idx].fields, h) ==>
      Launch(rt, idx, host, work).host[h] == host[h]
  {
    var d, k := rt.driver.value, rt.descs[idx];
    assert HostFits(k, |host|);
    var out := if d.ops.launch then DevLaunch(d, d.Slot(idx), k.code, Pack(k, host), work).2 else Zeros(ProjSize(k));
    ScatterKeeps(k.fields, out, host);
  }
}
