/** What init makes of a driver that rejects kernel images. */
module AccelInit {
  import opened Options
  import opened AccelModel

  /** How many of the kernels bring an image. */
  function Images(descs: seq<KernelDesc>): (n: nat)
    ensures n <= |descs|
  {
    if descs == [] then 0 else (if descs[0].hasImage then 1 else 0) + Images(descs[1..])
  }

  /** One of the driver's next `n` calls fails. */
  predicate FailsWithin(faults: seq<bool>, n: nat) {
    exists j :: 0 <= j < n && j < |faults| && faults[j]
  }

  /** Nothing is left of the driver after one rejected image. */
  lemma FaultsShift(d: Device, n: nat)
    ensures FailsWithin(d.faults, n + 1) <==> !d.NextSucceeds() || FailsWithin(d.Spent().faults, n)
  {
    var fs, rest := d.faults, d.Spent().faults;
    if FailsWithin(fs, n + 1) && d.NextSucceeds() {
      var j :| 0 <= j < n + 1 && j < |fs| && fs[j];
      assert rest[j - 1];
    }
    if FailsWithin(rest, n) {
      var j :| 0 <= j < n && j < |rest| && rest[j];
      assert fs[j + 1];
    }
    if !d.NextSucceeds() {
      assert fs[0];
    }
  }

  /** Compiling from kernel `i` on ends the chain exactly when one of the images that are left is
      rejected; otherwise exactly the kernels with an image get a live handle. */
  lemma {:induction false} CompiledOrDead(d: Device, descs: seq<KernelDesc>, live: seq<bool>, i: nat)
    requires |live| == |descs| && i <= |descs|
    ensures var (d', live') := CreateKernels(d, descs, live, i);
      && (d'.None? <==> FailsWithin(d.faults, Images(descs[i..])))
      && (d'.Some? ==> forall j :: 0 <= j < |descs| ==> live'[j] == if j < i then live[j] else descs[j].hasImage)
    decreases |descs| - i
  {
    if i == |descs| {
      assert Images(descs[i..]) == 0;
    } else {
      assert descs[i..][1..] == descs[i + 1..];
      if !descs[i].hasImage {
        CompiledOrDead(d, descs, live[i := false], i + 1);
      } else {
        FaultsShift(d, Images(descs[i + 1..]));
        CompiledOrDead(d.Spent(), descs, live[i := true], i + 1);
      }
    }
  }

  /** A successful init starts the kernels afresh: no seed flag is set, the program's flag is the old one, and
      only a shared driver in use keeps its buffer. */
  lemma InitStartsAfresh(rt: Rt, found: Option<Device>, descs: seq<KernelDesc>)
    ensures var (rt', ok) := Init(rt, found, descs);
      ok ==>
      && |rt'.residentSeeded| == |descs| && (forall j :: 0 <= j < |descs| ==> !rt'.residentSeeded[j])
      && rt'.programSeeded == rt.programSeeded && rt'.initDone && rt'.descs == descs
      && var device := (if rt.initDone then rt.driver else found).value;
         rt'.driver.value.ops == device.ops && rt'.driver.value.mem == if device.ops.shared then device.mem else map[]
  {
  }

  /** Init reports success exactly when a device is selected (the one in use, or the one found by a first
      init) and it rejects no image; then exactly the kernels with an image are live. After a rejection
      no driver is left. */
  lemma InitSucceedsIff(rt: Rt, found: Option<Device>, descs: seq<KernelDesc>)
    ensures var (rt', ok) := Init(rt, found, descs);
      var device := if rt.initDone then rt.driver else found;
      && (ok <==> device.Some? && !FailsWithin(device.value.faults, Images(descs)))
      && (ok <==> rt'.driver.Some?)
      && (ok ==> |rt'.kernels| == |descs| && forall j :: 0 <= j < |descs| ==> rt'.kernels[j] == descs[j].hasImage)
  {
    var device := if rt.initDone then rt.driver else found;
    if device.Some? {
      CompiledOrDead(FreshHandles(device.value), descs, seq(|descs|, _ => false), 0);
      assert descs[0..] == descs;
    }
  }
}
