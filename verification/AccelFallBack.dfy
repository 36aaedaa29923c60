/** CPU fallbacks: exactly which kernels may be launched after residency was invalidated. */
module AccelFallBack {
  import opened Bytes
  import opened AccelLayout
  import opened AccelModel
  import opened AccelSession
  import opened AccelCoherence
  import opened AccelValues
  import opened AccelRefinement
  import opened AccelLimits
  import AccelPrime

  // ── The launch after an invalidation ──

  ghost predicate Fallible(p: Program, rt: Rt, idx: nat) {
    InSession(p, rt) && Usable(p, rt.kernels, rt.driver.value.ops, idx) && HostFitsAll(rt, p.hostLen)
  }

  ghost predicate Sizes(p: Program, m: Mirror, host: seq<byte>) {
    |m.stage| == |m.vram| == p.size && |host| == p.hostLen
  }

  /** With mirror `m` on the device and `host` after a CPU body: invalidate, launch and download leave
      the host a full-copy launch would leave. */
  ghost predicate RightAfterFallBack(p: Program, rt: Rt, idx: nat, m: Mirror, host: seq<byte>, nx: nat, ny: nat)
    requires Fallible(p, rt, idx) && Sizes(p, m, host)
  {
    SessionKept(p, rt, idx, m);
    var fallen := Invalidate(WithMirror(rt, idx, m));
    var r := LaunchResident(fallen, idx, host, nx, ny);
    Download(r.rt, idx, r.host).host == Launch(fallen, idx, host, Work(nx, ny)).host
  }

  lemma FallenWaits(p: Program, rt: Rt, idx: nat, m: Mirror, host: seq<byte>)
    requires Fallible(p, rt, idx) && Sizes(p, m, host)
    ensures p.descs[idx] in p.descs && KernelOk(p, p.descs[idx]) && HostFits(p.descs[idx], p.hostLen)
    ensures var fallen := Invalidate(WithMirror(rt, idx, m));
      && InSession(p, WithMirror(rt, idx, m)) && Waiting(fallen, idx, host) && HasBuffer(fallen, idx) && Recordable(fallen, idx)
      && fallen.driver.value.mem[fallen.driver.value.Slot(idx)] == m
  {
    UsableIsReady(p, rt, idx);
    SessionKept(p, rt, idx, m);
    ConsistentPart(p, p.descs[idx].fields);
    hide ProgramOk;
    hide KernelOk;
    hide Consistent;
  }

  /** The kernel sees the seed table's bytes from the host and every other byte from the old mirror. */
  lemma FallBackValue(p: Program, rt: Rt, idx: nat, m: Mirror, host: seq<byte>, nx: nat, ny: nat)
    requires Fallible(p, rt, idx) && Sizes(p, m, host)
    ensures HostFits(p.descs[idx], p.hostLen)
    ensures var k, w := p.descs[idx], Work(nx, ny);
      && AllFit(k.seedFields, |host|, |m.stage|)
      && (RightAfterFallBack(p, rt, idx, m, host, nx, ny) <==>
          SameWritten(k.fields, k.code(w, Gather(k.seedFields, host, m.stage)), k.code(w, Pack(k, host))))
  {
    FallenWaits(p, rt, idx, m, host);
    hide InSession;
    hide KernelOk;
    hide LaunchResident;
    hide Launch;
    hide Download;
    hide Waiting;
    LaterLaunchReachesHostIff(Invalidate(WithMirror(rt, idx, m)), idx, host, nx, ny);
  }

  // ── A host state for every projection ──

  /** The projection byte the seed table copies host byte `h` to. */
  ghost function SeedPlace(p: Program, h: int): int {
    if HostCovered(p.seeds, h) then
      var f :| f in p.seeds && f.HasHost(h);
      f.ProjOf(h)
    else -1
  }

  lemma OneSeedPlace(p: Program, k: KernelDesc, f: Field, i: int)
    requires ProgramOk(p) && k in p.descs && f in p.layout && f.Has(i)
    ensures HostCovered(p.seeds, f.HostOf(i)) <==> Covered(p.seeds, i)
    ensures SeedPlace(p, f.HostOf(i)) == if Covered(p.seeds, i) then i else -1
  {
    assert KernelOk(p, k);
    var h := f.HostOf(i);
    if Covered(p.seeds, i) {
      var g :| g in p.seeds && g.Has(i);
      assert g in p.layout && g.HostOf(i) == h && g.HasHost(h);
    }
    if HostCovered(p.seeds, h) {
      var g :| g in p.seeds && g.HasHost(h) && g.ProjOf(h) == SeedPlace(p, h);
      assert g in p.layout && g.Has(g.ProjOf(h)) && g.HostOf(g.ProjOf(h)) == h;
    }
  }

  /** A host state whose seed bytes are those of the projection. */
  ghost function HostImage(p: Program, proj: seq<byte>): (h: seq<byte>)
    ensures |h| == p.hostLen
  {
    seq(p.hostLen, i requires 0 <= i < p.hostLen =>
      if 0 <= SeedPlace(p, i) < |proj| then proj[SeedPlace(p, i)] else 0)
  }

  lemma ImageByte(p: Program, k: KernelDesc, proj: seq<byte>, f: Field, i: int)
    requires ProgramOk(p) && k in p.descs && f in p.layout && f.Has(i) && |proj| == p.size
    ensures 0 <= f.HostOf(i) < p.hostLen && 0 <= i < p.size
    ensures HostImage(p, proj)[f.HostOf(i)] == if Covered(p.seeds, i) then proj[i] else 0
  {
    assert f.Fits(p.hostLen, p.size);
    OneSeedPlace(p, k, f, i);
  }

  /** Seeding from the image leaves the projection as it is. */
  lemma ImageSeeds(p: Program, k: KernelDesc, proj: seq<byte>)
    requires ProgramOk(p) && k in p.descs && |proj| == p.size && HostFits(k, p.hostLen)
    ensures AllFit(k.seedFields, p.hostLen, p.size)
    ensures Gather(k.seedFields, HostImage(p, proj), proj) == proj
  {
    assert KernelOk(p, k);
    ConsistentPart(p, k.seedFields);
    var host := HostImage(p, proj);
    GatherMeaning(k.seedFields, host, proj);
    hide HostImage;
    var g := Gather(k.seedFields, host, proj);
    hide Gather;
    forall i | 0 <= i < p.size ensures g[i] == proj[i] {
      if Covered(k.seedFields, i) {
        var f :| f in k.seedFields && f.Has(i);
        ImageByte(p, k, proj, f, i);
      }
    }
  }

  /** Projections that agree on the kernel's seeded inputs have images that pack alike. */
  lemma ImagesPackAlike(p: Program, k: KernelDesc, u: seq<byte>, v: seq<byte>)
    requires ProgramOk(p) && k in p.descs && |u| == p.size && Agree(u, v, SeededInputs(p, k)) && HostFits(k, p.hostLen)
    ensures Pack(k, HostImage(p, u)) == Pack(k, HostImage(p, v))
  {
    assert KernelOk(p, k);
    ConsistentPart(p, k.fields);
    var a, b := HostImage(p, u), HostImage(p, v);
    GatherMeaning(k.fields, a, Zeros(p.size));
    GatherMeaning(k.fields, b, Zeros(p.size));
    hide HostImage;
    hide Gather;
    forall i | 0 <= i < p.size ensures Pack(k, a)[i] == Pack(k, b)[i] {
      if Covered(k.fields, i) {
        var f :| f in k.fields && f.Has(i);
        ImageByte(p, k, u, f, i);
        ImageByte(p, k, v, f, i);
        assert Covered(p.seeds, i) ==> i in SeededInputs(p, k);
      }
    }
  }

  // ── The theorem ──

  /** The first launch after an invalidation is right for every host state and every mirror exactly
      when what the kernel writes depends on nothing but those of its bytes that the seed table
      covers: only the seed table is pushed again. */
  lemma FallBackIsRightIff(p: Program, rt: Rt, idx: nat)
    requires Fallible(p, rt, idx)
    ensures ReadsOnly(p.descs[idx], p.size, SeededInputs(p, p.descs[idx])) <==>
      forall m, host, nx, ny :: Sizes(p, m, host) ==> RightAfterFallBack(p, rt, idx, m, host, nx, ny)
  {
    var k := p.descs[idx];
    assert k in p.descs && KernelOk(p, k) && HostFits(k, p.hostLen);
    hide RightAfterFallBack;
    hide ProgramOk;
    if ReadsOnly(k, p.size, SeededInputs(p, k)) {
      forall m: Mirror, host: seq<byte>, nx: nat, ny: nat | Sizes(p, m, host)
        ensures RightAfterFallBack(p, rt, idx, m, host, nx, ny)
      {
        EnoughSeeded(p, rt, idx, m, host, nx, ny);
      }
    }
    if forall m, host, nx, ny :: Sizes(p, m, host) ==> RightAfterFallBack(p, rt, idx, m, host, nx, ny) {
      forall w: nat, u: seq<byte>, v: seq<byte> | |u| == p.size && Agree(u, v, SeededInputs(p, k))
        ensures forall i :: 0 <= i < p.size && Written(k.fields, i) ==> k.code(w, u)[i] == k.code(w, v)[i]
      {
        FallBackShows(p, rt, idx, w, u);
        FallBackShows(p, rt, idx, w, v);
        ImagesPackAlike(p, k, u, v);
      }
    }
  }

  lemma EnoughSeeded(p: Program, rt: Rt, idx: nat, m: Mirror, host: seq<byte>, nx: nat, ny: nat)
    requires Fallible(p, rt, idx) && Sizes(p, m, host)
    requires ReadsOnly(p.descs[idx], p.size, SeededInputs(p, p.descs[idx]))
    ensures RightAfterFallBack(p, rt, idx, m, host, nx, ny)
  {
    hide RightAfterFallBack;
    var k, w := p.descs[idx], Work(nx, ny);
    FallBackValue(p, rt, idx, m, host, nx, ny);
    assert k in p.descs && KernelOk(p, k);
    var t := Track(rt.driver.value.ops, map[], {});
    SeedMakesCurrent(p, k, host, m.stage, host, t);
    assert ReadSet(p, k, t, Unseeded) == SeededInputs(p, k);
    DispatchMatches(p, k, Gather(k.seedFields, host, m.stage), host, SeededInputs(p, k), w);
  }

  /** If the launch is right for the mirror `u` and its image, the kernel writes on `u` what it writes on
      the packed image. */
  lemma FallBackShows(p: Program, rt: Rt, idx: nat, w: nat, u: seq<byte>)
    requires Fallible(p, rt, idx) && |u| == p.size
    requires Sizes(p, Mirror(u, u), HostImage(p, u)) ==> RightAfterFallBack(p, rt, idx, Mirror(u, u), HostImage(p, u), w, 1)
    ensures HostFits(p.descs[idx], p.hostLen)
    ensures SameWritten(p.descs[idx].fields, p.descs[idx].code(w, u), p.descs[idx].code(w, Pack(p.descs[idx], HostImage(p, u))))
  {
    hide RightAfterFallBack;
    var k, host := p.descs[idx], HostImage(p, u);
    FallBackValue(p, rt, idx, Mirror(u, u), host, w, 1);
    assert k in p.descs;
    ImageSeeds(p, k, u);
    assert Work(w, 1) == w;
  }

  // ── A session that shows it ──

  /** A produces an array that B reads; no array is in the seed table. */
  const MADE := Field(ArrayField, 0, 1, 1, true, 0)
  const TAKEN := Field(ArrayField, 0, 1, 1, false, 0)
  const RESULT := Field(ArrayField, 1, 1, 1, true, 1)

  const SEVEN: Code := (w: nat, p: seq<byte>) => if |p| < 2 then p else p[0 := 7]
  const COPY: Code := (w: nat, p: seq<byte>) => if |p| < 2 then p else p[1 := p[0]]

  const A := KernelDesc([MADE], [], 2, true, SEVEN)
  const B := KernelDesc([TAKEN, RESULT], [], 2, true, COPY)

  const RELAY := Program([A, B], [MADE, TAKEN, RESULT], [], 2, 2)

  lemma RelayFields()
    ensures ProjSize(A) == ProjSize(B) == 2 && Scalars(A.fields) == [] && Scalars(B.fields) == []
    ensures forall f :: f in RELAY.layout ==> f.Size() == 1 && f.kind == ArrayField
    ensures forall f :: f in RELAY.layout <==> f == MADE || f == TAKEN || f == RESULT
    ensures Written(A.fields, 0) && Written(B.fields, 1) && !Written(A.fields, 1) && !Written(B.fields, 0)
  {
    assert [MADE][..0] == [] && [TAKEN, RESULT][..1] == [TAKEN] && [TAKEN][..0] == [];
    assert Scalars([TAKEN]) == [];
    assert MADE in A.fields && MADE.Has(0) && RESULT in B.fields && RESULT.Has(1);
  }

  lemma RelayOk()
    ensures ProgramOk(RELAY) && ReadsOnly(A, 2, {})
  {
    RelayFields();
    assert KernelOk(RELAY, A) && KernelOk(RELAY, B);
    forall w: nat, u: seq<byte>, v: seq<byte> | |u| == 2 && Agree(u, v, {})
      ensures forall i :: 0 <= i < 2 && Written(A.fields, i) ==> A.code(w, u)[i] == A.code(w, v)[i]
    {
    }
  }

  lemma RelayFits()
    ensures HostFits(A, 2) && HostFits(B, 2)
    ensures AllFit([MADE], 2, 2) && AllFit([TAKEN], 2, 2) && AllFit([TAKEN, RESULT], 2, 2)
  {
    RelayOk();
    ProgramHostFits(RELAY);
    assert A in RELAY.descs && B in RELAY.descs;
    assert TAKEN in B.fields;
    hide ProgramOk;
  }

  /** What A unpacks. */
  lemma AOutputs(host: seq<byte>, v: seq<byte>)
    requires |host| == |v| == 2
    ensures AllFit(A.fields, 2, 2) && Scatter(A.fields, v, host) == [v[0], host[1]]
  {
    RelayFits();
    assert [MADE][..0] == [] && Scatter([], v, host) == host;
    assert Scatter([MADE], v, host) == Blit(host, 0, v, 0, 1);
    hide Scatter;
    assert Blit(host, 0, v, 0, 1) == [v[0], host[1]];
  }

  /** What B unpacks and packs. */
  lemma BOutputs(host: seq<byte>, v: seq<byte>)
    requires |host| == |v| == 2
    ensures AllFit(B.fields, 2, 2) && Scatter(B.fields, v, host) == [host[0], v[1]]
  {
    RelayFits();
    assert [TAKEN, RESULT][..1] == [TAKEN] && [TAKEN][..0] == [] && Scatter([], v, host) == host;
    assert Scatter([TAKEN], v, host) == host;
    assert Scatter([TAKEN, RESULT], v, host) == Blit(host, 1, v, 1, 1);
    hide Scatter;
    assert Blit(host, 1, v, 1, 1) == [host[0], v[1]];
  }

  lemma BInputs(host: seq<byte>)
    requires |host| == 2
    ensures HostFits(B, 2) && Pack(B, host)[0] == host[0]
  {
    RelayFits();
    RelayFields();
    var z := Zeros(2);
    assert [TAKEN, RESULT][..1] == [TAKEN] && [TAKEN][..0] == [] && Gather([], host, z) == z;
    assert Gather([TAKEN], host, z) == Blit(z, 0, host, 0, 1);
    assert Gather([TAKEN, RESULT], host, z) == Blit(Blit(z, 0, host, 0, 1), 1, host, 1, 1);
  }

  /** A session of the two kernels on a shared driver, before anything is seeded. */
  ghost predicate RelaySession(rt: Rt, host: seq<byte>) {
    && InSession(RELAY, rt) && rt.driver.value.ops.shared && !rt.programSeeded && |host| == 2 && HostFitsAll(rt, 2)
    && Usable(RELAY, rt.kernels, rt.driver.value.ops, 0) && Usable(RELAY, rt.kernels, rt.driver.value.ops, 1)
  }

  /** Run A, download it, let a CPU body store 9 into its array and invalidate, run B: B still reads the
      seven that A left on the device, while a full-copy launch reads the nine. */
  lemma FallBackRunsOnTheOldArray(rt: Rt, host: seq<byte>)
    requires RelaySession(rt, host)
    ensures var ran := LaunchResident(rt, 0, host, 1, 1);
      var pulled := Download(ran.rt, 0, ran.host);
      var fallen, edited := Invalidate(pulled.rt), Overlay(pulled.host, map[0 := 9]);
      var last := LaunchResident(fallen, 1, edited, 1, 1);
      && pulled.host == [7, host[1]] && edited == [9, host[1]]
      && Download(last.rt, 1, last.host).host == [9, 7]
      && Launch(fallen, 1, edited, Work(1, 1)).host == [9, 9]
  {
    hide LaunchResident;
    hide Launch;
    hide Download;
    hide ProgramOk;
    AThenPull(rt, host);
    hide InSession;
    var ran := LaunchResident(rt, 0, host, 1, 1);
    var pulled := Download(ran.rt, 0, ran.host);
    var edited := Overlay(pulled.host, map[0 := 9]);
    assert edited == [9, host[1]];
    FallenSession(pulled.rt);
    BAfterFallBack(Invalidate(pulled.rt), edited, pulled.rt.driver.value.mem[0].vram);
  }

  /** The session with A's seven in both halves of the mirror. */
  ghost predicate SevenOnDevice(rt: Rt) {
    && InSession(RELAY, rt) && rt.driver.value.ops.shared && HostFitsAll(rt, 2)
    && Usable(RELAY, rt.kernels, rt.driver.value.ops, 1) && 0 in rt.driver.value.mem
    && var m := rt.driver.value.mem[0]; m.stage == m.vram && |m.vram| == 2 && m.vram[0] == 7
  }

  lemma AThenPull(rt: Rt, host: seq<byte>)
    requires RelaySession(rt, host)
    ensures var ran := LaunchResident(rt, 0, host, 1, 1);
      var pulled := Download(ran.rt, 0, ran.host);
      pulled.host == [7, host[1]] && SevenOnDevice(pulled.rt)
  {
    var w, eager := Work(1, 1), [7, host[1]];
    RelayOk();
    ARuns(rt, host);
    var ran := LaunchResident(rt, 0, host, 1, 1);
    hide LaunchResident;
    var v := ran.rt.driver.value.mem[0].vram;
    assert RELAY.descs[0] == A;
    DownloadValue(ran.rt, 0, ran.host);
    hide Download;
    AOutputs(ran.host, v);
    SessionKept(RELAY, ran.rt, 0, Mirror(v, v));
    hide ProgramOk;
  }

  /** A leaves its seven in VRAM and touches no other host byte. */
  lemma ARuns(rt: Rt, host: seq<byte>)
    requires RelaySession(rt, host)
    ensures var ran := LaunchResident(rt, 0, host, 1, 1);
      && InSession(RELAY, ran.rt) && ran.rt.programSeeded && |ran.host| == 2 && ran.host[1] == host[1]
      && 0 in ran.rt.driver.value.mem && |ran.rt.driver.value.mem[0].vram| == 2 && ran.rt.driver.value.mem[0].vram[0] == 7
  {
    var w := Work(1, 1);
    RelayOk();
    RelayFields();
    assert RELAY.descs[0] == A && A in RELAY.descs;
    UsableIsReady(RELAY, rt, 0);
    SessionMarked(RELAY, rt, 0);
    hide ProgramOk;
    hide KernelOk;
    if HasBuffer(rt, 0) {
      var v := SEVEN(w, Gather([], host, rt.driver.value.mem[0].stage));
      SeedingLaunch(rt, 0, host, w);
      hide Gather;
      hide RunMapped;
      AOutputs(host, v);
      SessionKept(RELAY, MarkSeeded(rt, 0), 0, Mirror(v, v));
    } else {
      var v, primed := SEVEN(w, FirstMirror(A, host, w, rt.driver.value.ops.launchRefillsStage)), Prime(rt, 0, host, w).host;
      FirstLaunch(rt, 0, host, 1, 1);
      AHostKept(rt, host, w);
      hide LaunchResident;
      hide Prime;
      hide FirstMirror;
      AOutputs(primed, v);
      SessionKept(RELAY, MarkSeeded(rt, 0), 0, Mirror(v, v));
    }
  }

  lemma AHostKept(rt: Rt, host: seq<byte>, w: nat)
    requires RelaySession(rt, host)
    ensures KernelReady(rt, 0) && |Prime(rt, 0, host, w).host| == 2 && Prime(rt, 0, host, w).host[1] == host[1]
  {
    AccelPrime.PrimeIsInvisible(rt, 0, host, w);
    assert RELAY.descs[0] == A;
    assert !HostWritten(A.fields, 1);
  }

  lemma FallenSession(rt: Rt)
    requires SevenOnDevice(rt)
    ensures SevenOnDevice(Invalidate(rt)) && !Invalidate(rt).programSeeded && Invalidate(rt).driver == rt.driver
  {
    hide ProgramOk;
  }

  lemma BAfterFallBack(fallen: Rt, edited: seq<byte>, v: seq<byte>)
    requires SevenOnDevice(fallen) && !fallen.programSeeded && fallen.driver.value.mem[0].vram == v
    requires |edited| == 2 && edited[0] == 9
    ensures var last := LaunchResident(fallen, 1, edited, 1, 1);
      && Download(last.rt, 1, last.host).host == [9, 7]
      && Launch(fallen, 1, edited, Work(1, 1)).host == [9, 9]
  {
    var w := Work(1, 1);
    RelayOk();
    assert RELAY.descs[1] == B && B in RELAY.descs;
    ConsistentPart(RELAY, B.fields);
    hide ProgramOk;
    hide LaunchResident;
    MappedResident(fallen, 1, edited, 1, 1);
    MappedFirstValue(fallen, 1, edited, w);
    EagerValue(fallen, 1, edited, w);
    assert Gather(B.seedFields, edited, v) == v;
    hide LaunchResident;
    hide RunMapped;
    hide Launch;
    hide Download;
    BOutputs(edited, COPY(w, v));
    BInputs(edited);
    BOutputs(edited, COPY(w, Pack(B, edited)));
  }
}
