/** Residency is coherent: over every session the resident runtime keeps VRAM, staging
    and host state equal, byte for byte, to what the full-copy runtime computes. */
module AccelCoherence {
  import opened Bytes
  import opened AccelLayout
  import opened AccelModel
  import opened AccelSession
  import opened AccelValues

  // ── Copies, byte by byte ──

  ghost predicate InRanges(rs: seq<Range>, i: int) {
    exists r :: r in rs && r.0 <= i < r.0 + r.1
  }

  /** Uploading ranges refreshes exactly the bytes they name. */
  lemma {:induction false} UploadMeaning(vram: seq<byte>, stage: seq<byte>, rs: seq<Range>)
    requires |vram| == |stage| && RangesFit(rs, |stage|)
    ensures forall i :: 0 <= i < |vram| ==>
      Upload(vram, stage, rs)[i] == if InRanges(rs, i) then stage[i] else vram[i]
  {
    if rs == [] {
    } else {
      var last := rs[|rs| - 1];
      var init := rs[..|rs| - 1];
      assert forall r :: r in rs <==> r in init || r == last;
      UploadMeaning(vram, stage, init);
      forall i | 0 <= i < |vram|
        ensures Upload(vram, stage, rs)[i] == if InRanges(rs, i) then stage[i] else vram[i]
      {
        if last.0 <= i < last.0 + last.1 {
          assert InRanges(rs, i);
        } else {
          assert InRanges(rs, i) == InRanges(init, i);
        }
      }
    }
  }

  /** The dirty ranges name exactly the bytes of the synced scalars. */
  lemma DirtyIsScalars(k: KernelDesc, i: int)
    requires DescOk(k)
    ensures InRanges(DirtyRanges(SyncList(k.fields)), i) <==> Covered(SyncList(k.fields), i)
  {
    var fs := SyncList(k.fields);
    var rs := DirtyRanges(fs);
    if InRanges(rs, i) {
      var r :| r in rs && r.0 <= i < r.0 + r.1;
      var j :| 0 <= j < |rs| && rs[j] == r;
      assert fs[j] in fs && fs[j].count == 1 && fs[j].Has(i);
    }
    if Covered(fs, i) {
      var f :| f in fs && f.Has(i);
      var j :| 0 <= j < |fs| && fs[j] == f;
      assert f.count == 1 && rs[j] in rs && rs[j] == (f.projOffset, f.elemBytes);
    }
  }

  /** A scalar sync leaves every synced scalar byte of VRAM equal to its host byte and keeps the rest. */
  lemma SyncMeaning(k: KernelDesc, host: seq<byte>, m: Mirror)
    requires DescOk(k) && AllFit(k.fields, |host|, |m.stage|) && |m.stage| == |m.vram| == ProjSize(k)
    requires Consistent(k.fields)
    ensures RangesFit(DirtyRanges(SyncList(k.fields)), |m.stage|)
    ensures var v := Upload(m.vram, Gather(SyncList(k.fields), host, m.stage), DirtyRanges(SyncList(k.fields)));
      && (forall f, i :: f in SyncList(k.fields) && f.Has(i) ==> v[i] == host[f.HostOf(i)])
      && (forall i :: 0 <= i < |v| && !Covered(SyncList(k.fields), i) ==> v[i] == m.vram[i])
  {
    var fs := SyncList(k.fields);
    DirtyRangesFit(k);
    var stage := Gather(fs, host, m.stage);
    GatherMeaning(fs, host, m.stage);
    UploadMeaning(m.vram, stage, DirtyRanges(fs));
    var v := Upload(m.vram, stage, DirtyRanges(fs));
    forall f, i | f in fs && f.Has(i)
      ensures v[i] == host[f.HostOf(i)]
    {
      assert f.Fits(|host|, |m.stage|) && Covered(fs, i);
      DirtyIsScalars(k, i);
    }
    forall i | 0 <= i < |v| && !Covered(fs, i)
      ensures v[i] == m.vram[i]
    {
      DirtyIsScalars(k, i);
    }
  }

  /** In other words, VRAM becomes what packing the scalars into it gives. */
  lemma SyncedVram(k: KernelDesc, host: seq<byte>, m: Mirror)
    requires DescOk(k) && AllFit(k.fields, |host|, |m.stage|) && |m.stage| == |m.vram| == ProjSize(k)
    requires Consistent(k.fields)
    ensures RangesFit(DirtyRanges(SyncList(k.fields)), |m.stage|)
    ensures Upload(m.vram, Gather(SyncList(k.fields), host, m.stage), DirtyRanges(SyncList(k.fields)))
      == Gather(SyncList(k.fields), host, m.vram)
  {
    var fs := SyncList(k.fields);
    SyncMeaning(k, host, m);
    GatherMeaning(fs, host, m.vram);
    var u, v := Upload(m.vram, Gather(fs, host, m.stage), DirtyRanges(fs)), Gather(fs, host, m.vram);
    hide Upload;
    hide Gather;
    hide SyncList;
    hide DirtyRanges;
    forall i | 0 <= i < |u| ensures u[i] == v[i] {
      if Covered(fs, i) {
        var f :| f in fs && f.Has(i);
      }
    }
  }

  // ── One dispatch ──

  /** The projection bytes of `k` that `on` names hold the eager host bytes. */
  ghost predicate InputsCurrent(k: KernelDesc, v: seq<byte>, eager: seq<byte>, on: set<int>) {
    forall f, i :: f in k.fields && f.Has(i) && i in on ==>
      0 <= i < |v| && 0 <= f.HostOf(i) < |eager| && v[i] == eager[f.HostOf(i)]
  }

  lemma ConsistentPart(p: Program, fs: seq<Field>)
    requires Consistent(p.layout) && forall f :: f in fs ==> f in p.layout
    ensures Consistent(fs)
  {
  }

  /** Running on current inputs writes what an eager launch writes. */
  lemma DispatchMatches(p: Program, k: KernelDesc, v: seq<byte>, eager: seq<byte>, on: set<int>, w: nat)
    requires ProgramOk(p) && k in p.descs && HostFits(k, p.hostLen) && |v| == p.size && |eager| == p.hostLen
    requires ReadsOnly(k, p.size, on) && InputsCurrent(k, v, eager, on)
    requires forall i :: i in on ==> Covered(k.fields, i)
    ensures forall i :: 0 <= i < p.size && Written(k.fields, i) ==> k.code(w, v)[i] == k.code(w, Pack(k, eager))[i]
  {
    var packed := Pack(k, eager);
    assert KernelOk(p, k);
    ConsistentPart(p, k.fields);
    GatherMeaning(k.fields, eager, Zeros(p.size));
    assert Agree(v, packed, on) by {
      forall i | i in on && 0 <= i < |v|
        ensures v[i] == packed[i]
      {
        var f :| f in k.fields && f.Has(i);
      }
    }
  }

  /** After the dispatch, everything current before and everything written is current. */
  lemma DispatchKeepsCurrent(p: Program, k: KernelDesc, v: seq<byte>, eager: seq<byte>, cur: set<int>, w: nat)
    requires ProgramOk(p) && k in p.descs && HostFits(k, p.hostLen) && VramCurrent(p, v, eager, cur)
    requires forall i :: 0 <= i < p.size && Written(k.fields, i) ==> k.code(w, v)[i] == k.code(w, Pack(k, eager))[i]
    ensures VramCurrent(p, k.code(w, v), Scatter(k.fields, k.code(w, Pack(k, eager)), eager), cur + WrittenSet(p, k))
  {
    var out := k.code(w, Pack(k, eager));
    var eager' := Scatter(k.fields, out, eager);
    var v' := k.code(w, v);
    assert KernelOk(p, k);
    ConsistentPart(p, k.fields);
    ScatterMeaning(k.fields, out, eager);
    forall f, i | f in p.layout && f.kind == ArrayField && f.Has(i) && i in cur + WrittenSet(p, k)
      ensures 0 <= i < |v'| && 0 <= f.HostOf(i) < |eager'| && v'[i] == eager'[f.HostOf(i)]
    {
      assert f.Fits(p.hostLen, p.size);
      if Written(k.fields, i) {
        var g :| g in k.fields && g.isWrite && g.Has(i);
        assert g in p.layout && g.HostOf(i) == f.HostOf(i);
      } else {
        WrittenBothSides(p, k, f, i);
      }
    }
  }

  /** … and so are the kernel's own bytes, scalars included, for a next dispatch. */
  lemma DispatchKeepsInputs(p: Program, k: KernelDesc, v: seq<byte>, eager: seq<byte>, held: set<int>, w: nat)
    requires ProgramOk(p) && k in p.descs && HostFits(k, p.hostLen) && |v| == p.size && |eager| == p.hostLen
    requires InputsCurrent(k, v, eager, CoveredSet(p, k.fields) * held)
    requires forall i :: 0 <= i < p.size && Written(k.fields, i) ==> k.code(w, v)[i] == k.code(w, Pack(k, eager))[i]
    ensures InputsCurrent(k, k.code(w, v), Scatter(k.fields, k.code(w, Pack(k, eager)), eager),
                          CoveredSet(p, k.fields) * (held + WrittenSet(p, k)))
  {
    var out := k.code(w, Pack(k, eager));
    var eager', v' := Scatter(k.fields, out, eager), k.code(w, v);
    assert KernelOk(p, k);
    ConsistentPart(p, k.fields);
    ScatterMeaning(k.fields, out, eager);
    hide Scatter;
    forall f, i | f in k.fields && f.Has(i) && i in CoveredSet(p, k.fields) * (held + WrittenSet(p, k))
      ensures 0 <= i < |v'| && 0 <= f.HostOf(i) < |eager'| && v'[i] == eager'[f.HostOf(i)]
    {
      assert f in p.layout && f.Fits(p.hostLen, p.size);
      if Written(k.fields, i) {
        var g :| g in k.fields && g.isWrite && g.Has(i);
        assert g in p.layout && g.HostOf(i) == f.HostOf(i);
      } else {
        WrittenBothSides(p, k, f, i);
        assert i in CoveredSet(p, k.fields) * held;
      }
    }
  }

  /** A projection byte is written exactly when the host byte it stands for is. */
  lemma WrittenBothSides(p: Program, k: KernelDesc, f: Field, i: int)
    requires ProgramOk(p) && k in p.descs && f in p.layout && f.Has(i)
    ensures Written(k.fields, i) <==> HostWritten(k.fields, f.HostOf(i))
  {
    assert KernelOk(p, k);
    if HostWritten(k.fields, f.HostOf(i)) {
      var g :| g in k.fields && g.isWrite && g.HasHost(f.HostOf(i));
      var j := g.ProjOf(f.HostOf(i));
      assert g in p.layout && g.Has(j) && g.HostOf(j) == f.HostOf(i);
    }
    if Written(k.fields, i) {
      var g :| g in k.fields && g.isWrite && g.Has(i);
      assert g in p.layout && g.HostOf(i) == f.HostOf(i) && g.HasHost(g.HostOf(i));
    }
  }

  // ── What a launch finds in the buffer ──

  /** A host byte is stale exactly when the projection byte that stands for it is. */
  lemma StaleBothSides(p: Program, f: Field, i: int, stale: set<int>)
    requires ProgramOk(p) && f in p.layout && f.Has(i)
    ensures StaleHost(p, f.HostOf(i), stale) <==> i in stale
  {
    var h := f.HostOf(i);
    assert f.HasHost(h) && f.ProjOf(h) == i;
    if StaleHost(p, h, stale) {
      var g :| g in p.layout && g.HasHost(h) && g.ProjOf(h) in stale;
      assert g.Has(g.ProjOf(h)) && g.HostOf(g.ProjOf(h)) == h;
    }
  }

  /** Scalars are never stale on the host. */
  lemma ScalarHostCurrent(p: Program, g: Field, i: int, host: seq<byte>, eager: seq<byte>, stale: set<int>)
    requires ProgramOk(p) && g in p.layout && g.kind == ScalarField && g.Has(i)
    requires HostCurrent(p, host, eager, stale) && ArraysOnly(p, stale)
    ensures 0 <= g.HostOf(i) < |host| && host[g.HostOf(i)] == eager[g.HostOf(i)]
  {
    assert g.Fits(p.hostLen, p.size);
    StaleBothSides(p, g, i, stale);
  }

  /** The projection bytes `on` are copies of the host bytes they stand for. */
  ghost predicate Copied(p: Program, v: seq<byte>, host: seq<byte>, on: set<int>) {
    && |v| == p.size && |host| == p.hostLen
    && forall f, i :: f in p.layout && f.Has(i) && i in on ==>
         0 <= i < |v| && 0 <= f.HostOf(i) < |host| && v[i] == host[f.HostOf(i)]
  }

  /** Copies of host bytes that are not stale are current. */
  lemma CopiedIsCurrent(p: Program, k: KernelDesc, v: seq<byte>, host: seq<byte>, eager: seq<byte>, on: set<int>, stale: set<int>)
    requires ProgramOk(p) && k in p.descs && Copied(p, v, host, on) && HostCurrent(p, host, eager, stale)
    ensures VramCurrent(p, v, eager, on - stale)
    ensures InputsCurrent(k, v, eager, CoveredSet(p, k.fields) * (on - stale))
  {
    assert KernelOk(p, k);
    forall f, i | f in p.layout && f.Has(i) && i in on - stale
      ensures 0 <= i < |v| && 0 <= f.HostOf(i) < |eager| && v[i] == eager[f.HostOf(i)]
    {
      StaleBothSides(p, f, i, stale);
    }
  }

  /** Seeding copies the seed table's bytes and keeps the other copies. */
  lemma SeedCopies(p: Program, k: KernelDesc, host: seq<byte>, stage: seq<byte>, on: set<int>)
    requires ProgramOk(p) && k in p.descs && |host| == p.hostLen && HostFits(k, p.hostLen) && Copied(p, stage, host, on)
    ensures Copied(p, Gather(k.seedFields, host, stage), host, CoveredSet(p, p.seeds) + on)
  {
    assert KernelOk(p, k);
    ConsistentPart(p, k.seedFields);
    GatherMeaning(k.seedFields, host, stage);
    var v := Gather(k.seedFields, host, stage);
    forall f, i | f in p.layout && f.Has(i) && i in CoveredSet(p, p.seeds) + on
      ensures 0 <= i < |v| && 0 <= f.HostOf(i) < |host| && v[i] == host[f.HostOf(i)]
    {
      assert f.Fits(p.hostLen, p.size);
      if Covered(p.seeds, i) {
        var g :| g in p.seeds && g.Has(i);
        assert g in p.layout && g.HostOf(i) == f.HostOf(i);
      }
    }
  }

  /** A launch into an unseeded buffer finds the seed table's bytes up to date. */
  lemma SeedMakesCurrent(p: Program, k: KernelDesc, host: seq<byte>, stage: seq<byte>, eager: seq<byte>, t: Track)
    requires ProgramOk(p) && k in p.descs && |stage| == p.size && HostCurrent(p, host, eager, t.stale)
    requires HostFits(k, p.hostLen)
    ensures AllFit(k.seedFields, |host|, |stage|)
    ensures var v := Gather(k.seedFields, host, stage);
      && VramCurrent(p, v, eager, Held(p, k, t, Unseeded))
      && InputsCurrent(k, v, eager, ReadSet(p, k, t, Unseeded))
  {
    assert KernelOk(p, k);
    SeedCopies(p, k, host, stage, {});
    assert CoveredSet(p, p.seeds) + {} == CoveredSet(p, p.seeds);
    CopiedIsCurrent(p, k, Gather(k.seedFields, host, stage), host, eager, CoveredSet(p, p.seeds), t.stale);
  }

  /** The prime leaves the packed fields in the mirror, those it does not overwrite with outputs. */
  lemma PrimeCopies(p: Program, k: KernelDesc, host: seq<byte>, w: nat, refills: bool)
    requires ProgramOk(p) && k in p.descs && |host| == p.hostLen && HostFits(k, p.hostLen)
    ensures Copied(p, PrimedStage(k, host, w, refills), host,
                   if refills then CoveredSet(p, k.fields) - WrittenSet(p, k) else CoveredSet(p, k.fields))
  {
    assert KernelOk(p, k);
    ConsistentPart(p, k.fields);
    GatherMeaning(k.fields, host, Zeros(p.size));
    var packed := Pack(k, host);
    forall f, i | f in p.layout && f.Has(i) && i in CoveredSet(p, k.fields)
      ensures 0 <= f.HostOf(i) < |host| && packed[i] == host[f.HostOf(i)]
    {
      assert f.Fits(p.hostLen, p.size);
      var g :| g in k.fields && g.Has(i);
      assert g in p.layout && g.HostOf(i) == f.HostOf(i);
    }
  }

  /** A first launch, without a buffer, finds the seed table's bytes and those packed fields up to date. */
  lemma PrimeMakesCurrent(p: Program, k: KernelDesc, host: seq<byte>, w: nat, eager: seq<byte>, t: Track)
    requires ProgramOk(p) && k in p.descs && HostCurrent(p, host, eager, t.stale) && HostFits(k, p.hostLen)
    ensures var v := FirstMirror(k, host, w, t.ops.launchRefillsStage);
      && VramCurrent(p, v, eager, Held(p, k, t, Absent))
      && InputsCurrent(k, v, eager, ReadSet(p, k, t, Absent))
  {
    assert KernelOk(p, k);
    var refills := t.ops.launchRefillsStage;
    var own := if refills then CoveredSet(p, k.fields) - WrittenSet(p, k) else CoveredSet(p, k.fields);
    PrimeCopies(p, k, host, w, refills);
    hide PrimedStage;
    SeedCopies(p, k, host, PrimedStage(k, host, w, refills), own);
    CopiedIsCurrent(p, k, FirstMirror(k, host, w, refills), host, eager, CoveredSet(p, p.seeds) + own, t.stale);
  }

  /** A scalar sync keeps the current arrays and makes every byte the kernel may read current. */
  lemma SyncMakesCurrent(p: Program, k: KernelDesc, host: seq<byte>, m: Mirror, eager: seq<byte>, t: Track, current: set<int>)
    requires ProgramOk(p) && k in p.descs && HostFits(k, p.hostLen) && |m.stage| == p.size
    requires VramCurrent(p, m.vram, eager, current) && HostCurrent(p, host, eager, t.stale)
    requires ArraysOnly(p, t.stale)
    ensures RangesFit(DirtyRanges(SyncList(k.fields)), |m.stage|)
    ensures var v := Upload(m.vram, Gather(SyncList(k.fields), host, m.stage), DirtyRanges(SyncList(k.fields)));
      && VramCurrent(p, v, eager, Held(p, k, t, Seeded(current)))
      && InputsCurrent(k, v, eager, ReadSet(p, k, t, Seeded(current)))
  {
    assert KernelOk(p, k);
    ConsistentPart(p, k.fields);
    SyncMeaning(k, host, m);
    var fs := SyncList(k.fields);
    var v := Upload(m.vram, Gather(fs, host, m.stage), DirtyRanges(fs));
    assert fs == Scalars(k.fields);
    forall f, i | f in p.layout && f.kind == ArrayField && f.Has(i) && i in Held(p, k, t, Seeded(current))
      ensures 0 <= i < |v| && 0 <= f.HostOf(i) < |eager| && v[i] == eager[f.HostOf(i)]
    {
      assert f.Fits(p.hostLen, p.size);
      assert !Covered(fs, i);
    }
    forall f, i | f in k.fields && f.Has(i) && i in ReadSet(p, k, t, Seeded(current))
      ensures 0 <= i < |v| && 0 <= f.HostOf(i) < |eager| && v[i] == eager[f.HostOf(i)]
    {
      assert f in p.layout && f.Fits(p.hostLen, p.size);
      if Covered(fs, i) {
        var g :| g in fs && g.Has(i);
        assert g in p.layout && g.HostOf(i) == f.HostOf(i);
        ScalarHostCurrent(p, g, i, host, eager, t.stale);
      } else {
        assert f !in fs && f.kind == ArrayField;
      }
    }
  }
}
