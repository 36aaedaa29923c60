/** Field descriptors of the accelerator runtime: how host state bytes and
    projection bytes correspond, and the pack/unpack loops over a field table. */
module AccelLayout {
  import opened Bytes

  datatype FieldKind = ArrayField | ScalarField

  datatype Field = Field(kind: FieldKind, hostOffset: nat, elemBytes: nat, count: nat,
                         isWrite: bool, projOffset: nat)
  {
    function Size(): nat { count * elemBytes }

    predicate Fits(hostLen: nat, projLen: nat) {
      hostOffset + Size() <= hostLen && projOffset + Size() <= projLen
    }

    /** Projection byte `i` belongs to this field. */
    predicate Has(i: int) { projOffset <= i < projOffset + Size() }

    /** The host byte that projection byte `i` of this field stands for. */
    function HostOf(i: int): int { i - projOffset + hostOffset }

    /** Host byte `h` belongs to this field. */
    predicate HasHost(h: int) { hostOffset <= h < hostOffset + Size() }

    /** The projection byte that stands for host byte `h` of this field. */
    function ProjOf(h: int): int { h - hostOffset + projOffset }
  }

  predicate AllFit(fs: seq<Field>, hostLen: nat, projLen: nat) {
    forall f :: f in fs ==> f.Fits(hostLen, projLen)
  }

  predicate Covered(fs: seq<Field>, i: int) {
    exists f :: f in fs && f.Has(i)
  }

  /** Projection byte `i` belongs to a field the kernel writes. */
  predicate Written(fs: seq<Field>, i: int) {
    exists f :: f in fs && f.isWrite && f.Has(i)
  }

  /** Host byte `h` belongs to a field the kernel writes. */
  predicate HostWritten(fs: seq<Field>, h: int) {
    exists f :: f in fs && f.isWrite && f.HasHost(h)
  }

  predicate HostCovered(fs: seq<Field>, h: int) {
    exists f :: f in fs && f.HasHost(h)
  }

  /** Two projection bytes of the table coincide exactly when their host bytes do:
      the spans are disjoint on both sides, or the same span listed more than once. */
  ghost predicate Consistent(fs: seq<Field>) {
    forall f, g, i, j :: f in fs && g in fs && f.Has(i) && g.Has(j) ==>
      (i == j <==> f.HostOf(i) == g.HostOf(j))
  }

  lemma HostProj(f: Field)
    ensures forall h :: f.HasHost(h) ==> f.Has(f.ProjOf(h)) && f.HostOf(f.ProjOf(h)) == h
    ensures forall i :: f.Has(i) ==> f.HasHost(f.HostOf(i)) && f.ProjOf(f.HostOf(i)) == i
  {
  }

  /** Pack: copy each field from its host offset to its projection offset, in table order. */
  function Gather(fs: seq<Field>, host: seq<byte>, proj: seq<byte>): (r: seq<byte>)
    requires AllFit(fs, |host|, |proj|)
    ensures |r| == |proj|
  {
    if fs == [] then proj
    else
      var f := fs[|fs| - 1];
      assert f.Fits(|host|, |proj|);
      Blit(Gather(fs[..|fs| - 1], host, proj), f.projOffset, host, f.hostOffset, f.Size())
  }

  /** Unpack: copy each written field from the projection back to the host, in table order. */
  function Scatter(fs: seq<Field>, proj: seq<byte>, host: seq<byte>): (r: seq<byte>)
    requires AllFit(fs, |host|, |proj|)
    ensures |r| == |host|
  {
    if fs == [] then host
    else
      var f := fs[|fs| - 1];
      assert f.Fits(|host|, |proj|);
      var h := Scatter(fs[..|fs| - 1], proj, host);
      if f.isWrite then Blit(h, f.hostOffset, proj, f.projOffset, f.Size()) else h
  }

  /** What packing means byte by byte: a covered byte is its host byte, the rest is kept. */
  lemma {:induction false} GatherMeaning(fs: seq<Field>, host: seq<byte>, proj: seq<byte>)
    requires AllFit(fs, |host|, |proj|) && Consistent(fs)
    ensures forall f, i :: f in fs && f.Has(i) ==> Gather(fs, host, proj)[i] == host[f.HostOf(i)]
    ensures forall i :: 0 <= i < |proj| && !Covered(fs, i) ==> Gather(fs, host, proj)[i] == proj[i]
  {
    if fs == [] {
    } else {
      var last := fs[|fs| - 1];
      var init := fs[..|fs| - 1];
      assert forall f :: f in fs <==> f in init || f == last;
      GatherMeaning(init, host, proj);
      assert last.Fits(|host|, |proj|);
      var r, r0 := Gather(fs, host, proj), Gather(init, host, proj);
      forall f, i | f in fs && f.Has(i)
        ensures r[i] == host[f.HostOf(i)]
      {
        if last.Has(i) {
          assert last.HostOf(i) == f.HostOf(i);
        }
      }
      forall i | 0 <= i < |proj| && !Covered(fs, i)
        ensures r[i] == proj[i]
      {
        assert !last.Has(i) && !Covered(init, i);
      }
    }
  }

  /** Unpacking keeps every unwritten host byte, whatever overlaps the table has. */
  lemma {:induction false} ScatterKeeps(fs: seq<Field>, proj: seq<byte>, host: seq<byte>)
    requires AllFit(fs, |host|, |proj|)
    ensures forall h :: 0 <= h < |host| && !HostWritten(fs, h) ==> Scatter(fs, proj, host)[h] == host[h]
  {
    if fs == [] {
    } else {
      var last := fs[|fs| - 1];
      var init := fs[..|fs| - 1];
      assert forall f :: f in fs <==> f in init || f == last;
      ScatterKeeps(init, proj, host);
      forall h | 0 <= h < |host| && !HostWritten(fs, h)
        ensures Scatter(fs, proj, host)[h] == host[h]
      {
        assert !HostWritten(init, h);
      }
    }
  }

  lemma {:induction false} ScatterArrives(fs: seq<Field>, proj: seq<byte>, host: seq<byte>)
    requires AllFit(fs, |host|, |proj|) && Consistent(fs)
    ensures forall f, i :: f in fs && f.isWrite && f.Has(i) ==> Scatter(fs, proj, host)[f.HostOf(i)] == proj[i]
  {
    hide Field.Size;
    if fs == [] {
    } else {
      var last := fs[|fs| - 1];
      var init := fs[..|fs| - 1];
      assert forall f :: f in fs <==> f in init || f == last;
      ScatterArrives(init, proj, host);
      HostProj(last);
      var r, h0 := Scatter(fs, proj, host), Scatter(init, proj, host);
      forall f, i | f in fs && f.isWrite && f.Has(i)
        ensures r[f.HostOf(i)] == proj[i]
      {
        if last.isWrite && last.HasHost(f.HostOf(i)) {
          var j := last.ProjOf(f.HostOf(i));
          assert last.Has(j) && last.HostOf(j) == f.HostOf(i);
        }
      }
    }
  }

  /** What unpacking means byte by byte: a written field's bytes arrive, every other host byte is kept. */
  lemma ScatterMeaning(fs: seq<Field>, proj: seq<byte>, host: seq<byte>)
    requires AllFit(fs, |host|, |proj|) && Consistent(fs)
    ensures forall f, i :: f in fs && f.isWrite && f.Has(i) ==> Scatter(fs, proj, host)[f.HostOf(i)] == proj[i]
    ensures forall h :: 0 <= h < |host| && !HostWritten(fs, h) ==> Scatter(fs, proj, host)[h] == host[h]
  {
    hide Scatter;
    ScatterArrives(fs, proj, host);
    ScatterKeeps(fs, proj, host);
  }

  // ── Equal outputs ──

  /** The two projections agree on every byte the kernel's fields declare as written. */
  ghost predicate SameWritten(fs: seq<Field>, v: seq<byte>, out: seq<byte>) {
    |v| == |out| && forall i :: 0 <= i < |v| && Written(fs, i) ==> v[i] == out[i]
  }

  /** Hosts that agree outside the written fields become equal by unpacking exactly when the unpacked
      projections agree on the written bytes. */
  lemma SameOutputsIff(fs: seq<Field>, v: seq<byte>, host': seq<byte>, out: seq<byte>, host: seq<byte>)
    requires AllFit(fs, |host|, |v|) && |out| == |v| && |host'| == |host| && Consistent(fs)
    requires forall h :: 0 <= h < |host| && !HostWritten(fs, h) ==> host'[h] == host[h]
    ensures Scatter(fs, v, host') == Scatter(fs, out, host) <==> SameWritten(fs, v, out)
  {
    ScatterMeaning(fs, v, host');
    ScatterMeaning(fs, out, host);
    var l, r := Scatter(fs, v, host'), Scatter(fs, out, host);
    hide Scatter;
    hide Consistent;
    if SameWritten(fs, v, out) {
      forall h | 0 <= h < |host| ensures l[h] == r[h] {
        if HostWritten(fs, h) {
          var f :| f in fs && f.isWrite && f.HasHost(h);
          var i := f.ProjOf(h);
          assert f.Fits(|host|, |v|) && f.Has(i) && f.HostOf(i) == h && Written(fs, i);
        }
      }
    }
    if l == r {
      forall i | 0 <= i < |v| && Written(fs, i) ensures v[i] == out[i] {
        var f :| f in fs && f.isWrite && f.Has(i);
        assert l[f.HostOf(i)] == v[i] && r[f.HostOf(i)] == out[i];
      }
    }
  }

  // ── Projection size ──

  function MaxEnd(fs: seq<Field>): nat {
    if fs == [] then 0
    else
      var f := fs[|fs| - 1];
      var end := MaxEnd(fs[..|fs| - 1]);
      var fEnd := f.projOffset + f.Size();
      if fEnd > end then fEnd else end
  }

  /** The field-derived extent bounds every field's end and is reached by one of them. */
  lemma {:induction false} MaxEndIsLeastBound(fs: seq<Field>)
    ensures forall f :: f in fs ==> f.projOffset + f.Size() <= MaxEnd(fs)
    ensures fs != [] ==> exists f :: f in fs && f.projOffset + f.Size() == MaxEnd(fs)
    ensures fs == [] ==> MaxEnd(fs) == 0
  {
    if fs == [] {
    } else {
      var last := fs[|fs| - 1];
      var init := fs[..|fs| - 1];
      assert forall f :: f in fs <==> f in init || f == last;
      MaxEndIsLeastBound(init);
      if init == [] {
        assert MaxEnd(fs) == last.projOffset + last.Size();
      }
    }
  }

  // ── Scalars the resident path syncs ──

  const MAX_DIRTY: nat := 16

  function Scalars(fs: seq<Field>): (r: seq<Field>)
    ensures |r| <= |fs|
    ensures forall f :: f in r <==> f in fs && f.kind == ScalarField
  {
    if fs == [] then []
    else
      var f := fs[|fs| - 1];
      var r := Scalars(fs[..|fs| - 1]);
      assert forall g :: g in fs <==> g in fs[..|fs| - 1] || g == f;
      if f.kind == ScalarField then r + [f] else r
  }

  /** The scalars a resident launch refreshes: the first sixteen in table order. */
  function SyncList(fs: seq<Field>): (r: seq<Field>)
    ensures forall f :: f in r ==> f in fs && f.kind == ScalarField
    ensures r <= Scalars(fs) && |r| == if |Scalars(fs)| <= 16 then |Scalars(fs)| else 16
  {
    var s := Scalars(fs);
    if |s| <= MAX_DIRTY then s else s[..MAX_DIRTY]
  }

  lemma {:induction false} ScalarsPrefix(fs: seq<Field>, n: nat)
    requires n <= |fs|
    ensures Scalars(fs[..n]) <= Scalars(fs)
    decreases |fs| - n
  {
    if n < |fs| {
      ScalarsPrefix(fs, n + 1);
      assert fs[..n + 1][..n] == fs[..n];
    } else {
      assert fs[..n] == fs;
    }
  }
}
