/** Module-config blocks over the IR-lowering settings: render, parse, overlay. */
module Settings {
  import opened Options

  const WIDTH_32: int := 0x1_0000_0000
  const WIDTH_63: int := 0x8000_0000_0000_0000
  const WIDTH_64: int := 0x1_0000_0000_0000_0000

  // ── Keys and values ──

  /** How a key's row becomes a value: a cast that wraps, a lower bound and then the cast, a clamp
      on both sides, a test against zero, or a float taken as it is. */
  datatype Kind = Wrapped(width: int) | AtLeast(lo: int, width: int) | Between(lo: int, hi: int) | Flag | Fractional

  datatype Value = Num(n: int) | Bit(b: bool) | Frac(x: real)

  datatype Spec = Spec(name: string, kind: Kind, fallback: Value)

  /** A key is a place in the key table. */
  type Key = k: nat | k < 50 witness 0

  function Table(k: Key): Spec {
    match k
    case 0 => Spec("arena_min_budget", Wrapped(WIDTH_32), Num(128))
    case 1 => Spec("circt.firmem_min_depth", Wrapped(WIDTH_64), Num(64))
    case 2 => Spec("circt.firmem_max_ports", Wrapped(WIDTH_64), Num(4))
    case 3 => Spec("circt.clock_hz", Wrapped(WIDTH_64), Num(0))
    case 4 => Spec("arena_initial_size", Wrapped(WIDTH_64), Num(65536))
    case 5 => Spec("stack_threshold", Wrapped(WIDTH_64), Num(4096))
    case 6 => Spec("max_fields_per_alloca", Wrapped(WIDTH_64), Num(15))
    case 7 => Spec("sso_max_bytes", Wrapped(WIDTH_64), Num(6))
    case 8 => Spec("callable_inline_weight_threshold", Wrapped(WIDTH_32), Num(40))
    case 9 => Spec("aggregate_zero_init_memset_bytes", Wrapped(WIDTH_64), Num(4096))
    case 10 => Spec("node_inline_weight_threshold", Wrapped(WIDTH_32), Num(600))
    case 11 => Spec("accel_probe_k", AtLeast(1, WIDTH_64), Num(2))
    case 12 => Spec("accel_probe_tolerance", Fractional, Frac(0.0001))
    case 13 => Spec("accel_probe_margin", Fractional, Frac(0.05))
    case 14 => Spec("spirv_unroll", AtLeast(0, WIDTH_32), Num(16))
    case 15 => Spec("gpu_schedule_buffer_reuse", Flag, Bit(false))
    case 16 => Spec("spirv_row_cooperative", Flag, Bit(false))
    case 17 => Spec("spirv_coopmat", Flag, Bit(false))
    case 18 => Spec("spirv_coopmat_tile_rows", AtLeast(1, WIDTH_32), Num(4))
    case 19 => Spec("spirv_image_storage", Flag, Bit(false))
    case 20 => Spec("spirv_coopmat_f16acc", Flag, Bit(false))
    case 21 => Spec("spirv_coopmat_subgroups", Between(1, 4), Num(1))
    case 22 => Spec("spirv_coopmat_smem", Flag, Bit(true))
    case 23 => Spec("spirv_coopmat_fill_pairs", Flag, Bit(false))
    case 24 => Spec("spirv_coopmat_fill_quad", Flag, Bit(false))
    case 25 => Spec("spirv_coopmat_fill_prefetch", Flag, Bit(false))
    case 26 => Spec("spirv_coopmat_stagger", Flag, Bit(false))
    case 27 => Spec("spirv_coopmat_panels_per_stage", Between(1, 4), Num(2))
    case 28 => Spec("spirv_coopmat_stages", Between(1, 2), Num(1))
    case 29 => Spec("ptx_tensor_f16acc", Flag, Bit(false))
    case 30 => Spec("ptx_tensor_b_lookahead", Flag, Bit(false))
    case 31 => Spec("ptx_tensor_bsmem_pad", Between(0, 992), Num(0))
    case 32 => Spec("ptx_tensor_ksteps_per_stage", Between(1, 2), Num(1))
    case 33 => Spec("ptx_tensor_stages", Between(0, 3), Num(0))
    case 34 => Spec("ptx_tensor_nofill", Between(0, 4), Num(0))
    case 35 => Spec("ptx_deferred_skip_pass", Between(0, 2), Num(0))
    case 36 => Spec("ptx_deferred_online", Between(0, 1), Num(1))
    case 37 => Spec("ptx_gemm_grid_order", Between(0, 1), Num(0))
    case 38 => Spec("ptx_tensor_force_mw", Between(0, 16), Num(0))
    case 39 => Spec("ptx_tensor_force_nw", Between(0, 16), Num(0))
    case 40 => Spec("ptx_tensor_warp_spec", Flag, Bit(false))
    case 41 => Spec("ptx_serial_unroll", Between(0, 16), Num(4))
    case 42 => Spec("ptx_warp_slice", Flag, Bit(false))
    case 43 => Spec("ptx_warp_slice_min_span", Between(0, 65536), Num(512))
    case 44 => Spec("ptx_warp_slice_warps", Between(1, 8), Num(4))
    case 45 => Spec("ptx_deferred_region", Flag, Bit(false))
    case 46 => Spec("ptx_deferred_split", Between(0, 1), Num(0))
    case 47 => Spec("ptx_plan_lowering", Between(0, 1), Num(0))
    case 48 => Spec("spirv_plan_lowering", Between(0, 1), Num(0))
    case 49 => Spec("ptx_emit_cubin", Flag, Bit(true))
  }

  /** One value a key. */
  type Store = s: seq<Value> | |s| == 50 witness seq(50, _ => Bit(false))

  /** What the field's type in the settings record allows. */
  predicate HasType(kind: Kind, v: Value) {
    match kind
    case Wrapped(width) => v.Num? && 0 <= v.n < width && (width == WIDTH_32 || width == WIDTH_64)
    case AtLeast(lo, width) =>
      v.Num? && 0 <= v.n < width && 0 <= lo < WIDTH_32 && (width == WIDTH_32 || width == WIDTH_64)
    case Between(lo, hi) => v.Num? && 0 <= v.n < WIDTH_32 && 0 <= lo <= hi < WIDTH_32
    case Flag => v.Bit?
    case Fractional => v.Frac?
  }

  ghost predicate Typed(s: Store) {
    forall k: Key :: HasType(Table(k).kind, s[k])
  }

  // ── Rows ──

  /** The first field of a row as the config grammar reads it: a number without a point, a number
      with one, anything else, or no field at all. */
  datatype Token = Whole(n: int) | Fraction(x: real) | Text(s: string) | Missing

  /** What a row's key names: a table entry, the `warn` policy, or nothing known. */
  datatype Name = Known(k: Key) | Policy | Unknown(text: string)

  datatype Row = Row(name: Name, token: Token)

  /** Whole numbers outside 64 signed bits are a parse error of the whole text. */
  predicate Fits(t: Token) {
    t.Whole? ==> -WIDTH_63 <= t.n < WIDTH_63
  }

  predicate Loads(rows: seq<Row>) {
    forall i :: 0 <= i < |rows| ==> Fits(rows[i].token)
  }

  /** The last row of a key wins. */
  function Last(rows: seq<Row>, name: Name): Option<Token> {
    if rows == [] then None
    else if rows[|rows| - 1].name == name then Some(rows[|rows| - 1].token)
    else Last(rows[..|rows| - 1], name)
  }

  // ── Parse and render ──

  function Max(a: int, b: int): int {
    if a < b then b else a
  }

  function Min(a: int, b: int): int {
    if a < b then a else b
  }

  /** A row of the wrong sort counts as absent, and an absent row gives the built-in default. */
  function Read(spec: Spec, t: Token): Value {
    match (spec.kind, t)
    case (Wrapped(width), Whole(n)) => if width <= 0 then spec.fallback else Num(n % width)
    case (AtLeast(lo, width), Whole(n)) => if width <= 0 then spec.fallback else Num(Max(n, lo) % width)
    case (Between(lo, hi), Whole(n)) => Num(Min(Max(n, lo), hi))
    case (Flag, Whole(n)) => Bit(n != 0)
    case (Fractional, Fraction(x)) => Frac(x)
    case _ => spec.fallback
  }

  predicate IsWhole(x: real) {
    x.Floor as real == x
  }

  /** How a value prints: a float without a fractional part prints without a point. */
  function Write(v: Value): Token {
    match v
    case Num(n) => Whole(n)
    case Bit(b) => Whole(if b then 1 else 0)
    case Frac(x) => if IsWhole(x) then Whole(x.Floor) else Fraction(x)
  }

  function ReadLast(rows: seq<Row>, k: Key): Value {
    match Last(rows, Known(k))
    case Some(t) => Read(Table(k), t)
    case None => Table(k).fallback
  }

  function Parse(rows: seq<Row>): Option<Store> {
    if Loads(rows) then Some(seq(50, (k: int) requires 0 <= k < 50 => ReadLast(rows, k))) else None
  }

  function Names(rows: seq<Row>): set<Name> {
    set i | 0 <= i < |rows| :: rows[i].name
  }

  /** The rows of the first `n` keys, without those in `skip`. */
  function Render(s: Store, skip: set<Name>, n: nat): seq<Row>
    requires n <= 50
  {
    if n == 0 then []
    else if Known(n - 1) in skip then Render(s, skip, n - 1)
    else Render(s, skip, n - 1) + [Row(Known(n - 1), Write(s[n - 1]))]
  }

  lemma {:induction false} LastRendered(s: Store, skip: set<Name>, n: nat, name: Name)
    requires n <= 50
    ensures Last(Render(s, skip, n), name)
      == if name.Known? && name.k < n && name !in skip then Some(Write(s[name.k])) else None
  {
    hide Write;
    if n == 0 {
    } else {
      LastRendered(s, skip, n - 1, name);
      var most := Render(s, skip, n - 1);
      assert (most + [Row(Known(n - 1), Write(s[n - 1]))])[..|most|] == most;
    }
  }

  lemma {:induction false} RenderedLoads(s: Store, skip: set<Name>, n: nat)
    requires n <= 50
    ensures Loads(Render(s, skip, n)) <==> forall k: Key :: k < n && Known(k) !in skip ==> Fits(Write(s[k]))
  {
    hide Write;
    hide Fits;
    if n == 0 {
    } else {
      RenderedLoads(s, skip, n - 1);
      var most, last := Render(s, skip, n - 1), Row(Known(n - 1), Write(s[n - 1]));
      assert forall i :: 0 <= i < |most| ==> (most + [last])[i] == most[i];
      assert (most + [last])[|most|] == last;
    }
  }

  function Distance(a: int, b: int): int {
    if a < b then b - a else a - b
  }

  /** What a number means for each kind of key: a cast moves it by whole widths into range; a lower bound
      raises it; a clamp gives the nearest number in range; a flag is set by anything but zero. A row
      of the wrong sort, even a well-formed number of the other sort, gives the default. */
  lemma RowMeaning(k: Key, n: int)
    ensures var spec, v := Table(k), Read(Table(k), Whole(n));
      match spec.kind
      case Wrapped(width) => v.Num? && 0 <= v.n < width && n == v.n + width * (n / width)
      case AtLeast(lo, width) =>
        v.Num? && 0 <= v.n < width && (n < lo ==> v.n == lo) && (lo <= n ==> n == v.n + width * (n / width))
      case Between(lo, hi) =>
        v.Num? && lo <= v.n <= hi && forall x :: lo <= x <= hi ==> Distance(n, v.n) <= Distance(n, x)
      case Flag => v == Bit(n != 0)
      case Fractional => v == spec.fallback
  {
    Defaults(k);
    hide Table;
  }

  /** A row with a point is read by the float keys only; one that is no number, or no field at all, gives
      every key its default. */
  lemma OtherRows(k: Key, x: real, s: string)
    ensures var spec := Table(k);
      && Read(spec, Fraction(x)) == (if spec.kind.Fractional? then Frac(x) else spec.fallback)
      && Read(spec, Text(s)) == spec.fallback && Read(spec, Missing) == spec.fallback
  {
    hide Table;
  }

  // ── Which values survive ──

  /** A value comes back from its own row: it is in the key's range, below the top half of the
      unsigned 64-bit numbers, and not a whole float. */
  predicate Survives(kind: Kind, v: Value) {
    match (kind, v)
    case (Wrapped(_), Num(n)) => n < WIDTH_63
    case (AtLeast(lo, _), Num(n)) => lo <= n < WIDTH_63
    case (Between(lo, hi), Num(n)) => lo <= n <= hi
    case (Fractional, Frac(x)) => !IsWhole(x)
    case _ => true
  }

  lemma LowDefaults(k: Key)
    requires k < 18
    ensures HasType(Table(k).kind, Table(k).fallback) && Survives(Table(k).kind, Table(k).fallback)
  {
  }

  lemma MiddleDefaults(k: Key)
    requires 18 <= k < 34
    ensures HasType(Table(k).kind, Table(k).fallback) && Survives(Table(k).kind, Table(k).fallback)
  {
  }

  lemma HighDefaults(k: Key)
    requires 34 <= k
    ensures HasType(Table(k).kind, Table(k).fallback) && Survives(Table(k).kind, Table(k).fallback)
  {
  }

  /** The defaults of the table are in range and not whole floats. */
  lemma Defaults(k: Key)
    ensures HasType(Table(k).kind, Table(k).fallback) && Survives(Table(k).kind, Table(k).fallback)
  {
    hide *;
    if k < 18 {
      LowDefaults(k);
    } else if k < 34 {
      MiddleDefaults(k);
    } else {
      HighDefaults(k);
    }
  }

  /** Whatever the row, the value read has the field's type. */
  lemma ReadHasType(k: Key, t: Token)
    requires Fits(t)
    ensures HasType(Table(k).kind, Read(Table(k), t))
  {
    Defaults(k);
    hide Table;
  }

  /** Writing a value and reading it back is the identity exactly on the values that survive. */
  lemma SurvivesIff(k: Key, v: Value)
    requires HasType(Table(k).kind, v)
    ensures Survives(Table(k).kind, v) <==> Fits(Write(v)) && Read(Table(k), Write(v)) == v
  {
    Defaults(k);
    hide Table;
  }

  /** A value once read back survives from then on. */
  lemma ReadBackSurvives(k: Key, v: Value)
    requires HasType(Table(k).kind, v) && Fits(Write(v))
    ensures Survives(Table(k).kind, Read(Table(k), Write(v)))
  {
    Defaults(k);
    hide Table;
  }

  /** The only rows whose value does not survive: a negative number for an unsigned 64-bit key, a
      number the 32-bit cast takes below the lower bound it was first raised to, and a float written
      with a point but without a fractional part. */
  predicate Awkward(kind: Kind, t: Token) {
    match (kind, t)
    case (Wrapped(width), Whole(n)) => width == WIDTH_64 && n < 0
    case (AtLeast(lo, width), Whole(n)) => lo <= n && 0 < width && n % width < lo
    case (Fractional, Fraction(x)) => IsWhole(x)
    case _ => false
  }

  lemma AwkwardIff(k: Key, t: Token)
    requires Fits(t)
    ensures Survives(Table(k).kind, Read(Table(k), t)) <==> !Awkward(Table(k).kind, t)
  {
    Defaults(k);
    hide Table;
  }

  // ── Parse after render ──

  /** Parsing the rendering gives the settings back exactly when every value survives. */
  lemma RoundTripIff(s: Store)
    requires Typed(s)
    ensures Parse(Render(s, {}, 50)) == Some(s) <==> forall k: Key :: Survives(Table(k).kind, s[k])
  {
    RenderedLoads(s, {}, 50);
    forall k: Key
      ensures Survives(Table(k).kind, s[k]) <==> Fits(Write(s[k])) && ReadLast(Render(s, {}, 50), k) == s[k]
    {
      LastRendered(s, {}, 50, Known(k));
      SurvivesIff(k, s[k]);
    }
    hide Survives;
    hide Write;
    hide Fits;
    hide Table;
    hide ReadLast;
    hide Render;
    var r := Render(s, {}, 50);
    if Loads(r) {
      assert forall k: Key :: Parse(r).value[k] == ReadLast(r, k);
      assert (forall k: Key :: ReadLast(r, k) == s[k]) ==> Parse(r).value == s;
    }
  }

  /** One pass of render and parse settles any settings: a second one changes nothing. */
  lemma SecondPassChangesNothing(s: Store, t: Store)
    requires Typed(s) && Parse(Render(s, {}, 50)) == Some(t)
    ensures Parse(Render(t, {}, 50)) == Some(t)
  {
    RenderedLoads(s, {}, 50);
    forall k: Key ensures HasType(Table(k).kind, t[k]) && Survives(Table(k).kind, t[k]) {
      LastRendered(s, {}, 50, Known(k));
      assert t[k] == Read(Table(k), Write(s[k]));
      ReadHasType(k, Write(s[k]));
      ReadBackSurvives(k, s[k]);
    }
    RoundTripIff(t);
  }
}
