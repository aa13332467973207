/**
 * The instruction decisions of the AMD matmul lowering: the instruction tile
 * (mDim, nDim) picked from the output shape, kDim looked up in the MFMA
 * instruction table, the per-lane vector width kWidth, the accumulator type,
 * and the accumulator encoding that combines them with the warp assignment.
 */
module MfmaSelect {
  import opened Ir
  import opened Pow2
  import WarpTiling

  /** Key of the MFMA instruction table: tile, operand element types and hardware version. */
  datatype MfmaKey = MfmaKey(mDim: nat, nDim: nat, typeA: ElemType, typeB: ElemType, version: nat)

  /** The instruction table as the lowering consults it: the kDim of each supported instruction. */
  type MfmaTable = map<MfmaKey, nat>

  datatype InstrDims = InstrDims(mDim: nat, nDim: nat, kDim: nat)

  /** The conditions that abort the compilation (a fatal error or a failed assertion). */
  datatype Fatal =
    | KTooSmallFor4x4
    | NoMatchInMfmaDatabase
    | ZeroKDim
    | TileNotDivisible
    | KNotDivisible
    | AccNotIntOrFloat
    | NoKWidth

  /** The tile shapes the selection can pick on its own. */
  predicate IsAutoShape(s: (nat, nat)) {
    s == (32, 32) || s == (16, 16) || s == (4, 64) || s == (64, 4) || s == (4, 4)
  }

  /**
   * (mDim, nDim) of chooseMfmaDimensions: the enforced size on both sides when
   * one is set, otherwise by the smaller side of the M x N output tile.
   */
  function InstrShape(enforced: nat, M: nat, N: nat): (r: (nat, nat))
    ensures r.0 != 0 && r.1 != 0
    ensures enforced != 0 ==> r == (enforced, enforced)
    ensures enforced == 0 ==> IsAutoShape(r)
  {
    if enforced != 0 then (enforced, enforced)
    else
      var minSize := if M < N then M else N;
      if minSize >= 32 then (32, 32)
      else if minSize >= 16 then (16, 16)
      else if M < 16 && N >= 64 then (4, 64)
      else if M >= 64 && N < 16 then (64, 4)
      else (4, 4)
  }

  /** The 4x4 instruction is chosen only as the fallback for small tiles, where K must be at least 64. */
  predicate IsSmallFallback(enforced: nat, M: nat, N: nat) {
    enforced == 0 && InstrShape(enforced, M, N) == (4, 4)
  }

  /**
   * chooseMfmaDimensions for a dot whose result is M x N and whose A operand
   * has K columns. Each failed assertion and the missing table entry is fatal.
   */
  function ChooseMfmaDimensions(enforced: nat, version: nat, table: MfmaTable,
                                M: nat, N: nat, K: nat, typeA: ElemType, typeB: ElemType)
    : (r: Result<InstrDims, Fatal>)
    ensures r.Success? ==>
      && (r.value.mDim, r.value.nDim) == InstrShape(enforced, M, N)
      && MfmaKey(r.value.mDim, r.value.nDim, typeA, typeB, version) in table
      && r.value.kDim == table[MfmaKey(r.value.mDim, r.value.nDim, typeA, typeB, version)]
      && r.value.mDim != 0 && r.value.nDim != 0 && r.value.kDim != 0
      && M % r.value.mDim == 0 && N % r.value.nDim == 0 && K % r.value.kDim == 0
    ensures r == Failure(KTooSmallFor4x4) <==> IsSmallFallback(enforced, M, N) && K < 64
    ensures r == Failure(NoMatchInMfmaDatabase) <==>
      && !(IsSmallFallback(enforced, M, N) && K < 64)
      && var s := InstrShape(enforced, M, N);
         MfmaKey(s.0, s.1, typeA, typeB, version) !in table
    ensures r.Success? <==>
      && !(IsSmallFallback(enforced, M, N) && K < 64)
      && var s := InstrShape(enforced, M, N);
      && var key := MfmaKey(s.0, s.1, typeA, typeB, version);
      && key in table && table[key] != 0
      && M % s.0 == 0 && N % s.1 == 0 && K % table[key] == 0
  {
    var s := InstrShape(enforced, M, N);
    if IsSmallFallback(enforced, M, N) && K < 64 then Failure(KTooSmallFor4x4)
    else
      var key := MfmaKey(s.0, s.1, typeA, typeB, version);
      if key !in table then Failure(NoMatchInMfmaDatabase)
      else
        var kDim := table[key];
        if kDim == 0 then Failure(ZeroKDim)
        else if M % s.0 != 0 || N % s.1 != 0 then Failure(TileNotDivisible)
        else if K % kDim != 0 then Failure(KNotDivisible)
        else Success(InstrDims(s.0, s.1, kDim))
  }

  /** kWidth, the consecutive elements along K that one lane holds per instruction; -1 when unset. */
  function KWidth(mDim: nat, nDim: nat, kDim: nat): (r: int)
    ensures r != -1 <==> IsAutoShape((mDim, nDim))
    ensures r != -1 ==> 0 <= r <= kDim
    ensures r != -1 && mDim == nDim ==> r * (64 / mDim) <= kDim
  {
    if mDim == 32 && nDim == 32 then kDim / 2
    else if mDim == 16 && nDim == 16 then kDim / 4
    else if mDim == 4 && nDim == 4 then kDim / 16
    else if (mDim == 4 && nDim == 64) || (mDim == 64 && nDim == 4) then kDim
    else -1
  }

  /** The accumulator element type: 32-bit integer for integer results, 32-bit float otherwise. */
  function AccType(resultElem: ElemType): (r: ElemType)
    ensures r == I32Type || r == F32Type
    ensures IsIntOrIndex(r) == IsIntOrIndex(resultElem)
  {
    if IsIntOrIndex(resultElem) then I32Type else F32Type
  }

  /** Everything the lowering decides before it touches the graph. */
  datatype Plan = Plan(dims: InstrDims, layout: MfmaLayout, kWidth: nat, accElem: ElemType)

  /**
   * The decisions of matchAndRewrite for a dot that passed its guards: the
   * instruction, the warp assignment, the accumulator encoding (transposed
   * exactly for chained dots, CTA layout inherited), the accumulator type and
   * kWidth.
   */
  function PlanLowering(version: nat, enforced: nat, table: MfmaTable, numWarps: nat,
                        chained: bool, cta: CtaLayout, M: nat, N: nat, K: nat,
                        typeA: ElemType, typeB: ElemType, resultElem: ElemType)
    : (r: Result<Plan, Fatal>)
    ensures r.Success? ==>
      && var p := r.value;
      && ChooseMfmaDimensions(enforced, version, table, M, N, K, typeA, typeB) == Success(p.dims)
      && p.layout.versionMajor == version && p.layout.versionMinor == 0
      && p.layout.mDim == p.dims.mDim && p.layout.nDim == p.dims.nDim
      && p.layout.isTransposed == chained && p.layout.cta == cta
      && p.layout.warpsPerCta == WarpTiling.WarpsPerTile(chained, M, N, numWarps, p.dims.mDim, p.dims.nDim)
      && p.kWidth == KWidth(p.dims.mDim, p.dims.nDim, p.dims.kDim)
      && p.accElem == AccType(resultElem)
    ensures r.Failure? ==>
      || ChooseMfmaDimensions(enforced, version, table, M, N, K, typeA, typeB) == Failure(r.error)
      || (r.error == AccNotIntOrFloat && !IsIntOrFloat(resultElem))
      || (r.error == NoKWidth && enforced !in {0, 4, 16, 32})
    ensures r.Success? <==>
      && ChooseMfmaDimensions(enforced, version, table, M, N, K, typeA, typeB).Success?
      && IsIntOrFloat(resultElem)
      && enforced in {0, 4, 16, 32}
  {
    match ChooseMfmaDimensions(enforced, version, table, M, N, K, typeA, typeB)
    case Failure(f) => Failure(f)
    case Success(d) =>
      if !IsIntOrFloat(resultElem) then Failure(AccNotIntOrFloat)
      else
      var warps := WarpTiling.WarpsPerTile(chained, M, N, numWarps, d.mDim, d.nDim);
      var layout := MfmaLayout(version, 0, warps, d.mDim, d.nDim, chained, cta);
      var kWidth := KWidth(d.mDim, d.nDim, d.kDim);
      if kWidth == -1 then Failure(NoKWidth)
      else Success(Plan(d, layout, kWidth, AccType(resultElem)))
  }

  // -------------------------------------------------------------- properties

  /**
   * When the sides of the output tile are powers of two of at least 4, the
   * automatically chosen instruction tile divides the output tile, so the
   * divisibility assertion cannot fail.
   */
  lemma AutoShapeDividesPow2Tile(M: nat, N: nat)
    requires IsPow2(M) && IsPow2(N) && M >= 4 && N >= 4
    ensures var s := InstrShape(0, M, N); M % s.0 == 0 && N % s.1 == 0
  {
    var s := InstrShape(0, M, N);
    Pow2Divides(M, s.0);
    Pow2Divides(N, s.1);
  }

  /** An automatically chosen instruction tile never exceeds an output tile of sides at least 4. */
  lemma AutoShapeFitsTile(M: nat, N: nat)
    requires M >= 4 && N >= 4
    ensures var s := InstrShape(0, M, N); s.0 <= M && s.1 <= N
  {
  }
}
