/**
 * Which numeric cast convertAndCastTensor emits after its layout conversion,
 * and the element type that cast produces.
 */
module CastRules {
  import opened Ir

  datatype CastKind = IntBitcast | IntTrunc | SignExt | ZeroExt | FloatExt | FloatTrunc | FloatConvert

  /** The operation a cast kind is created as. */
  function CastOp(c: CastKind): OpKind {
    match c
    case IntBitcast => Arith(ArithOp.Bitcast)
    case IntTrunc => Arith(TruncI)
    case SignExt => Arith(ExtSI)
    case ZeroExt => Arith(ExtUI)
    case FloatExt => Arith(ExtF)
    case FloatTrunc => Arith(TruncF)
    case FloatConvert => Triton(TritonOp.FpToFp)
  }

  /** What the assertions of convertAndCastTensor demand of the two element types. */
  predicate CastableElems(oldElem: ElemType, newElem: ElemType) {
    IsIntOrFloat(oldElem) && IsIntOrFloat(newElem) && IsIntOrIndex(oldElem) == IsIntOrIndex(newElem)
  }

  /** The cast convertAndCastTensor emits, if any. */
  function SelectCast(oldElem: ElemType, newElem: ElemType): (r: Option<CastKind>)
    requires CastableElems(oldElem, newElem)
    ensures r.None? <==> oldElem == newElem
    ensures r.Some? && newElem.Int? ==> r.value in {IntBitcast, IntTrunc, SignExt, ZeroExt}
    ensures r.Some? && newElem.Float? ==> r.value in {FloatExt, FloatTrunc, FloatConvert}
    ensures r == Some(IntBitcast) <==> oldElem != newElem && newElem.Int? && oldElem.width == newElem.width
    ensures r == Some(IntTrunc) <==> newElem.Int? && BitWidth(oldElem) > BitWidth(newElem)
    ensures r == Some(SignExt) <==>
      newElem.Int? && BitWidth(oldElem) < BitWidth(newElem) && oldElem.sign == Signed
    ensures r == Some(ZeroExt) <==>
      newElem.Int? && BitWidth(oldElem) < BitWidth(newElem) && oldElem.sign != Signed
    ensures r == Some(FloatExt) <==> oldElem == F16Type && newElem == F32Type
    ensures r == Some(FloatTrunc) <==> oldElem == F32Type && newElem == F16Type
    ensures r == Some(FloatConvert) <==>
      && newElem.Float? && oldElem != newElem
      && !(oldElem == F16Type && newElem == F32Type) && !(oldElem == F32Type && newElem == F16Type)
  {
    if newElem == oldElem then None
    else if IsIntOrIndex(newElem) then
      var oldWidth := BitWidth(oldElem);
      var newWidth := BitWidth(newElem);
      if oldWidth == newWidth then Some(IntBitcast)
      else if oldWidth > newWidth then Some(IntTrunc)
      else if oldElem.sign == Signed then Some(SignExt)
      else Some(ZeroExt)
    else if oldElem == F16Type && newElem == F32Type then Some(FloatExt)
    else if oldElem == F32Type && newElem == F16Type then Some(FloatTrunc)
    else Some(FloatConvert)
  }

  /**
   * The element type of the tensor convertAndCastTensor returns. The same-width
   * integer bitcast is built with the converted (old) element type.
   */
  function CastResultElem(oldElem: ElemType, newElem: ElemType): (r: ElemType)
    requires CastableElems(oldElem, newElem)
    ensures r == newElem || r == oldElem
    ensures r != newElem <==> SelectCast(oldElem, newElem) == Some(IntBitcast)
  {
    match SelectCast(oldElem, newElem)
    case None => oldElem
    case Some(IntBitcast) => oldElem
    case Some(_) => newElem
  }

  /** Casting back undoes the choice: widening and narrowing pair up, the other kinds are their own reverse. */
  predicate Reverses(c: CastKind, d: CastKind) {
    match c
    case FloatExt => d == FloatTrunc
    case FloatTrunc => d == FloatExt
    case SignExt => d == IntTrunc
    case ZeroExt => d == IntTrunc
    case IntTrunc => d == SignExt || d == ZeroExt
    case IntBitcast => d == IntBitcast
    case FloatConvert => d == FloatConvert
  }

  /** The cast chosen from `b` back to `a` reverses the cast chosen from `a` to `b`. */
  lemma CastBackReverses(a: ElemType, b: ElemType)
    requires CastableElems(a, b)
    ensures SelectCast(a, b).Some? ==>
      SelectCast(b, a).Some? && Reverses(SelectCast(a, b).value, SelectCast(b, a).value)
  {
  }

  /**
   * A round trip through another element type and back comes back to the
   * starting type, whatever casts are picked on the way.
   */
  lemma CastRoundTrip(a: ElemType, b: ElemType)
    requires CastableElems(a, b)
    ensures var mid := CastResultElem(a, b);
      CastableElems(mid, a) && CastResultElem(mid, a) == a
  {
  }
}
