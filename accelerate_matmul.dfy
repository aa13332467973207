/**
 * The BlockedToMFMA rewrite: a dot whose result is in a blocked layout is
 * replaced by a dot on AMD matrix cores. The accumulator is converted into the
 * MFMA accumulator layout and cast to the accumulator type, A and B are
 * converted into the matching dot-operand layouts, and the new dot's result is
 * converted and cast back to the original layout and element type.
 */
module AccelerateMatmul {
  import opened Ir
  import opened CastRules
  import opened MfmaSelect
  import Slice
  import WarpTiling

  /** What the dot verifier guarantees: rank-2 tensor operands, accumulator typed as the result. */
  predicate WellTypedDot(nodes: map<NodeId, Node>, dot: NodeId) {
    && dot in nodes
    && var n := nodes[dot];
    && n.kind.Dot? && |n.operands| == 3 && |n.results| == 1
    && dot !in n.operands
    && (forall k :: 0 <= k < 3 ==> n.operands[k] in nodes && |nodes[n.operands[k]].results| >= 1)
    && (forall k :: 0 <= k < 3 ==>
          TypeOf(nodes, n.operands[k]).Tensor? && |TypeOf(nodes, n.operands[k]).shape| == 2)
    && n.results[0].Tensor? && |n.results[0].shape| == 2
    && TypeOf(nodes, n.operands[2]) == n.results[0]
  }

  /**
   * The element type of the new accumulator: the accumulator type, except that
   * a 32-bit integer result other than the signless one keeps its own type,
   * because the same-width bitcast is built with the unconverted element type.
   */
  function NewAccElem(resultElem: ElemType): (r: ElemType)
    requires IsIntOrFloat(resultElem)
    ensures r == AccType(resultElem) <==>
      !(resultElem.Int? && resultElem.width == 32 && resultElem != I32Type)
    ensures r == AccType(resultElem) || r == resultElem
  {
    CastResultElem(resultElem, AccType(resultElem))
  }

  /** Casting the new accumulator's element type back restores the dot's result element type. */
  lemma OutputKeepsResultElem(resultElem: ElemType)
    requires IsIntOrFloat(resultElem)
    ensures CastableElems(NewAccElem(resultElem), resultElem)
    ensures CastResultElem(NewAccElem(resultElem), resultElem) == resultElem
  {
    CastRoundTrip(resultElem, AccType(resultElem));
  }

  /** The layout conversion convertAndCastTensor creates first. */
  function ConvertNode(t: Type, v: NodeId, newEnc: Encoding, region: RegionId): Node
    requires t.Tensor?
  {
    Node(ConvertLayout, [v], [Tensor(t.shape, t.elem, Some(newEnc))], region)
  }

  /**
   * `r` is what convertAndCastTensor returns for `v` in `nodes`: a layout
   * conversion of `v` into `newEnc` keeping the shape and element type of
   * `t`, the type `v` has, followed by the cast SelectCast picks when the
   * element types differ.
   */
  ghost predicate ConvertedCast(nodes: map<NodeId, Node>, v: NodeId, t: Type, newEnc: Encoding, newElem: ElemType,
                                region: RegionId, r: NodeId)
  {
    && t.Tensor? && CastableElems(t.elem, newElem)
    && r in nodes
    && match SelectCast(t.elem, newElem)
       case None => nodes[r] == ConvertNode(t, v, newEnc, region)
       case Some(c) =>
         && |nodes[r].operands| == 1
         && nodes[r].operands[0] in nodes
         && nodes[nodes[r].operands[0]] == ConvertNode(t, v, newEnc, region)
         && nodes[r] == Node(CastOp(c), nodes[r].operands,
                             [Tensor(t.shape, CastResultElem(t.elem, newElem), Some(newEnc))], region)
  }

  /**
   * A converted value keeps its description while its node and, after a
   * cast, the conversion it reads are left alone.
   */
  lemma ConvertedCastFrame(a: map<NodeId, Node>, b: map<NodeId, Node>, v: NodeId, t: Type, newEnc: Encoding,
                           newElem: ElemType, region: RegionId, r: NodeId)
    requires ConvertedCast(a, v, t, newEnc, newElem, region, r)
    requires forall m :: m in a ==> m in b && b[m] == a[m]
    ensures ConvertedCast(b, v, t, newEnc, newElem, region, r)
  {
  }

  /**
   * A converted value keeps its description when a dot it does not read
   * is replaced: neither the conversion nor the cast reads the dot.
   */
  lemma ConvertedCastSurvivesReplace(a: map<NodeId, Node>, b: map<NodeId, Node>, dot: NodeId, to: NodeId,
                                     v: NodeId, t: Type, newEnc: Encoding, newElem: ElemType, region: RegionId,
                                     r: NodeId)
    requires ConvertedCast(a, v, t, newEnc, newElem, region, r)
    requires dot in a && a[dot].kind.Dot? && v != dot
    requires forall m :: m in a && m != dot ==>
      m in b && b[m] == a[m].(operands := Subst(a[m].operands, dot, to))
    ensures ConvertedCast(b, v, t, newEnc, newElem, region, r) && b[r] == a[r]
  {
    assert r != dot;
    SubstAbsent(a[r].operands, dot, to);
    if SelectCast(t.elem, newElem).Some? {
      var cv := a[r].operands[0];
      assert cv != dot;
      SubstAbsent(a[cv].operands, dot, to);
    }
  }

  /** `x` is the value node `r` reads: for a cast, the conversion it casts. */
  ghost predicate ConvertedFrom(nodes: map<NodeId, Node>, r: NodeId, x: NodeId) {
    r in nodes && |nodes[r].operands| >= 1 && x == nodes[r].operands[0]
  }

  /**
   * `x` is one of the nodes the lowering creates: the new dot, its three
   * operands and the conversion a cast accumulator reads, the output and the
   * conversion a cast output reads.
   */
  ghost predicate CreatedByLowering(nodes: map<NodeId, Node>, newDot: NodeId, output: NodeId, x: NodeId) {
    || x == newDot || x == output || ConvertedFrom(nodes, output, x)
    || (newDot in nodes && x in nodes[newDot].operands)
    || (newDot in nodes && |nodes[newDot].operands| == 3 && ConvertedFrom(nodes, nodes[newDot].operands[2], x))
  }

  /**
   * convertAndCastTensor: a layout conversion of `v` into `newEnc`, followed,
   * when the element types differ, by the cast SelectCast picks. Returns the
   * last node created.
   */
  method ConvertAndCastTensor(g: Graph, v: NodeId, newEnc: Encoding, newElem: ElemType, region: RegionId)
    returns (r: NodeId)
    requires g.Valid() && v in g.nodes && |g.nodes[v].results| >= 1
    requires TypeOf(g.nodes, v).Tensor?
    requires CastableElems(TypeOf(g.nodes, v).elem, newElem)
    modifies g
    ensures g.Valid() && g.nextId == r + 1 && old(g.nextId) <= r
    ensures forall m :: m in old(g.nodes) ==> m in g.nodes && g.nodes[m] == old(g.nodes)[m]
    ensures forall m :: m in g.nodes && m !in old(g.nodes) ==> old(g.nextId) <= m < g.nextId
    ensures var t := old(TypeOf(g.nodes, v));
      var converted := old(g.nextId);
      var withConvert := old(g.nodes)[converted := ConvertNode(t, v, newEnc, region)];
      match SelectCast(t.elem, newElem)
      case None => r == converted && g.nodes == withConvert
      case Some(c) =>
        && r == converted + 1
        && g.nodes == withConvert[r := Node(CastOp(c), [converted],
                                            [Tensor(t.shape, CastResultElem(t.elem, newElem), Some(newEnc))], region)]
    ensures var t := old(TypeOf(g.nodes, v));
      r in g.nodes && TypeOf(g.nodes, r) == Tensor(t.shape, CastResultElem(t.elem, newElem), Some(newEnc))
    ensures ConvertedCast(g.nodes, v, old(TypeOf(g.nodes, v)), newEnc, newElem, region, r)
    ensures forall m :: m in g.nodes && m !in old(g.nodes) ==> m == r || ConvertedFrom(g.nodes, r, m)
  {
    var t := TypeOf(g.nodes, v);
    var convertedType := Tensor(t.shape, t.elem, Some(newEnc));
    var converted := g.Create(ConvertLayout, [v], [convertedType], region);
    var cast := SelectCast(t.elem, newElem);
    if cast.None? {
      return converted;
    }
    var castedType := Tensor(t.shape, newElem, Some(newEnc));
    var resultType := if cast.value == IntBitcast then convertedType else castedType;
    r := g.Create(CastOp(cast.value), [converted], [resultType], region);
  }

  /** The outcome of one application of the pattern to a dot. */
  datatype Rewrite =
    | NoMatch
    | FatalError(reason: Fatal)
    | Rewritten(newDot: NodeId, output: NodeId)

  /** The decisions the pattern takes for `dot` in the graph `nodes`. */
  function PlanFor(nodes: map<NodeId, Node>, dot: NodeId, version: nat, enforced: nat,
                   numWarps: nat, table: MfmaTable): (r: Result<Plan, Fatal>)
    requires WellTypedDot(nodes, dot)
    requires IsBlocked(nodes[dot].results[0].encoding)
    ensures r.Success? ==> r.value.layout.isTransposed == Slice.IsChainDot(nodes, dot)
  {
    var n := nodes[dot];
    var res := n.results[0];
    var aType := TypeOf(nodes, n.operands[0]);
    var bType := TypeOf(nodes, n.operands[1]);
    PlanLowering(version, enforced, table, numWarps, Slice.IsChainDot(nodes, dot),
                 res.encoding.value.cta, res.shape[0], res.shape[1], aType.shape[1],
                 aType.elem, bType.elem, res.elem)
  }

  /**
   * `ops` are the operands of the lowered dot: A and B converted into the
   * dot-operand layouts of the accumulator encoding with kWidth, and the
   * accumulator in the accumulator encoding with the new accumulator type.
   */
  ghost predicate LoweredOperands(before: map<NodeId, Node>, after: map<NodeId, Node>, dot: NodeId,
                                  p: Plan, ops: seq<NodeId>)
    requires WellTypedDot(before, dot)
  {
    var old_ := before[dot];
    var res := old_.results[0];
    && |ops| == 3
    && IsIntOrFloat(res.elem)
    && (forall k :: 0 <= k < 3 ==> ops[k] in after && ops[k] !in before && |after[ops[k]].results| >= 1)
    && (forall k :: 0 <= k < 2 ==>
          var t := TypeOf(before, old_.operands[k]);
          after[ops[k]]
            == Node(ConvertLayout, [old_.operands[k]],
                    [Tensor(t.shape, t.elem, Some(DotOperand(k, p.layout, p.kWidth)))], old_.region))
    && TypeOf(after, ops[2]) == Tensor(res.shape, NewAccElem(res.elem), Some(AmdMfma(p.layout)))
    && ConvertedCast(after, old_.operands[2], res, AmdMfma(p.layout), p.accElem, old_.region, ops[2])
  }

  /**
   * `newDot` in `after` is the lowered form of `dot` in `before` under plan
   * `p`: same dot attributes and region, lowered operands, and a result in the
   * MFMA accumulator encoding typed as the new accumulator.
   */
  ghost predicate LoweredDot(before: map<NodeId, Node>, after: map<NodeId, Node>, dot: NodeId,
                             p: Plan, newDot: NodeId)
    requires WellTypedDot(before, dot)
  {
    && WellTypedDot(after, newDot)
    && newDot !in before
    && LoweredOperands(before, after, dot, p, after[newDot].operands)
    && after[newDot].kind == before[dot].kind
    && after[newDot].region == before[dot].region
  }

  /**
   * The description of the new dot survives replacing `dot` by any value:
   * replacement changes only operands that read `dot`, and neither the new
   * dot nor the A and B conversions reads it.
   */
  lemma LoweredDotSurvivesReplace(before: map<NodeId, Node>, built: map<NodeId, Node>,
                                  final: map<NodeId, Node>, dot: NodeId, to: NodeId, p: Plan, newDot: NodeId)
    requires WellTypedDot(before, dot) && LoweredDot(before, built, dot, p, newDot)
    requires dot in built && built[dot] == before[dot]
    requires forall m :: m in built && m != dot ==>
      m in final && final[m] == built[m].(operands := Subst(built[m].operands, dot, to))
    ensures LoweredDot(before, final, dot, p, newDot)
    ensures final[newDot] == built[newDot] && final[built[newDot].operands[2]] == built[built[newDot].operands[2]]
  {
    var ops := built[newDot].operands;
    SubstAbsent(ops, dot, to);
    var n := before[dot];
    ConvertedCastSurvivesReplace(built, final, dot, to, n.operands[2], n.results[0], AmdMfma(p.layout), p.accElem,
                                 n.region, ops[2]);
    assert final[newDot] == built[newDot];
    forall k | 0 <= k < 2
      ensures final[ops[k]] == built[ops[k]]
    {
      SubstAbsent(built[ops[k]].operands, dot, to);
    }
  }

  /** The lowered operands keep their description while their nodes are left alone. */
  lemma LoweredOperandsFrame(before: map<NodeId, Node>, built: map<NodeId, Node>, final: map<NodeId, Node>,
                             dot: NodeId, p: Plan, ops: seq<NodeId>)
    requires WellTypedDot(before, dot) && LoweredOperands(before, built, dot, p, ops)
    requires forall m :: m in built ==> m in final && final[m] == built[m]
    ensures LoweredOperands(before, final, dot, p, ops)
  {
    var n := before[dot];
    ConvertedCastFrame(built, final, n.operands[2], n.results[0], AmdMfma(p.layout), p.accElem, n.region, ops[2]);
  }

  /** A dot created over the lowered operands, typed as the new accumulator, is the lowered dot. */
  lemma LoweredDotIntro(before: map<NodeId, Node>, after: map<NodeId, Node>, dot: NodeId,
                        p: Plan, ops: seq<NodeId>, newDot: NodeId)
    requires WellTypedDot(before, dot) && LoweredOperands(before, after, dot, p, ops)
    requires newDot in after && newDot !in before && newDot !in ops
    requires after[newDot] == Node(before[dot].kind, ops, [TypeOf(after, ops[2])], before[dot].region)
    ensures LoweredDot(before, after, dot, p, newDot)
  {
    var old_ := before[dot];
    forall k | 0 <= k < 2
      ensures TypeOf(after, ops[k]).Tensor? && |TypeOf(after, ops[k]).shape| == 2
    {
      assert TypeOf(after, ops[k]).shape == TypeOf(before, old_.operands[k]).shape;
    }
  }

  /** Later nodes leave the description of the new dot alone. */
  lemma LoweredDotFrame(before: map<NodeId, Node>, built: map<NodeId, Node>, final: map<NodeId, Node>,
                        dot: NodeId, p: Plan, newDot: NodeId)
    requires WellTypedDot(before, dot) && LoweredDot(before, built, dot, p, newDot)
    requires forall m :: m in built ==> m in final && final[m] == built[m]
    ensures LoweredDot(before, final, dot, p, newDot)
  {
    var ops := built[newDot].operands;
    assert final[newDot] == built[newDot];
    LoweredOperandsFrame(before, built, final, dot, p, ops);
  }

  /** The three nodes built for A, B and the accumulator are the lowered operands. */
  lemma LoweredOperandsIntro(before: map<NodeId, Node>, after: map<NodeId, Node>, dot: NodeId,
                             p: Plan, newA: NodeId, newB: NodeId, newAcc: NodeId)
    requires WellTypedDot(before, dot) && IsIntOrFloat(before[dot].results[0].elem)
    requires newA in after && newB in after && newAcc in after
    requires newA !in before && newB !in before && newAcc !in before
    requires |after[newAcc].results| >= 1
    requires var n := before[dot];
      after[newA] == Node(ConvertLayout, [n.operands[0]], [DotOperandType(TypeOf(before, n.operands[0]), 0, p)], n.region)
    requires var n := before[dot];
      after[newB] == Node(ConvertLayout, [n.operands[1]], [DotOperandType(TypeOf(before, n.operands[1]), 1, p)], n.region)
    requires var res := before[dot].results[0];
      TypeOf(after, newAcc) == Tensor(res.shape, NewAccElem(res.elem), Some(AmdMfma(p.layout)))
    requires var n := before[dot];
      ConvertedCast(after, n.operands[2], n.results[0], AmdMfma(p.layout), p.accElem, n.region, newAcc)
    ensures LoweredOperands(before, after, dot, p, [newA, newB, newAcc])
  {
    var ops := [newA, newB, newAcc];
    assert forall k :: 0 <= k < 2 ==> ops[k] == if k == 0 then newA else newB;
  }

  /** The dot-operand type operand `k` of a dot with operand type `t` is converted to. */
  function DotOperandType(t: Type, k: nat, p: Plan): (r: Type)
    requires t.Tensor?
    ensures r.Tensor? && r.shape == t.shape && r.elem == t.elem
  {
    Tensor(t.shape, t.elem, Some(DotOperand(k, p.layout, p.kWidth)))
  }

  /** The conversions of A and B into the dot-operand layouts. */
  method ConvertAB(g: Graph, a: NodeId, b: NodeId, p: Plan, region: RegionId) returns (newA: NodeId, newB: NodeId)
    requires g.Valid() && a in g.nodes && b in g.nodes
    requires |g.nodes[a].results| >= 1 && TypeOf(g.nodes, a).Tensor?
    requires |g.nodes[b].results| >= 1 && TypeOf(g.nodes, b).Tensor?
    modifies g
    ensures g.Valid() && newA == old(g.nextId) && newB == newA + 1 && g.nextId == newB + 1
    ensures forall m :: m in old(g.nodes) ==> m in g.nodes && g.nodes[m] == old(g.nodes)[m]
    ensures g.nodes == old(g.nodes)
      [newA := Node(ConvertLayout, [a], [DotOperandType(old(TypeOf(g.nodes, a)), 0, p)], region)]
      [newB := Node(ConvertLayout, [b], [DotOperandType(old(TypeOf(g.nodes, b)), 1, p)], region)]
  {
    var aType, bType := TypeOf(g.nodes, a), TypeOf(g.nodes, b);
    newA := g.Create(ConvertLayout, [a], [DotOperandType(aType, 0, p)], region);
    newB := g.Create(ConvertLayout, [b], [DotOperandType(bType, 1, p)], region);
  }

  /** The accumulator conversion and the A and B conversions of matchAndRewrite. */
  method LowerOperands(g: Graph, dot: NodeId, p: Plan) returns (ops: seq<NodeId>)
    requires g.Valid() && WellTypedDot(g.nodes, dot)
    requires IsIntOrFloat(g.nodes[dot].results[0].elem)
    requires p.accElem == AccType(g.nodes[dot].results[0].elem)
    modifies g
    ensures g.Valid() && old(g.nextId) <= g.nextId
    ensures forall m :: m in old(g.nodes) ==> m in g.nodes && g.nodes[m] == old(g.nodes)[m]
    ensures forall m :: m in g.nodes && m !in old(g.nodes) ==> old(g.nextId) <= m < g.nextId
    ensures LoweredOperands(old(g.nodes), g.nodes, dot, p, ops)
    ensures forall m :: m in g.nodes && m !in old(g.nodes) ==> m in ops || ConvertedFrom(g.nodes, ops[2], m)
  {
    var n := g.nodes[dot];
    var res := n.results[0];
    var a, b := n.operands[0], n.operands[1];
    ghost var before := g.nodes;
    assert TypeOf(before, n.operands[2]) == res;
    var newAcc := ConvertAndCastTensor(g, n.operands[2], AmdMfma(p.layout), p.accElem, n.region);
    ghost var withAcc := g.nodes;
    assert TypeOf(withAcc, newAcc) == Tensor(res.shape, NewAccElem(res.elem), Some(AmdMfma(p.layout)));
    var newA, newB := ConvertAB(g, a, b, p, n.region);
    ConvertedCastFrame(withAcc, g.nodes, n.operands[2], res, AmdMfma(p.layout), p.accElem, n.region, newAcc);
    assert g.nodes[newAcc] == withAcc[newAcc];
    ops := [newA, newB, newAcc];
    forall m | m in g.nodes && m !in before
      ensures old(g.nextId) <= m < g.nextId
      ensures m in ops || ConvertedFrom(g.nodes, ops[2], m)
    {
      if m != newA && m != newB {
        assert m in withAcc;
      }
    }
    LoweredOperandsIntro(before, g.nodes, dot, p, newA, newB, newAcc);
  }

  /**
   * The node-creating part of matchAndRewrite: the lowered operands, the new
   * dot and the conversion of its result back to the original type.
   */
  method BuildMfmaDot(g: Graph, dot: NodeId, p: Plan) returns (newDot: NodeId, output: NodeId)
    requires g.Valid() && WellTypedDot(g.nodes, dot)
    requires g.nodes[dot].results[0].encoding.Some?
    requires IsIntOrFloat(g.nodes[dot].results[0].elem)
    requires p.accElem == AccType(g.nodes[dot].results[0].elem)
    modifies g
    ensures g.Valid()
    ensures old(g.nextId) <= newDot < output < g.nextId
    ensures forall m :: m in old(g.nodes) ==> m in g.nodes && g.nodes[m] == old(g.nodes)[m]
    ensures forall m :: m in g.nodes && m !in old(g.nodes) ==> old(g.nextId) <= m
    ensures LoweredDot(old(g.nodes), g.nodes, dot, p, newDot)
    ensures output in g.nodes && |g.nodes[output].results| >= 1
    ensures TypeOf(g.nodes, output) == old(g.nodes[dot].results[0])
    ensures var res := old(g.nodes[dot].results[0]);
      ConvertedCast(g.nodes, newDot, g.nodes[newDot].results[0], res.encoding.value, res.elem,
                    old(g.nodes[dot].region), output)
    ensures forall m :: m in g.nodes && m !in old(g.nodes) ==> CreatedByLowering(g.nodes, newDot, output, m)
  {
    var n := g.nodes[dot];
    var res := n.results[0];
    ghost var before := g.nodes;
    var ops := LowerOperands(g, dot, p);
    ghost var withOps := g.nodes;
    newDot := g.Create(n.kind, ops, [TypeOf(g.nodes, ops[2])], n.region);
    LoweredOperandsFrame(before, withOps, g.nodes, dot, p, ops);
    LoweredDotIntro(before, g.nodes, dot, p, ops, newDot);
    ghost var built := g.nodes;
    OutputKeepsResultElem(res.elem);
    output := ConvertAndCastTensor(g, newDot, res.encoding.value, res.elem, n.region);
    LoweredDotFrame(before, built, g.nodes, dot, p, newDot);
    forall m | m in before
      ensures m in g.nodes && g.nodes[m] == before[m]
    {
      assert m in withOps && m in built;
    }
    assert g.nodes[newDot] == built[newDot] && g.nodes[ops[2]] == withOps[ops[2]];
    forall m | m in g.nodes && m !in before
      ensures old(g.nextId) <= m
      ensures CreatedByLowering(g.nodes, newDot, output, m)
    {
      if m in built && m != newDot {
        assert m in withOps;
      }
    }
  }

  /**
   * The decision steps of matchAndRewrite for a blocked dot, in the source's
   * order: instruction choice, warp assignment and chain test, accumulator
   * type (whose element must be an integer or float for the casts), kWidth.
   */
  method PlanDot(g: Graph, dot: NodeId, version: nat, enforced: nat, numWarps: nat, table: MfmaTable)
    returns (r: Result<Plan, Fatal>)
    requires WellTypedDot(g.nodes, dot) && IsBlocked(g.nodes[dot].results[0].encoding)
    ensures r == PlanFor(g.nodes, dot, version, enforced, numWarps, table)
  {
    var n := g.nodes[dot];
    var res := n.results[0];
    var aType, bType := TypeOf(g.nodes, n.operands[0]), TypeOf(g.nodes, n.operands[1]);
    var M, N, K := res.shape[0], res.shape[1], aType.shape[1];
    var dims := ChooseMfmaDimensions(enforced, version, table, M, N, K, aType.elem, bType.elem);
    if dims.Failure? {
      return Failure(dims.error);
    }
    var d := dims.value;
    var chained := Slice.IsChainDot(g.nodes, dot);
    var warpsM, warpsN := WarpTiling.WarpsPerTileMfma(chained, M, N, numWarps, d.mDim, d.nDim);
    var layout := MfmaLayout(version, 0, (warpsM, warpsN), d.mDim, d.nDim, chained, res.encoding.value.cta);
    var accElem := AccType(res.elem);
    if !IsIntOrFloat(res.elem) {
      return Failure(AccNotIntOrFloat);
    }
    var kWidth := KWidth(d.mDim, d.nDim, d.kDim);
    if kWidth == -1 {
      return Failure(NoKWidth);
    }
    return Success(Plan(d, layout, kWidth, accElem));
  }

  /**
   * BlockedToMFMA::matchAndRewrite. `supportsMfma` is the answer of the
   * hardware query for this dot and `numWarps` the module's warp count.
   */
  method BlockedToMfma(g: Graph, dot: NodeId, version: nat, enforced: nat, numWarps: nat,
                       supportsMfma: bool, table: MfmaTable)
    returns (r: Rewrite)
    requires g.Valid() && WellTypedDot(g.nodes, dot)
    modifies g
    ensures g.Valid()
    ensures r.NoMatch? <==> !IsBlocked(old(g.nodes[dot].results[0].encoding)) || !supportsMfma
    ensures r.NoMatch? || r.FatalError? ==> g.nodes == old(g.nodes)
    ensures !r.NoMatch? ==>
      && IsBlocked(old(g.nodes[dot].results[0].encoding))
      && var plan := PlanFor(old(g.nodes), dot, version, enforced, numWarps, table);
      && (r.FatalError? <==> plan.Failure?)
      && (r.FatalError? ==> r.reason == plan.error)
      && (r.Rewritten? ==>
            && dot !in g.nodes
            && old(g.nextId) <= r.newDot < r.output < g.nextId
            && LoweredDot(old(g.nodes), g.nodes, dot, plan.value, r.newDot)
            && !IsBlocked(TypeOf(g.nodes, r.newDot).encoding)
            && r.output in g.nodes && |g.nodes[r.output].results| >= 1
            && TypeOf(g.nodes, r.output) == old(g.nodes[dot].results[0])
            && ConvertedCast(g.nodes, r.newDot, g.nodes[r.newDot].results[0], old(g.nodes[dot].results[0]).encoding.value,
                             old(g.nodes[dot].results[0]).elem, old(g.nodes[dot].region), r.output)
            && (forall n :: n in old(g.nodes) && n != dot ==>
                  n in g.nodes && g.nodes[n] == old(g.nodes)[n].(operands := Subst(old(g.nodes)[n].operands, dot, r.output)))
            && (forall n :: n in g.nodes && n !in old(g.nodes) ==> old(g.nextId) <= n < g.nextId)
            && (forall n :: n in g.nodes && n !in old(g.nodes) ==> CreatedByLowering(g.nodes, r.newDot, r.output, n)))
  {
    var res := g.nodes[dot].results[0];
    if !IsBlocked(res.encoding) || !supportsMfma {
      return NoMatch;
    }
    var plan := PlanDot(g, dot, version, enforced, numWarps, table);
    if plan.Failure? {
      return FatalError(plan.error);
    }
    ghost var before := g.nodes;
    var newDot, output := BuildMfmaDot(g, dot, plan.value);
    ghost var built := g.nodes;
    g.ReplaceOp(dot, output);
    LoweredDotSurvivesReplace(before, built, g.nodes, dot, output, plan.value, newDot);
    ConvertedCastSurvivesReplace(built, g.nodes, dot, output, newDot, built[newDot].results[0],
                                 res.encoding.value, res.elem, before[dot].region, output);
    CreatedSurvivesReplace(before, built, g.nodes, newDot, output);
    return Rewritten(newDot, output);
  }

  /** The nodes the lowering created are still described once the nodes that name them are left alone. */
  lemma CreatedSurvivesReplace(before: map<NodeId, Node>, built: map<NodeId, Node>, final: map<NodeId, Node>,
                               newDot: NodeId, output: NodeId)
    requires forall m :: m in built && m !in before ==> CreatedByLowering(built, newDot, output, m)
    requires final.Keys <= built.Keys
    requires newDot in built && |built[newDot].operands| == 3
    requires newDot in final && final[newDot] == built[newDot]
    requires output in built && output in final && final[output] == built[output]
    requires var acc := built[newDot].operands[2]; acc in built && acc in final && final[acc] == built[acc]
    ensures forall m :: m in final && m !in before ==> CreatedByLowering(final, newDot, output, m)
  {
  }

  lemma SubstAbsent(s: seq<NodeId>, from: NodeId, to: NodeId)
    requires from !in s
    ensures Subst(s, from, to) == s
  {
  }
}
