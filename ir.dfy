/**
 * The slice of the tensor IR that both AMD rewrite patterns see: element types,
 * layout encodings, ranked tensor types, the operation kinds the patterns
 * dispatch on, and a mutable dataflow graph of operation nodes.
 *
 * A value is the first result of the node that defines it, so an operand is
 * simply the id of its defining node.
 */
module Ir {

  datatype Option<T> = None | Some(value: T)

  datatype Result<T, E> = Success(value: T) | Failure(error: E)

  type NodeId = nat
  type RegionId = nat

  // ---------------------------------------------------------------- types

  datatype Signedness = Signless | Signed | Unsigned

  datatype FloatKind = E4M3FNUZ | E5M2FNUZ | E4M3 | E5M2 | BF16 | F16 | TF32 | F32 | F64

  datatype ElemType =
    | Int(width: nat, sign: Signedness)
    | Index
    | Float(kind: FloatKind)
    | Ptr(pointee: ElemType, addressSpace: nat)

  const I32Type: ElemType := Int(32, Signless)
  const F16Type: ElemType := Float(F16)
  const F32Type: ElemType := Float(F32)

  function FloatWidth(k: FloatKind): nat {
    match k
    case E4M3FNUZ => 8
    case E5M2FNUZ => 8
    case E4M3 => 8
    case E5M2 => 8
    case BF16 => 16
    case F16 => 16
    case TF32 => 19
    case F32 => 32
    case F64 => 64
  }

  /** Integer types and the index type. */
  predicate IsIntOrIndex(t: ElemType) {
    t.Int? || t.Index?
  }

  /** Integer and floating-point types (the index type is neither). */
  predicate IsIntOrFloat(t: ElemType) {
    t.Int? || t.Float?
  }

  function BitWidth(t: ElemType): nat
    requires IsIntOrFloat(t)
  {
    if t.Int? then t.width else FloatWidth(t.kind)
  }

  // ------------------------------------------------------------ encodings

  /** Block-level (CTA) tiling, carried over unchanged by the lowering. */
  datatype CtaLayout = CtaLayout(ctasPerCga: seq<nat>, ctaSplitNum: seq<nat>, ctaOrder: seq<nat>)

  /** Attributes of an AMD matrix-core accumulator encoding. */
  datatype MfmaLayout = MfmaLayout(
    versionMajor: nat,
    versionMinor: nat,
    warpsPerCta: (nat, nat),
    mDim: nat,
    nDim: nat,
    isTransposed: bool,
    cta: CtaLayout)

  datatype Encoding =
    | Blocked(sizePerThread: seq<nat>, threadsPerWarp: seq<nat>, warpsPerCta: seq<nat>,
              order: seq<nat>, cta: CtaLayout)
    | AmdMfma(mfma: MfmaLayout)
    | NvidiaMma(versionMajor: nat, versionMinor: nat, warps: seq<nat>, cta: CtaLayout)
    | DotOperand(opIdx: nat, parent: MfmaLayout, kWidth: int)
    | OtherEncoding(name: string)

  /** Whether an (optional) encoding is one of the matrix-accumulator encodings. */
  predicate IsMma(e: Option<Encoding>) {
    e.Some? && (e.value.AmdMfma? || e.value.NvidiaMma?)
  }

  predicate IsBlocked(e: Option<Encoding>) {
    e.Some? && e.value.Blocked?
  }

  datatype Type =
    | Tensor(shape: seq<nat>, elem: ElemType, encoding: Option<Encoding>)
    | Scalar(elem: ElemType)

  /** The same tensor type placed in another layout. */
  function WithEncoding(t: Type, e: Encoding): (r: Type)
    requires t.Tensor?
    ensures r.Tensor? && r.shape == t.shape && r.elem == t.elem && r.encoding == Some(e)
  {
    Tensor(t.shape, t.elem, Some(e))
  }

  // ------------------------------------------------------ operation kinds

  datatype ArithOp =
    | ExtF | ExtSI | ExtUI | FPToSI | FPToUI | NegF | SIToFP | TruncF | TruncI | UIToFP
    | Bitcast | AddF | MulF | Select

  datatype MathOp =
    | AbsF | AbsI | Atan | Atan2 | Ceil | Cos | Sin | CountLeadingZeros | CountTrailingZeros
    | CtPop | Erf | Exp | Exp2 | ExpM1 | Floor | Log | Log10 | Log1p | Log2 | Rsqrt | Sqrt
    | Tanh | Tan | PowF | Fma

  datatype TritonOp = IntToPtr | PtrToInt | Bitcast | FpToFp | Load | Splat | AddPtr | MakeRange

  datatype OpKind =
    | Dot(allowTF32: bool, maxNumImpreciseAcc: int)
    | Store(cache: nat, evict: nat)
    | ConvertLayout
    | Arith(arith: ArithOp)
    | Math(math: MathOp)
    | Triton(triton: TritonOp)
    | ExternElementwise(pure: bool)
    | OtherOp(name: string)

  datatype Node = Node(kind: OpKind, operands: seq<NodeId>, results: seq<Type>, region: RegionId)

  /** The shapes the verifier of each operation enforces and the patterns rely on. */
  predicate WellFormedNode(n: Node) {
    && (n.kind.Store? ==> (|n.operands| == 2 || |n.operands| == 3) && |n.results| == 0)
    && (n.kind.Dot? ==> |n.operands| == 3 && |n.results| == 1)
    && (n.kind.ConvertLayout? ==> |n.operands| == 1 && |n.results| == 1 && n.results[0].Tensor?)
    && (n.kind.Arith? || n.kind.Math? || n.kind.Triton? ==> |n.results| == 1)
  }

  /** Every operand is the (first) result of a node of the graph. */
  predicate Closed(nodes: map<NodeId, Node>) {
    forall n, o :: n in nodes && o in nodes[n].operands ==> o in nodes && |nodes[o].results| >= 1
  }

  predicate ValidGraph(nodes: map<NodeId, Node>, nextId: NodeId) {
    && Closed(nodes)
    && forall n :: n in nodes ==> n < nextId && WellFormedNode(nodes[n])
  }

  /** Definitions come before their uses: the id of an operand is smaller than its user's. */
  predicate Dominance(nodes: map<NodeId, Node>) {
    forall n, o :: n in nodes && o in nodes[n].operands ==> o < n
  }

  function TypeOf(nodes: map<NodeId, Node>, v: NodeId): Type
    requires v in nodes && |nodes[v].results| >= 1
  {
    nodes[v].results[0]
  }

  /** The uses of value `v`: every (user, operand index) pair that reads it. */
  function Uses(nodes: map<NodeId, Node>, v: NodeId): (r: set<(NodeId, nat)>)
    ensures forall u, i: nat :: (u, i) in r <==>
      u in nodes && i < |nodes[u].operands| && nodes[u].operands[i] == v
  {
    set u, i | u in nodes && 0 <= i < |nodes[u].operands| && nodes[u].operands[i] == v :: (u, i)
  }

  predicate HasOneUse(nodes: map<NodeId, Node>, v: NodeId) {
    |Uses(nodes, v)| == 1
  }

  /** A value with exactly one use has no use other than that one. */
  lemma OneUseIsTheUse(nodes: map<NodeId, Node>, v: NodeId, x: (NodeId, nat), y: (NodeId, nat))
    requires HasOneUse(nodes, v) && x in Uses(nodes, v) && y in Uses(nodes, v)
    ensures x == y
  {
    var s := Uses(nodes, v);
    assert |s - {x}| == |s| - 1;
  }

  /** Every operand in `s` replaced by `to` where it was `from`. */
  function Subst(s: seq<NodeId>, from: NodeId, to: NodeId): (r: seq<NodeId>)
    ensures |r| == |s|
    ensures forall i :: 0 <= i < |s| ==> r[i] == if s[i] == from then to else s[i]
  {
    seq(|s|, i requires 0 <= i < |s| => if s[i] == from then to else s[i])
  }

  // ---------------------------------------------------------------- graph

  /** The dataflow graph that a rewrite pattern mutates in place. */
  class Graph {
    var nodes: map<NodeId, Node>
    var nextId: NodeId

    ghost predicate Valid()
      reads this
    {
      ValidGraph(nodes, nextId)
    }

    constructor (initial: map<NodeId, Node>, next: NodeId)
      requires ValidGraph(initial, next)
      ensures Valid() && nodes == initial && nextId == next
    {
      nodes := initial;
      nextId := next;
    }

    /** Creates an operation; it gets the next unused id. */
    method Create(kind: OpKind, operands: seq<NodeId>, results: seq<Type>, region: RegionId)
      returns (id: NodeId)
      requires Valid()
      requires forall o :: o in operands ==> o in nodes && |nodes[o].results| >= 1
      requires WellFormedNode(Node(kind, operands, results, region))
      modifies this
      ensures Valid()
      ensures id == old(nextId) && id !in old(nodes) && nextId == id + 1
      ensures nodes == old(nodes)[id := Node(kind, operands, results, region)]
    {
      id := nextId;
      nodes := nodes[id := Node(kind, operands, results, region)];
      nextId := nextId + 1;
    }

    /** Makes operand `i` of node `n` read value `v`. */
    method SetOperand(n: NodeId, i: nat, v: NodeId)
      requires Valid() && n in nodes && i < |nodes[n].operands|
      requires v in nodes && |nodes[v].results| >= 1
      modifies this
      ensures Valid() && nextId == old(nextId)
      ensures nodes == old(nodes)[n := old(nodes)[n].(operands := old(nodes)[n].operands[i := v])]
    {
      nodes := nodes[n := nodes[n].(operands := nodes[n].operands[i := v])];
    }

    /** Changes the type of the first result of node `n`. */
    method SetResultType(n: NodeId, t: Type)
      requires Valid() && n in nodes && |nodes[n].results| >= 1
      requires nodes[n].kind.ConvertLayout? ==> t.Tensor?
      modifies this
      ensures Valid() && nextId == old(nextId)
      ensures nodes == old(nodes)[n := old(nodes)[n].(results := old(nodes)[n].results[0 := t])]
    {
      nodes := nodes[n := nodes[n].(results := nodes[n].results[0 := t])];
    }

    /** Every use of `from` now reads `to`. */
    method ReplaceAllUsesWith(from: NodeId, to: NodeId)
      requires Valid() && to in nodes && |nodes[to].results| >= 1
      modifies this
      ensures Valid() && nextId == old(nextId)
      ensures nodes.Keys == old(nodes).Keys
      ensures forall n :: n in nodes ==>
        nodes[n] == old(nodes)[n].(operands := Subst(old(nodes)[n].operands, from, to))
      ensures Uses(nodes, from) == {} || from == to
    {
      var replaced := map n | n in nodes :: nodes[n].(operands := Subst(nodes[n].operands, from, to));
      forall n, o | n in replaced && o in replaced[n].operands
        ensures o in replaced && |replaced[o].results| >= 1
      {
        var i :| 0 <= i < |replaced[n].operands| && replaced[n].operands[i] == o;
        if nodes[n].operands[i] != from {
          assert nodes[n].operands[i] in nodes[n].operands;
        }
      }
      forall n | n in replaced
        ensures n < nextId && WellFormedNode(replaced[n])
      {
        assert replaced[n] == nodes[n].(operands := Subst(nodes[n].operands, from, to));
      }
      nodes := replaced;
      if from != to {
        forall u: NodeId, i: nat | u in nodes && i < |nodes[u].operands|
          ensures nodes[u].operands[i] != from
        {
        }
        assert Uses(nodes, from) == {};
      }
    }

    /** replaceOp: every use of `from` now reads `to`, and `from` is removed. */
    method ReplaceOp(from: NodeId, to: NodeId)
      requires Valid() && to in nodes && |nodes[to].results| >= 1 && from != to
      modifies this
      ensures Valid() && nextId == old(nextId)
      ensures nodes.Keys == old(nodes).Keys - {from}
      ensures forall n :: n in nodes ==>
        nodes[n] == old(nodes)[n].(operands := Subst(old(nodes)[n].operands, from, to))
    {
      ReplaceAllUsesWith(from, to);
      Erase(from);
    }

    /** Removes an operation whose result is no longer used. */
    method Erase(n: NodeId)
      requires Valid() && Uses(nodes, n) == {}
      modifies this
      ensures Valid() && nextId == old(nextId)
      ensures nodes == old(nodes) - {n}
    {
      forall u, o | u in nodes && o in nodes[u].operands
        ensures o != n
      {
        var i :| 0 <= i < |nodes[u].operands| && nodes[u].operands[i] == o;
        assert (u, i) !in Uses(nodes, n);
      }
      nodes := nodes - {n};
    }
  }
}
