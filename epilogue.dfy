/**
 * The BypassEpilogueSMEM rewrite. A store of a blocked tensor whose value is
 * computed by a chain of one-operand elementwise operations from a layout
 * conversion out of a matrix-accumulator layout is rewritten to store in the
 * accumulator layout directly: the chain is moved before the conversion (which
 * becomes dead), and the pointer and mask are converted to the accumulator
 * layout instead.
 */
module Epilogue {
  import opened Ir

  // ------------------------------------------------------------ allow-list

  /** The operation kinds isOneOperandElementwiseOp lists, as written. */
  predicate ListedElementwiseKind(k: OpKind) {
    || (k.Arith? && k.arith in {ExtF, ExtSI, ExtUI, FPToSI, FPToUI, NegF, SIToFP, TruncF, TruncI, UIToFP})
    || (k.Math? && k.math in {AbsF, AbsI, Atan, Atan2, Ceil, Cos, Sin, CountLeadingZeros,
                              CountTrailingZeros, CtPop, Erf, Exp, Exp2, ExpM1, Floor, Log, Log10,
                              Log1p, Log2, Rsqrt, Sqrt, Tanh})
    || (k.Triton? && k.triton in {IntToPtr, PtrToInt, TritonOp.Bitcast, FpToFp})
  }

  /** isOneOperandElementwiseOp as written: the listed kinds, or a pure extern elementwise op of one operand and result. */
  predicate IsOneOperandElementwiseAsWritten(n: Node) {
    || ListedElementwiseKind(n.kind)
    || (n.kind.ExternElementwise? && |n.operands| == 1 && |n.results| == 1 && n.kind.pure)
  }

  /** The allow-list as its name promises: the same kinds, with exactly one operand and one result. */
  predicate IsOneOperandElementwise(n: Node) {
    IsOneOperandElementwiseAsWritten(n) && |n.operands| == 1 && |n.results| == 1
  }

  /** A two-operand atan2 passes the allow-list as written. */
  lemma Atan2PassesAsWritten(y: NodeId, x: NodeId, t: Type, region: RegionId)
    ensures var n := Node(Math(Atan2), [y, x], [t], region);
      IsOneOperandElementwiseAsWritten(n) && |n.operands| == 2 && !IsOneOperandElementwise(n)
  {
  }

  // ----------------------------------------------------------------- graphs

  /**
   * What the operation verifiers guarantee and the pattern relies on: the
   * graph is closed and well formed, definitions precede uses, elementwise
   * operations and layout conversions work on tensors, and the mask of a
   * tensor store is a tensor.
   */
  predicate EpilogueGraph(nodes: map<NodeId, Node>) {
    && Closed(nodes)
    && Dominance(nodes)
    && WellFormedNodes(nodes)
    && ElementwiseOnTensors(nodes)
    && ConversionsOfTensors(nodes)
    && MasksAreTensors(nodes)
  }

  predicate WellFormedNodes(nodes: map<NodeId, Node>) {
    forall n :: n in nodes ==> WellFormedNode(nodes[n])
  }

  /** An allow-listed operation computing a tensor reads a tensor. */
  predicate ElementwiseOnTensors(nodes: map<NodeId, Node>)
    requires Closed(nodes)
  {
    forall n :: n in nodes && IsOneOperandElementwise(nodes[n]) && nodes[n].results[0].Tensor? ==>
      TypeOf(nodes, nodes[n].operands[0]).Tensor?
  }

  /** A layout conversion reads a tensor. */
  predicate ConversionsOfTensors(nodes: map<NodeId, Node>)
    requires Closed(nodes) && WellFormedNodes(nodes)
  {
    forall n :: n in nodes && nodes[n].kind.ConvertLayout? ==> TypeOf(nodes, nodes[n].operands[0]).Tensor?
  }

  /** The mask of a store through a tensor of pointers is a tensor. */
  predicate MasksAreTensors(nodes: map<NodeId, Node>)
    requires Closed(nodes) && WellFormedNodes(nodes)
  {
    forall n :: n in nodes && nodes[n].kind.Store? && |nodes[n].operands| == 3 ==>
      TypeOf(nodes, nodes[n].operands[0]).Tensor? ==> TypeOf(nodes, nodes[n].operands[2]).Tensor?
  }

  // -------------------------------------------------------------- the walk

  /** The elementwise operations from the stored value back to the conversion, and the conversion. */
  datatype Chain = Chain(ops: seq<NodeId>, cvt: NodeId)

  /** What operation `i` of the chain reads: the next operation, or the conversion after the last. */
  function Next(c: Chain, i: nat): NodeId {
    if i + 1 < |c.ops| then c.ops[i + 1] else c.cvt
  }

  /**
   * `c` leads from `v` to a layout conversion through allow-listed operations
   * that each have exactly one use and read the next one.
   */
  predicate ChainFrom(nodes: map<NodeId, Node>, v: NodeId, c: Chain) {
    && Linked(nodes, c)
    && (forall i :: 0 <= i < |c.ops| ==> HasOneUse(nodes, c.ops[i]))
    && (if |c.ops| == 0 then c.cvt == v else c.ops[0] == v)
  }

  /** The operations of `c` are allow-listed and each reads the next, the last one the conversion. */
  predicate Linked(nodes: map<NodeId, Node>, c: Chain) {
    && (forall i :: 0 <= i < |c.ops| ==>
          && c.ops[i] in nodes
          && IsOneOperandElementwise(nodes[c.ops[i]])
          && nodes[c.ops[i]].operands[0] == Next(c, i))
    && c.cvt in nodes && nodes[c.cvt].kind.ConvertLayout?
  }

  function Extend(prefix: seq<NodeId>, r: Option<Chain>): Option<Chain> {
    match r
    case None => None
    case Some(c) => Some(Chain(prefix + c.ops, c.cvt))
  }

  /** The chain from an operation's operand, with that operation put in front. */
  lemma ChainCons(nodes: map<NodeId, Node>, v: NodeId, c: Chain)
    requires v in nodes && IsOneOperandElementwise(nodes[v]) && HasOneUse(nodes, v)
    requires ChainFrom(nodes, nodes[v].operands[0], c)
    ensures ChainFrom(nodes, v, Chain([v] + c.ops, c.cvt))
  {
    var d := Chain([v] + c.ops, c.cvt);
    forall i | 0 <= i < |d.ops|
      ensures d.ops[i] in nodes && IsOneOperandElementwise(nodes[d.ops[i]]) && nodes[d.ops[i]].operands[0] == Next(d, i)
    {
      if i > 0 {
        assert d.ops[i] == c.ops[i - 1] && Next(d, i) == Next(c, i - 1);
      }
    }
    forall i | 0 <= i < |d.ops|
      ensures HasOneUse(nodes, d.ops[i])
    {
      if i > 0 {
        assert d.ops[i] == c.ops[i - 1];
      }
    }
  }

  /** The chain after the first operation of a chain. */
  lemma ChainTail(nodes: map<NodeId, Node>, v: NodeId, c: Chain)
    requires ChainFrom(nodes, v, c) && |c.ops| > 0
    ensures ChainFrom(nodes, Next(c, 0), Chain(c.ops[1..], c.cvt))
  {
    var rest := Chain(c.ops[1..], c.cvt);
    forall i | 0 <= i < |rest.ops|
      ensures rest.ops[i] == c.ops[i + 1] && Next(rest, i) == Next(c, i + 1)
    {
    }
  }

  /** The walk of matchAndRewrite from `v` to the conversion; None where the pattern gives up. */
  function Walk(nodes: map<NodeId, Node>, v: NodeId): (r: Option<Chain>)
    requires Closed(nodes) && Dominance(nodes) && v in nodes
    decreases v
  {
    var n := nodes[v];
    if n.kind.ConvertLayout? then Some(Chain([], v))
    else if !HasOneUse(nodes, v) || !IsOneOperandElementwise(n) then None
    else
      assert n.operands[0] in n.operands;
      Extend([v], Walk(nodes, n.operands[0]))
  }

  /** What the walk finds is a chain from `v`. */
  lemma {:induction false} WalkFindsChain(nodes: map<NodeId, Node>, v: NodeId)
    requires Closed(nodes) && Dominance(nodes) && v in nodes
    ensures Walk(nodes, v).Some? ==> ChainFrom(nodes, v, Walk(nodes, v).value)
    decreases v
  {
    var n := nodes[v];
    if !n.kind.ConvertLayout? && HasOneUse(nodes, v) && IsOneOperandElementwise(n) {
      WalkStep(nodes, v);
      var w := Walk(nodes, n.operands[0]);
      WalkFindsChain(nodes, n.operands[0]);
      if w.Some? {
        ChainCons(nodes, v, w.value);
      }
    }
  }

  /** Any chain from `v` is the one the walk finds, so the walk fails exactly when there is none. */
  lemma {:induction false} WalkFindsEveryChain(nodes: map<NodeId, Node>, v: NodeId, c: Chain)
    requires Closed(nodes) && Dominance(nodes) && v in nodes && ChainFrom(nodes, v, c)
    ensures Walk(nodes, v) == Some(c)
    decreases |c.ops|
  {
    if |c.ops| > 0 {
      assert nodes[v].operands[0] == Next(c, 0);
      WalkStep(nodes, v);
      ChainTail(nodes, v, c);
      WalkFindsEveryChain(nodes, Next(c, 0), Chain(c.ops[1..], c.cvt));
      assert [v] + c.ops[1..] == c.ops;
    }
  }

  /** A sequence whose neighbours fall falls throughout. */
  lemma {:induction false} StepsDescend(s: seq<NodeId>)
    requires forall i :: 0 <= i < |s| - 1 ==> s[i + 1] < s[i]
    ensures forall i, j :: 0 <= i < j < |s| ==> s[j] < s[i]
    decreases |s|
  {
    if |s| > 1 {
      var rest := s[1..];
      forall i | 0 <= i < |rest| - 1
        ensures rest[i + 1] < rest[i]
      {
        assert rest[i + 1] == s[i + 2] && rest[i] == s[i + 1];
      }
      StepsDescend(rest);
      forall i, j | 0 <= i < j < |s|
        ensures s[j] < s[i]
      {
        assert s[j] == rest[j - 1];
        if i > 0 {
          assert s[i] == rest[i - 1];
        } else if j > 1 {
          assert s[1] == rest[0];
        }
      }
    }
  }

  /** Along a chain the ids fall: every operation comes after the one it reads and after the conversion. */
  lemma ChainDescends(nodes: map<NodeId, Node>, c: Chain)
    requires Dominance(nodes) && Linked(nodes, c)
    ensures forall i, j :: 0 <= i < j < |c.ops| ==> c.ops[j] < c.ops[i]
    ensures forall i :: 0 <= i < |c.ops| ==> c.cvt < c.ops[i]
  {
    forall i | 0 <= i < |c.ops| - 1
      ensures c.ops[i + 1] < c.ops[i]
    {
      assert nodes[c.ops[i]].operands[0] == c.ops[i + 1];
      assert nodes[c.ops[i]].operands[0] in nodes[c.ops[i]].operands;
    }
    StepsDescend(c.ops);
    if |c.ops| > 0 {
      var last := c.ops[|c.ops| - 1];
      assert nodes[last].operands[0] == c.cvt;
      assert nodes[last].operands[0] in nodes[last].operands;
    }
  }

  /** One step of the walk: an allow-listed one-use operation joins the chain of its operand. */
  lemma WalkStep(nodes: map<NodeId, Node>, v: NodeId)
    requires Closed(nodes) && Dominance(nodes) && v in nodes
    requires !nodes[v].kind.ConvertLayout? && HasOneUse(nodes, v) && IsOneOperandElementwise(nodes[v])
    ensures nodes[v].operands[0] in nodes && nodes[v].operands[0] < v
    ensures Walk(nodes, v) == Extend([v], Walk(nodes, nodes[v].operands[0]))
  {
    assert nodes[v].operands[0] in nodes[v].operands;
  }

  lemma ExtendNothing(r: Option<Chain>)
    ensures Extend([], r) == r
  {
    if r.Some? {
      assert [] + r.value.ops == r.value.ops;
    }
  }

  lemma ExtendTwice(p: seq<NodeId>, q: seq<NodeId>, r: Option<Chain>)
    ensures Extend(p, Extend(q, r)) == Extend(p + q, r)
  {
    if r.Some? {
      assert p + (q + r.value.ops) == (p + q) + r.value.ops;
    }
  }

  /**
   * The while loop of matchAndRewrite: from the stored value, follow operand
   * 0 through one-use allow-listed operations until a layout conversion.
   */
  method FindChain(g: Graph, val: NodeId) returns (r: Option<Chain>)
    requires Closed(g.nodes) && Dominance(g.nodes) && val in g.nodes
    ensures r == Walk(g.nodes, val)
  {
    var chainedOps: seq<NodeId> := [];
    var v := val;
    ExtendNothing(Walk(g.nodes, val));
    while true
      invariant v in g.nodes
      invariant Walk(g.nodes, val) == Extend(chainedOps, Walk(g.nodes, v))
      decreases v
    {
      var n := g.nodes[v];
      if n.kind.ConvertLayout? {
        break;
      }
      if !HasOneUse(g.nodes, v) {
        return None;
      }
      if !IsOneOperandElementwise(n) {
        return None;
      }
      WalkStep(g.nodes, v);
      ExtendTwice(chainedOps, [v], Walk(g.nodes, n.operands[0]));
      chainedOps := chainedOps + [v];
      v := n.operands[0];
    }
    assert Walk(g.nodes, v) == Some(Chain([], v));
    assert chainedOps + [] == chainedOps;
    return Some(Chain(chainedOps, v));
  }

  // ------------------------------------------------------------ rewiring

  /** Operation `n` reading `v` as its operand 0 and computing in layout `enc`. */
  function Retarget(n: Node, v: NodeId, enc: Encoding): (r: Node)
    requires |n.operands| >= 1 && |n.results| >= 1 && n.results[0].Tensor?
    ensures r.kind == n.kind && r.region == n.region
    ensures |r.operands| == |n.operands| && |r.results| == |n.results| && r.results[0].Tensor?
    ensures r.operands[0] == v && r.results[0] == WithEncoding(n.results[0], enc)
    ensures |n.operands| == 1 ==> r.operands == [v]
    ensures |n.results| == 1 ==> r.results == [WithEncoding(n.results[0], enc)]
  {
    n.(operands := n.operands[0 := v], results := n.results[0 := WithEncoding(n.results[0], enc)])
  }

  /** Every operation of `ops` has an operand 0 and a tensor result to retarget. */
  predicate Retargetable(nodes: map<NodeId, Node>, ops: seq<NodeId>) {
    forall i :: 0 <= i < |ops| ==>
      && ops[i] in nodes
      && |nodes[ops[i]].operands| >= 1 && |nodes[ops[i]].results| >= 1
      && nodes[ops[i]].results[0].Tensor?
  }

  predicate Distinct(ops: seq<NodeId>) {
    forall i, j :: 0 <= i < j < |ops| ==> ops[i] != ops[j]
  }

  /**
   * The rewiring loop in the order that keeps the computation: starting from
   * the operation next to the conversion, each operation is retargeted to
   * read the value rewired before it, the first one `v`.
   */
  function Rewired(nodes: map<NodeId, Node>, ops: seq<NodeId>, v: NodeId, enc: Encoding): (r: map<NodeId, Node>)
    requires Retargetable(nodes, ops)
    ensures r.Keys == nodes.Keys
    decreases |ops|
  {
    if |ops| == 0 then nodes
    else
      var last := ops[|ops| - 1];
      Rewired(nodes[last := Retarget(nodes[last], v, enc)], ops[..|ops| - 1], last, enc)
  }

  /**
   * The rewiring loop as written: starting from the operation next to the
   * store, each operation is retargeted to read the value rewired before it,
   * the first one `v`.
   */
  function RewiredAsWritten(nodes: map<NodeId, Node>, ops: seq<NodeId>, v: NodeId, enc: Encoding): (r: map<NodeId, Node>)
    requires Retargetable(nodes, ops)
    ensures r.Keys == nodes.Keys
    decreases |ops|
  {
    if |ops| == 0 then nodes
    else RewiredAsWritten(nodes[ops[0] := Retarget(nodes[ops[0]], v, enc)], ops[1..], ops[0], enc)
  }

  /** The value the store reads after the corrected loop: the operation next to the store, or `v`. */
  function RewiredValue(ops: seq<NodeId>, v: NodeId): NodeId {
    if |ops| == 0 then v else ops[0]
  }

  /** The value the store reads after the loop as written: the operation next to the conversion, or `v`. */
  function RewiredValueAsWritten(ops: seq<NodeId>, v: NodeId): NodeId {
    if |ops| == 0 then v else ops[|ops| - 1]
  }

  /** The corrected loop changes only the operations of the chain. */
  lemma {:induction false} RewiredFrame(nodes: map<NodeId, Node>, ops: seq<NodeId>, v: NodeId, enc: Encoding, x: NodeId)
    requires Retargetable(nodes, ops) && x in nodes && x !in ops
    ensures Rewired(nodes, ops, v, enc)[x] == nodes[x]
    decreases |ops|
  {
    if |ops| > 0 {
      var last := ops[|ops| - 1];
      var updated := nodes[last := Retarget(nodes[last], v, enc)];
      assert Retargetable(updated, ops[..|ops| - 1]);
      assert x !in ops[..|ops| - 1];
      RewiredFrame(updated, ops[..|ops| - 1], last, enc, x);
    }
  }

  /** In the corrected order operation `i` reads operation `i + 1`, the last one `v`. */
  lemma {:induction false} RewiredReadsNext(nodes: map<NodeId, Node>, ops: seq<NodeId>, v: NodeId, enc: Encoding, i: nat)
    requires Retargetable(nodes, ops) && Distinct(ops) && i < |ops|
    ensures Rewired(nodes, ops, v, enc)[ops[i]] == Retarget(nodes[ops[i]], Next(Chain(ops, v), i), enc)
    decreases |ops|
  {
    var last := ops[|ops| - 1];
    var prefix := ops[..|ops| - 1];
    var updated := nodes[last := Retarget(nodes[last], v, enc)];
    assert Retargetable(updated, prefix);
    assert Rewired(nodes, ops, v, enc) == Rewired(updated, prefix, last, enc);
    if i == |ops| - 1 {
      assert last !in prefix;
      RewiredFrame(updated, prefix, last, enc, last);
    } else {
      assert ops[i] == prefix[i] && ops[i] != last;
      RewiredReadsNext(updated, prefix, last, enc, i);
      if i + 1 < |prefix| {
        assert ops[i + 1] == prefix[i + 1];
      }
    }
  }

  /** The loop as written changes only the operations of the chain. */
  lemma {:induction false} AsWrittenFrame(nodes: map<NodeId, Node>, ops: seq<NodeId>, v: NodeId, enc: Encoding, x: NodeId)
    requires Retargetable(nodes, ops) && x in nodes && x !in ops
    ensures RewiredAsWritten(nodes, ops, v, enc)[x] == nodes[x]
    decreases |ops|
  {
    if |ops| > 0 {
      var updated := nodes[ops[0] := Retarget(nodes[ops[0]], v, enc)];
      assert Retargetable(updated, ops[1..]);
      assert x !in ops[1..];
      AsWrittenFrame(updated, ops[1..], ops[0], enc, x);
    }
  }

  /** In the order as written operation `i` reads operation `i - 1`, the first one `v`. */
  lemma {:induction false} AsWrittenReadsPrevious(nodes: map<NodeId, Node>, ops: seq<NodeId>, v: NodeId, enc: Encoding, i: nat)
    requires Retargetable(nodes, ops) && Distinct(ops) && i < |ops|
    ensures RewiredAsWritten(nodes, ops, v, enc)[ops[i]] == Retarget(nodes[ops[i]], if i == 0 then v else ops[i - 1], enc)
    decreases |ops|
  {
    var first := ops[0];
    var rest := ops[1..];
    var updated := nodes[first := Retarget(nodes[first], v, enc)];
    assert Retargetable(updated, rest);
    assert RewiredAsWritten(nodes, ops, v, enc) == RewiredAsWritten(updated, rest, first, enc);
    if i == 0 {
      assert first !in rest;
      AsWrittenFrame(updated, rest, first, enc, first);
    } else {
      assert ops[i] == rest[i - 1] && ops[i] != first;
      AsWrittenReadsPrevious(updated, rest, first, enc, i - 1);
      if i > 1 {
        assert ops[i - 1] == rest[i - 2];
      }
    }
  }

  // -------------------------------------------------------------- matching

  /** Starting from a tensor, every operation of a chain computes a tensor. */
  lemma {:induction false} ChainOpIsTensor(nodes: map<NodeId, Node>, c: Chain, i: nat)
    requires Closed(nodes) && ElementwiseOnTensors(nodes) && Linked(nodes, c) && i < |c.ops|
    requires nodes[c.ops[0]].results[0].Tensor?
    ensures nodes[c.ops[i]].results[0].Tensor?
    decreases i
  {
    if i > 0 {
      ChainOpIsTensor(nodes, c, i - 1);
      var user := c.ops[i - 1];
      assert user in nodes && IsOneOperandElementwise(nodes[user]) && nodes[user].results[0].Tensor?;
      assert nodes[user].operands[0] == Next(c, i - 1) == c.ops[i];
      assert TypeOf(nodes, nodes[user].operands[0]).Tensor?;
    }
  }

  /** A chain from a tensor can be rewired: its operations are distinct and compute tensors. */
  lemma ChainIsRewirable(nodes: map<NodeId, Node>, v: NodeId, c: Chain)
    requires EpilogueGraph(nodes) && ChainFrom(nodes, v, c)
    requires v in nodes && |nodes[v].results| >= 1 && TypeOf(nodes, v).Tensor?
    ensures Retargetable(nodes, c.ops) && Distinct(c.ops)
  {
    forall i | 0 <= i < |c.ops|
      ensures nodes[c.ops[i]].results[0].Tensor?
    {
      ChainOpIsTensor(nodes, c, i);
    }
    ChainDescends(nodes, c);
  }

  /** What the rewrite needs from a match: the chain, the value the conversion reads, and its layout. */
  datatype EpilogueMatch = EpilogueMatch(chain: Chain, src: NodeId, enc: Encoding)

  /** Store `st` passes every check of matchAndRewrite, which finds `m`. */
  predicate Matches(nodes: map<NodeId, Node>, st: NodeId, m: EpilogueMatch)
    requires EpilogueGraph(nodes) && st in nodes
  {
    var s := nodes[st];
    && s.kind.Store?
    && TypeOf(nodes, s.operands[0]).Tensor? && IsBlocked(TypeOf(nodes, s.operands[0]).encoding)
    && TypeOf(nodes, s.operands[1]).Tensor? && IsBlocked(TypeOf(nodes, s.operands[1]).encoding)
    && ChainFrom(nodes, s.operands[1], m.chain)
    && m.src == nodes[m.chain.cvt].operands[0]
    && IsMma(TypeOf(nodes, m.src).encoding) && TypeOf(nodes, m.src).encoding == Some(m.enc)
    && HasOneUse(nodes, m.chain.cvt)
  }

  /** matchAndRewrite up to its first change: what it finds at store `st`, or None where it gives up. */
  function MatchStore(nodes: map<NodeId, Node>, st: NodeId): (r: Option<EpilogueMatch>)
    requires EpilogueGraph(nodes) && st in nodes
    ensures r.Some? ==> Matches(nodes, st, r.value)
  {
    var s := nodes[st];
    if !s.kind.Store? then None
    else
      var ptrType := TypeOf(nodes, s.operands[0]);
      var valType := TypeOf(nodes, s.operands[1]);
      if !ptrType.Tensor? || !IsBlocked(ptrType.encoding) || !valType.Tensor? || !IsBlocked(valType.encoding) then None
      else
        WalkFindsChain(nodes, s.operands[1]);
        match Walk(nodes, s.operands[1])
        case None => None
        case Some(c) =>
          var src := nodes[c.cvt].operands[0];
          var srcType := TypeOf(nodes, src);
          if !IsMma(srcType.encoding) then None
          else if !HasOneUse(nodes, c.cvt) then None
          else Some(EpilogueMatch(c, src, srcType.encoding.value))
  }

  /** Whatever satisfies every check is what the pattern finds: it matches exactly the stores it should. */
  lemma MatchIsComplete(nodes: map<NodeId, Node>, st: NodeId, m: EpilogueMatch)
    requires EpilogueGraph(nodes) && st in nodes && Matches(nodes, st, m)
    ensures MatchStore(nodes, st) == Some(m)
  {
    WalkFindsEveryChain(nodes, nodes[st].operands[1], m.chain);
  }

  /**
   * The pointer and the mask of a matched store are neither operations of
   * the chain nor the conversion: each of those has its one use elsewhere.
   */
  lemma {:induction false} OffChain(nodes: map<NodeId, Node>, st: NodeId, m: EpilogueMatch, k: nat)
    requires EpilogueGraph(nodes) && st in nodes && Matches(nodes, st, m)
    requires k < |nodes[st].operands| && k != 1
    ensures nodes[st].operands[k] !in m.chain.ops && nodes[st].operands[k] != m.chain.cvt
  {
    var s := nodes[st];
    var x := s.operands[k];
    var ops := m.chain.ops;
    assert (st, k) in Uses(nodes, x);
    if x in ops {
      var i :| 0 <= i < |ops| && ops[i] == x;
      var other := if i == 0 then (st, 1) else (ops[i - 1], 0);
      assert other in Uses(nodes, x);
      OneUseIsTheUse(nodes, x, (st, k), other);
      assert false;
    }
    if x == m.chain.cvt {
      var other := if |ops| == 0 then (st, 1) else (ops[|ops| - 1], 0);
      assert other in Uses(nodes, x);
      OneUseIsTheUse(nodes, x, (st, k), other);
      assert false;
    }
  }

  // ------------------------------------------- the two orders of rewiring

  /**
   * With two or more operations the loop as written runs a chain backwards:
   * the operation next to the store now reads `src`, operation 1 reads
   * operation 0, which is defined after it, and the store is left reading
   * the operation that was next to the conversion.
   */
  lemma AsWrittenBreaksDominance(nodes: map<NodeId, Node>, c: Chain, src: NodeId, enc: Encoding)
    requires Dominance(nodes) && Linked(nodes, c) && Retargetable(nodes, c.ops) && |c.ops| >= 2
    ensures var r := RewiredAsWritten(nodes, c.ops, src, enc);
      && r[c.ops[0]].operands == [src]
      && r[c.ops[1]].operands == [c.ops[0]] && c.ops[1] < c.ops[0]
      && !Dominance(r)
      && RewiredValueAsWritten(c.ops, src) == c.ops[|c.ops| - 1] != c.ops[0]
  {
    var ops := c.ops;
    ChainDescends(nodes, c);
    var r := RewiredAsWritten(nodes, ops, src, enc);
    AsWrittenReadsPrevious(nodes, ops, src, enc, 0);
    AsWrittenReadsPrevious(nodes, ops, src, enc, 1);
    assert |nodes[ops[0]].operands| == 1 && |nodes[ops[1]].operands| == 1;
    assert ops[1] in r && ops[0] in r[ops[1]].operands;
  }

  /** Operation `i` of a chain after the corrected loop. */
  lemma RewiredChainOp(nodes: map<NodeId, Node>, c: Chain, src: NodeId, enc: Encoding, i: nat)
    requires Linked(nodes, c) && Retargetable(nodes, c.ops) && Distinct(c.ops) && i < |c.ops|
    ensures var n := Rewired(nodes, c.ops, src, enc)[c.ops[i]];
      && n.kind == nodes[c.ops[i]].kind
      && n.results == [WithEncoding(nodes[c.ops[i]].results[0], enc)]
      && n.operands == [if i + 1 < |c.ops| then c.ops[i + 1] else src]
  {
    RewiredReadsNext(nodes, c.ops, src, enc, i);
    assert |nodes[c.ops[i]].operands| == 1 && |nodes[c.ops[i]].results| == 1;
  }

  /** After the corrected loop definitions still precede uses. */
  lemma RewiredKeepsDominance(nodes: map<NodeId, Node>, c: Chain, src: NodeId, enc: Encoding)
    requires Dominance(nodes) && Linked(nodes, c) && Retargetable(nodes, c.ops)
    requires |nodes[c.cvt].operands| == 1 && src == nodes[c.cvt].operands[0]
    ensures Dominance(Rewired(nodes, c.ops, src, enc))
  {
    var ops := c.ops;
    ChainDescends(nodes, c);
    var r := Rewired(nodes, ops, src, enc);
    assert c.cvt in nodes && src in nodes[c.cvt].operands;
    assert src < c.cvt;
    forall n, o | n in r && o in r[n].operands
      ensures o < n
    {
      if n in ops {
        var i :| 0 <= i < |ops| && ops[i] == n;
        RewiredChainOp(nodes, c, src, enc, i);
        if i + 1 < |ops| {
          assert ops[i + 1] < ops[i];
        } else {
          assert c.cvt < ops[i];
        }
      } else {
        RewiredFrame(nodes, ops, src, enc, n);
      }
    }
  }

  /**
   * The corrected loop keeps a chain in order: the operation next to the
   * conversion reads the conversion's source `src` instead, every other
   * operation reads what it read before, each computes in the new layout,
   * and definitions still precede uses.
   */
  lemma RewiredBypassesConversion(nodes: map<NodeId, Node>, c: Chain, src: NodeId, enc: Encoding)
    requires Dominance(nodes) && Linked(nodes, c) && Retargetable(nodes, c.ops)
    requires |nodes[c.cvt].operands| == 1 && src == nodes[c.cvt].operands[0]
    ensures var r := Rewired(nodes, c.ops, src, enc);
      && Dominance(r)
      && (forall i :: 0 <= i < |c.ops| - 1 ==> r[c.ops[i]].operands == nodes[c.ops[i]].operands)
      && (|c.ops| > 0 ==> r[c.ops[|c.ops| - 1]].operands == [src])
      && (forall i :: 0 <= i < |c.ops| ==>
            r[c.ops[i]].kind == nodes[c.ops[i]].kind && r[c.ops[i]].results == [WithEncoding(nodes[c.ops[i]].results[0], enc)])
  {
    var ops := c.ops;
    ChainDescends(nodes, c);
    RewiredKeepsDominance(nodes, c, src, enc);
    var r := Rewired(nodes, ops, src, enc);
    forall i | 0 <= i < |ops|
      ensures r[ops[i]].kind == nodes[ops[i]].kind && r[ops[i]].results == [WithEncoding(nodes[ops[i]].results[0], enc)]
      ensures i + 1 < |ops| ==> r[ops[i]].operands == nodes[ops[i]].operands
    {
      RewiredChainOp(nodes, c, src, enc, i);
      assert nodes[ops[i]].operands == [Next(c, i)];
    }
    if |ops| > 0 {
      RewiredChainOp(nodes, c, src, enc, |ops| - 1);
    }
  }

  // ------------------------------------------------------------- rewrite

  /** The id the new store gets: after the pointer conversion, and after the mask conversion when there is a mask. */
  function NewStoreId(s: Node, next: NodeId): NodeId {
    if |s.operands| == 3 then next + 2 else next + 1
  }

  /** The conversion of operand `k` of store `s` (its pointer or its mask) to layout `enc`. */
  function OperandConversion(nodes: map<NodeId, Node>, s: Node, k: nat, enc: Encoding): Node
    requires k < |s.operands| && s.operands[k] in nodes && |nodes[s.operands[k]].results| >= 1
    requires TypeOf(nodes, s.operands[k]).Tensor?
  {
    Node(ConvertLayout, [s.operands[k]], [WithEncoding(TypeOf(nodes, s.operands[k]), enc)], s.region)
  }

  /** The store replacing `s`: through the pointer converted at `next`, of `v`, under the mask converted at `next + 1`. */
  function ReplacementStore(s: Node, next: NodeId, v: NodeId): Node {
    Node(s.kind, if |s.operands| == 3 then [next, v, next + 1] else [next, v], [], s.region)
  }

  /**
   * `r` is the graph after the rewrite of store `st`, new operations numbered
   * from `next`: the chain `ops` reads `src` and computes in layout `enc`,
   * the pointer (and the mask) are converted to that layout, a store of the
   * same kind replaces `st`, and nothing else changes.
   */
  ghost predicate IsBypassed(nodes: map<NodeId, Node>, st: NodeId, ops: seq<NodeId>, src: NodeId, enc: Encoding,
                             next: NodeId, r: map<NodeId, Node>)
    requires Rewritable(nodes, st, ops, src, next)
  {
    && KeysAfter(nodes, st, next, r)
    && UntouchedAfter(nodes, st, ops, r)
    && ChainAfter(nodes, ops, src, enc, r)
    && ConvertedAfter(nodes, st, enc, next, r)
    && StoreAfter(nodes, st, ops, src, next, r)
  }

  /** The values of `r`: those of `nodes` but `st`, the conversions and the new store. */
  ghost predicate KeysAfter(nodes: map<NodeId, Node>, st: NodeId, next: NodeId, r: map<NodeId, Node>)
    requires st in nodes
  {
    var s := nodes[st];
    forall x :: x in r <==>
      (x in nodes && x != st) || x == next || x == NewStoreId(s, next) || (|s.operands| == 3 && x == next + 1)
  }

  /** Nothing but `st` and the chain `ops` changes. */
  ghost predicate UntouchedAfter(nodes: map<NodeId, Node>, st: NodeId, ops: seq<NodeId>, r: map<NodeId, Node>) {
    forall x :: x in nodes && x != st && x !in ops ==> x in r && r[x] == nodes[x]
  }

  /** Each operation of the chain reads the next one, the last reads `src`, and all compute in layout `enc`. */
  ghost predicate ChainAfter(nodes: map<NodeId, Node>, ops: seq<NodeId>, src: NodeId, enc: Encoding, r: map<NodeId, Node>)
    requires Retargetable(nodes, ops)
  {
    && (forall i :: 0 <= i < |ops| ==> ops[i] in r)
    && (forall i {:trigger r[ops[i]]} :: 0 <= i < |ops| ==>
          r[ops[i]] == Retarget(nodes[ops[i]], Next(Chain(ops, src), i), enc))
  }

  /** The pointer is converted at `next`, and the mask (if any) at `next + 1`. */
  ghost predicate ConvertedAfter(nodes: map<NodeId, Node>, st: NodeId, enc: Encoding, next: NodeId, r: map<NodeId, Node>)
    requires st in nodes && |nodes[st].operands| >= 1
    requires var s := nodes[st];
      s.operands[0] in nodes && |nodes[s.operands[0]].results| >= 1 && TypeOf(nodes, s.operands[0]).Tensor?
    requires var s := nodes[st]; |s.operands| == 3 ==>
      s.operands[2] in nodes && |nodes[s.operands[2]].results| >= 1 && TypeOf(nodes, s.operands[2]).Tensor?
  {
    var s := nodes[st];
    && next in r && r[next] == OperandConversion(nodes, s, 0, enc)
    && (|s.operands| == 3 ==> next + 1 in r && r[next + 1] == OperandConversion(nodes, s, 2, enc))
  }

  /** The replacement store follows the conversions and stores what the chain now computes. */
  ghost predicate StoreAfter(nodes: map<NodeId, Node>, st: NodeId, ops: seq<NodeId>, src: NodeId, next: NodeId,
                             r: map<NodeId, Node>)
    requires st in nodes
  {
    var s := nodes[st];
    NewStoreId(s, next) in r && r[NewStoreId(s, next)] == ReplacementStore(s, next, RewiredValue(ops, src))
  }

  /** The rewiring loop of matchAndRewrite, in the corrected order. */
  method RewireChain(g: Graph, ops: seq<NodeId>, src: NodeId, enc: Encoding) returns (newVal: NodeId)
    requires g.Valid() && Retargetable(g.nodes, ops) && src in g.nodes && |g.nodes[src].results| >= 1
    modifies g
    ensures g.Valid() && g.nextId == old(g.nextId)
    ensures g.nodes == Rewired(old(g.nodes), ops, src, enc)
    ensures newVal == RewiredValue(ops, src) && newVal in g.nodes && |g.nodes[newVal].results| >= 1
  {
    newVal := src;
    var i := |ops|;
    assert ops[..i] == ops;
    while i > 0
      invariant 0 <= i <= |ops|
      invariant g.Valid() && g.nextId == old(g.nextId) && g.nodes.Keys == old(g.nodes).Keys
      invariant Retargetable(g.nodes, ops[..i])
      invariant newVal in g.nodes && |g.nodes[newVal].results| >= 1
      invariant newVal == if i == |ops| then src else ops[i]
      invariant Rewired(old(g.nodes), ops, src, enc) == Rewired(g.nodes, ops[..i], newVal, enc)
    {
      ghost var before := g.nodes;
      RewireStep(before, ops, i, newVal, enc);
      i := i - 1;
      var op := ops[i];
      var t := TypeOf(g.nodes, op);
      ghost var n := before[op];
      ghost var rewired := n.(operands := n.operands[0 := newVal]);
      ghost var retargeted := rewired.(results := rewired.results[0 := WithEncoding(t, enc)]);
      assert retargeted == Retarget(n, newVal, enc);
      g.SetOperand(op, 0, newVal);
      g.SetResultType(op, WithEncoding(t, enc));
      UpdateTwice(before, op, rewired, retargeted);
      newVal := op;
    }
  }

  /** One turn of the rewiring loop: retargeting operation `k - 1` leaves the rest of the work to the first `k - 1`. */
  lemma RewireStep(before: map<NodeId, Node>, ops: seq<NodeId>, k: nat, v: NodeId, enc: Encoding)
    requires 0 < k <= |ops| && Retargetable(before, ops[..k])
    ensures ops[k - 1] in before && |before[ops[k - 1]].operands| >= 1
    ensures |before[ops[k - 1]].results| >= 1 && before[ops[k - 1]].results[0].Tensor?
    ensures var after := before[ops[k - 1] := Retarget(before[ops[k - 1]], v, enc)];
      && Retargetable(after, ops[..k - 1])
      && Rewired(before, ops[..k], v, enc) == Rewired(after, ops[..k - 1], ops[k - 1], enc)
  {
    var after := before[ops[k - 1] := Retarget(before[ops[k - 1]], v, enc)];
    assert ops[..k][..k - 1] == ops[..k - 1];
    assert ops[..k][k - 1] == ops[k - 1];
    var rest := ops[..k - 1];
    forall j | 0 <= j < |rest|
      ensures rest[j] in after && |after[rest[j]].operands| >= 1
      ensures |after[rest[j]].results| >= 1 && after[rest[j]].results[0].Tensor?
    {
      assert rest[j] == ops[..k][j];
    }
  }

  lemma UpdateTwice(m: map<NodeId, Node>, k: NodeId, a: Node, b: Node)
    ensures m[k := a][k := b] == m[k := b]
  {
  }

  /** A value with no results is read by nobody. */
  lemma NoResultsNoUses(nodes: map<NodeId, Node>, x: NodeId)
    requires Closed(nodes) && x in nodes && |nodes[x].results| == 0
    ensures Uses(nodes, x) == {}
  {
    forall u, i: nat | u in nodes && i < |nodes[u].operands|
      ensures nodes[u].operands[i] != x
    {
      assert nodes[u].operands[i] in nodes[u].operands;
    }
  }

  /** The last two updates of the rewrite: the new operations are added and `st` is removed. */
  function Assembled(rewired: map<NodeId, Node>, st: NodeId, next: NodeId, maskNode: Node, store: Node, hasMask: bool): map<NodeId, Node> {
    if hasMask then rewired[next + 1 := maskNode][next + 2 := store] - {st}
    else rewired[next + 1 := store] - {st}
  }

  /** An entry older than the rewrite is the rewired one. */
  lemma AssembledKeeps(rewired: map<NodeId, Node>, st: NodeId, next: NodeId, maskNode: Node, store: Node, hasMask: bool, x: NodeId)
    requires x in rewired && x != st && x <= next
    ensures var r := Assembled(rewired, st, next, maskNode, store, hasMask); x in r && r[x] == rewired[x]
  {
  }

  /** The keys of the assembled map: the old ones but the erased store, and the new operations. */
  lemma AssembledKeysAfter(nodes: map<NodeId, Node>, st: NodeId, next: NodeId, ptrNode: Node, maskNode: Node, store: Node,
                           withPtr: map<NodeId, Node>, rewired: map<NodeId, Node>, r: map<NodeId, Node>)
    requires forall x :: x in nodes ==> x < next
    requires st in nodes && withPtr == nodes[next := ptrNode] && rewired.Keys == withPtr.Keys
    requires r == Assembled(rewired, st, next, maskNode, store, |nodes[st].operands| == 3)
    ensures KeysAfter(nodes, st, next, r)
  {
    var s := nodes[st];
    forall x
      ensures x in r <==> (x in nodes && x != st) || x == next || x == NewStoreId(s, next) || (|s.operands| == 3 && x == next + 1)
    {
      assert x in rewired <==> x in rewired.Keys;
      assert x in withPtr <==> x in withPtr.Keys;
      assert x in rewired <==> x in nodes || x == next;
    }
  }

  /** The assembled map keeps every operation off the chain but the erased store. */
  lemma AssembledUntouched(nodes: map<NodeId, Node>, ops: seq<NodeId>, src: NodeId, enc: Encoding,
                           st: NodeId, next: NodeId, ptrNode: Node, maskNode: Node, store: Node, hasMask: bool,
                           withPtr: map<NodeId, Node>, rewired: map<NodeId, Node>, r: map<NodeId, Node>)
    requires forall x :: x in nodes ==> x < next
    requires withPtr == nodes[next := ptrNode]
    requires Retargetable(withPtr, ops) && rewired == Rewired(withPtr, ops, src, enc)
    requires r == Assembled(rewired, st, next, maskNode, store, hasMask)
    ensures UntouchedAfter(nodes, st, ops, r)
  {
    forall x | x in nodes && x != st && x !in ops
      ensures x in r && r[x] == nodes[x]
    {
      RewiredFrame(withPtr, ops, src, enc, x);
      AssembledKeeps(rewired, st, next, maskNode, store, hasMask, x);
    }
  }

  /** In the assembled map every operation of the chain reads the next one. */
  lemma AssembledChain(nodes: map<NodeId, Node>, ops: seq<NodeId>, src: NodeId, enc: Encoding,
                       st: NodeId, next: NodeId, ptrNode: Node, maskNode: Node, store: Node, hasMask: bool,
                       withPtr: map<NodeId, Node>, rewired: map<NodeId, Node>, r: map<NodeId, Node>)
    requires forall x :: x in nodes ==> x < next
    requires st !in ops && Retargetable(nodes, ops) && Distinct(ops)
    requires withPtr == nodes[next := ptrNode]
    requires Retargetable(withPtr, ops) && rewired == Rewired(withPtr, ops, src, enc)
    requires r == Assembled(rewired, st, next, maskNode, store, hasMask)
    ensures ChainAfter(nodes, ops, src, enc, r)
  {
    forall i | 0 <= i < |ops|
      ensures ops[i] in r && r[ops[i]] == Retarget(nodes[ops[i]], Next(Chain(ops, src), i), enc)
    {
      RewiredReadsNext(withPtr, ops, src, enc, i);
      assert ops[i] in nodes && ops[i] != st;
      AssembledKeeps(rewired, st, next, maskNode, store, hasMask, ops[i]);
    }
  }

  /** The assembled map holds the pointer conversion, the mask conversion and the store at their new ids. */
  lemma AssembledNew(nodes: map<NodeId, Node>, ops: seq<NodeId>, src: NodeId, enc: Encoding,
                     st: NodeId, next: NodeId, ptrNode: Node, maskNode: Node, store: Node, hasMask: bool,
                     withPtr: map<NodeId, Node>, rewired: map<NodeId, Node>, r: map<NodeId, Node>)
    requires forall x :: x in nodes ==> x < next
    requires st in nodes && Retargetable(nodes, ops)
    requires withPtr == nodes[next := ptrNode]
    requires Retargetable(withPtr, ops) && rewired == Rewired(withPtr, ops, src, enc)
    requires r == Assembled(rewired, st, next, maskNode, store, hasMask)
    ensures next in r && r[next] == ptrNode
    ensures hasMask ==> next + 1 in r && r[next + 1] == maskNode && next + 2 in r && r[next + 2] == store
    ensures !hasMask ==> next + 1 in r && r[next + 1] == store
  {
    assert next !in ops;
    RewiredFrame(withPtr, ops, src, enc, next);
    AssembledKeeps(rewired, st, next, maskNode, store, hasMask, next);
  }

  /** The mask of a store through a tensor of pointers is a tensor too. */
  lemma MaskIsTensor(nodes: map<NodeId, Node>, st: NodeId)
    requires Closed(nodes) && WellFormedNodes(nodes) && MasksAreTensors(nodes)
    requires st in nodes && nodes[st].kind.Store? && |nodes[st].operands| == 3
    requires TypeOf(nodes, nodes[st].operands[0]).Tensor?
    ensures nodes[st].operands[2] in nodes && |nodes[nodes[st].operands[2]].results| >= 1
    ensures TypeOf(nodes, nodes[st].operands[2]).Tensor?
  {
    assert nodes[st].operands[2] in nodes[st].operands;
  }

  /**
   * The start of the rewrite: the pointer is converted to `enc` at the next
   * free id and the chain is rewired to read `src`.
   */
  method ConvertAndRewire(g: Graph, st: NodeId, ops: seq<NodeId>, src: NodeId, enc: Encoding)
    returns (newPtr: NodeId, newVal: NodeId)
    requires g.Valid() && Rewritable(g.nodes, st, ops, src, g.nextId)
    modifies g
    ensures g.Valid() && newPtr == old(g.nextId) && g.nextId == newPtr + 1
    ensures g.nodes == Rewired(old(g.nodes)[newPtr := OperandConversion(old(g.nodes), old(g.nodes)[st], 0, enc)], ops, src, enc)
    ensures newVal == RewiredValue(ops, src) && newVal in g.nodes && |g.nodes[newVal].results| >= 1
    ensures newPtr in g.nodes && |g.nodes[newPtr].results| >= 1
    ensures st in g.nodes && g.nodes[st] == old(g.nodes)[st]
    ensures var s := old(g.nodes)[st]; |s.operands| == 3 ==> g.nodes[s.operands[2]] == old(g.nodes)[s.operands[2]]
  {
    ghost var nodes := g.nodes;
    var s := g.nodes[st];
    var ptr := s.operands[0];
    newPtr := g.Create(ConvertLayout, [ptr], [WithEncoding(TypeOf(g.nodes, ptr), enc)], s.region);
    ghost var withPtr := g.nodes;
    assert Retargetable(withPtr, ops);
    newVal := RewireChain(g, ops, src, enc);
    assert newPtr !in ops;
    RewiredFrame(withPtr, ops, src, enc, st);
    RewiredFrame(withPtr, ops, src, enc, newPtr);
    if |s.operands| == 3 {
      RewiredFrame(withPtr, ops, src, enc, s.operands[2]);
    }
  }

  /**
   * The end of the rewrite: the mask (if any) is converted to `enc`, a store
   * through `newPtr` of `newVal` is built, and store `st` is erased.
   */
  method StoreThrough(g: Graph, st: NodeId, newPtr: NodeId, newVal: NodeId, enc: Encoding) returns (newStore: NodeId)
    requires g.Valid() && st in g.nodes && g.nextId == newPtr + 1
    requires var s := g.nodes[st]; s.kind.Store? && (|s.operands| == 2 || |s.operands| == 3) && |s.results| == 0
    requires newPtr in g.nodes && |g.nodes[newPtr].results| >= 1 && newVal in g.nodes && |g.nodes[newVal].results| >= 1
    requires var s := g.nodes[st]; |s.operands| == 3 ==>
      s.operands[2] in g.nodes && |g.nodes[s.operands[2]].results| >= 1 && TypeOf(g.nodes, s.operands[2]).Tensor?
    modifies g
    ensures g.Valid() && newStore == NewStoreId(old(g.nodes)[st], newPtr) && g.nextId == newStore + 1
    ensures var s := old(g.nodes)[st];
      var store := ReplacementStore(s, newPtr, newVal);
      g.nodes == if |s.operands| == 3
                 then Assembled(old(g.nodes), st, newPtr, OperandConversion(old(g.nodes), s, 2, enc), store, true)
                 else Assembled(old(g.nodes), st, newPtr, store, store, false)
  {
    var s := g.nodes[st];
    if |s.operands| == 3 {
      var mask := s.operands[2];
      var newMask := g.Create(ConvertLayout, [mask], [WithEncoding(TypeOf(g.nodes, mask), enc)], s.region);
      newStore := g.Create(s.kind, [newPtr, newVal, newMask], [], s.region);
    } else {
      newStore := g.Create(s.kind, [newPtr, newVal], [], s.region);
    }
    NoResultsNoUses(g.nodes, st);
    g.Erase(st);
  }

  /** What the steps of the rewrite need of store `st`, the chain `ops` and the value `src` it is rewired to. */
  predicate Rewritable(nodes: map<NodeId, Node>, st: NodeId, ops: seq<NodeId>, src: NodeId, next: NodeId) {
    && (forall x :: x in nodes ==> x < next)
    && st in nodes && st !in ops && Retargetable(nodes, ops) && Distinct(ops)
    && src in nodes && |nodes[src].results| >= 1
    && var s := nodes[st];
    && s.kind.Store? && (|s.operands| == 2 || |s.operands| == 3) && |s.results| == 0
    && s.operands[0] in nodes && |nodes[s.operands[0]].results| >= 1 && TypeOf(nodes, s.operands[0]).Tensor?
    && (|s.operands| == 3 ==>
          && s.operands[2] in nodes && s.operands[2] !in ops
          && |nodes[s.operands[2]].results| >= 1 && TypeOf(nodes, s.operands[2]).Tensor?)
  }

  /**
   * The graph the rewrite of store `st` leaves, new operations numbered from
   * `next`: the pointer converted at `next`, the chain rewired to `src`, the
   * mask (if any) converted at `next + 1`, the replacement store after them
   * and `st` gone.
   */
  function RewriteResult(nodes: map<NodeId, Node>, st: NodeId, ops: seq<NodeId>, src: NodeId, enc: Encoding, next: NodeId)
    : map<NodeId, Node>
    requires Rewritable(nodes, st, ops, src, next)
  {
    var s := nodes[st];
    var withPtr := nodes[next := OperandConversion(nodes, s, 0, enc)];
    assert Retargetable(withPtr, ops);
    var rewired := Rewired(withPtr, ops, src, enc);
    var store := ReplacementStore(s, next, RewiredValue(ops, src));
    if |s.operands| == 3 then Assembled(rewired, st, next, OperandConversion(nodes, s, 2, enc), store, true)
    else Assembled(rewired, st, next, store, store, false)
  }

  /** What the steps of the rewrite need, as a match provides it. */
  lemma MatchedStore(nodes: map<NodeId, Node>, st: NodeId, m: EpilogueMatch, next: NodeId)
    requires EpilogueGraph(nodes) && st in nodes && Matches(nodes, st, m) && forall x :: x in nodes ==> x < next
    ensures Rewritable(nodes, st, m.chain.ops, m.src, next)
  {
    var s := nodes[st];
    ChainIsRewirable(nodes, s.operands[1], m.chain);
    assert st !in m.chain.ops;
    if |s.operands| == 3 {
      MaskIsTensor(nodes, st);
      OffChain(nodes, st, m, 2);
    }
  }

  /** The graph the rewrite builds is the one IsBypassed describes. */
  lemma RewriteIsBypassed(nodes: map<NodeId, Node>, st: NodeId, ops: seq<NodeId>, src: NodeId, enc: Encoding, next: NodeId)
    requires Rewritable(nodes, st, ops, src, next)
    ensures IsBypassed(nodes, st, ops, src, enc, next, RewriteResult(nodes, st, ops, src, enc, next))
  {
    var r := RewriteResult(nodes, st, ops, src, enc, next);
    var s := nodes[st];
    var hasMask := |s.operands| == 3;
    var withPtr := nodes[next := OperandConversion(nodes, s, 0, enc)];
    assert Retargetable(withPtr, ops);
    var rewired := Rewired(withPtr, ops, src, enc);
    var store := ReplacementStore(s, next, RewiredValue(ops, src));
    var maskNode := if hasMask then OperandConversion(nodes, s, 2, enc) else store;
    assert r == Assembled(rewired, st, next, maskNode, store, hasMask);
    AssembledKeysAfter(nodes, st, next, OperandConversion(nodes, s, 0, enc), maskNode, store, withPtr, rewired, r);
    AssembledUntouched(nodes, ops, src, enc, st, next, OperandConversion(nodes, s, 0, enc), maskNode, store,
                       hasMask, withPtr, rewired, r);
    AssembledChain(nodes, ops, src, enc, st, next, OperandConversion(nodes, s, 0, enc), maskNode, store,
                   hasMask, withPtr, rewired, r);
    AssembledNew(nodes, ops, src, enc, st, next, OperandConversion(nodes, s, 0, enc), maskNode, store,
                 hasMask, withPtr, rewired, r);
  }

  /**
   * The steps of matchAndRewrite once its checks have passed: the pointer is
   * converted, the chain rewired, the mask converted, the new store built and
   * the old one erased.
   */
  method RewriteSteps(g: Graph, st: NodeId, ops: seq<NodeId>, src: NodeId, enc: Encoding) returns (newStore: NodeId)
    requires g.Valid() && Rewritable(g.nodes, st, ops, src, g.nextId)
    modifies g
    ensures g.Valid() && newStore == NewStoreId(old(g.nodes)[st], old(g.nextId)) && g.nextId == newStore + 1
    ensures g.nodes == RewriteResult(old(g.nodes), st, ops, src, enc, old(g.nextId))
  {
    ghost var nodes := g.nodes;
    ghost var s := g.nodes[st];
    var newPtr, newVal := ConvertAndRewire(g, st, ops, src, enc);
    if |s.operands| == 3 {
      assert OperandConversion(g.nodes, s, 2, enc) == OperandConversion(nodes, s, 2, enc);
    }
    newStore := StoreThrough(g, st, newPtr, newVal, enc);
  }

  /**
   * matchAndRewrite on store `st`: it rewrites exactly when the store
   * matches, into the graph RewriteResult describes, and otherwise changes
   * nothing.
   */
  method BypassEpilogueSmem(g: Graph, st: NodeId) returns (matched: bool, newStore: NodeId)
    requires g.Valid() && EpilogueGraph(g.nodes) && st in g.nodes
    modifies g
    ensures matched <==> MatchStore(old(g.nodes), st).Some?
    ensures !matched ==> g.nodes == old(g.nodes) && g.nextId == old(g.nextId)
    ensures matched ==>
      var m := MatchStore(old(g.nodes), st).value;
      && g.Valid() && newStore == NewStoreId(old(g.nodes)[st], old(g.nextId)) && g.nextId == newStore + 1
      && Rewritable(old(g.nodes), st, m.chain.ops, m.src, old(g.nextId))
      && g.nodes == RewriteResult(old(g.nodes), st, m.chain.ops, m.src, m.enc, old(g.nextId))
  {
    ghost var nodes := g.nodes;
    var s := g.nodes[st];
    if !s.kind.Store? {
      return false, 0;
    }
    var ptrType := TypeOf(g.nodes, s.operands[0]);
    var valType := TypeOf(g.nodes, s.operands[1]);
    if !ptrType.Tensor? || !IsBlocked(ptrType.encoding) || !valType.Tensor? || !IsBlocked(valType.encoding) {
      return false, 0;
    }
    var found := FindChain(g, s.operands[1]);
    if found.None? {
      return false, 0;
    }
    var c := found.value;
    WalkFindsChain(g.nodes, s.operands[1]);
    var src := g.nodes[c.cvt].operands[0];
    var srcType := TypeOf(g.nodes, src);
    if !IsMma(srcType.encoding) || !HasOneUse(g.nodes, c.cvt) {
      return false, 0;
    }
    var m := EpilogueMatch(c, src, srcType.encoding.value);
    assert MatchStore(nodes, st) == Some(m);
    MatchedStore(nodes, st, m, g.nextId);
    newStore := RewriteSteps(g, st, c.ops, src, m.enc);
    matched := true;
  }

  // ------------------------------------------------ what the rewrite keeps

  /** A value older than the rewrite keeps its result, and a tensor stays a tensor. */
  lemma KeptType(nodes: map<NodeId, Node>, st: NodeId, ops: seq<NodeId>, src: NodeId, enc: Encoding, next: NodeId,
                 r: map<NodeId, Node>, o: NodeId)
    requires Rewritable(nodes, st, ops, src, next)
    requires UntouchedAfter(nodes, st, ops, r) && ChainAfter(nodes, ops, src, enc, r)
    requires o in nodes && o != st && |nodes[o].results| >= 1
    ensures o in r && |r[o].results| >= 1 && (TypeOf(r, o).Tensor? <==> TypeOf(nodes, o).Tensor?)
  {
    if o in ops {
      var i :| 0 <= i < |ops| && ops[i] == o;
      assert r[ops[i]] == Retarget(nodes[ops[i]], Next(Chain(ops, src), i), enc);
    }
  }

  /** The value a matched conversion reads, and the value the new store stores, come before the chain. */
  lemma SourceFacts(nodes: map<NodeId, Node>, st: NodeId, m: EpilogueMatch)
    requires EpilogueGraph(nodes) && st in nodes && Matches(nodes, st, m)
    ensures m.src in nodes && |nodes[m.src].results| >= 1 && m.src != st && TypeOf(nodes, m.src).Tensor?
    ensures m.src < m.chain.cvt && forall i :: 0 <= i < |m.chain.ops| ==> m.src < m.chain.ops[i]
    ensures forall i :: 0 <= i < |m.chain.ops| - 1 ==> m.chain.ops[i + 1] < m.chain.ops[i]
  {
    var cvt := m.chain.cvt;
    assert nodes[cvt].operands[0] in nodes[cvt].operands;
    ChainDescends(nodes, m.chain);
  }

  /** In a closed graph with dominance, operand `k` of `u` is a value defined before `u`. */
  lemma ReadsEarlier(nodes: map<NodeId, Node>, u: NodeId, k: nat)
    requires Closed(nodes) && Dominance(nodes) && u in nodes && k < |nodes[u].operands|
    ensures nodes[u].operands[k] in nodes && |nodes[nodes[u].operands[k]].results| >= 1 && nodes[u].operands[k] < u
  {
    assert nodes[u].operands[k] in nodes[u].operands;
  }

  /** An operation the rewrite leaves alone still reads values defined before it. */
  lemma UntouchedOperand(nodes: map<NodeId, Node>, st: NodeId, ops: seq<NodeId>, src: NodeId, enc: Encoding, next: NodeId,
                         r: map<NodeId, Node>, u: NodeId, k: nat)
    requires Closed(nodes) && Dominance(nodes)
    requires Rewritable(nodes, st, ops, src, next)
    requires UntouchedAfter(nodes, st, ops, r) && ChainAfter(nodes, ops, src, enc, r)
    requires u in r && u in nodes && u != st && u !in ops && k < |r[u].operands|
    ensures r[u].operands[k] in r && |r[r[u].operands[k]].results| >= 1 && r[u].operands[k] < u
  {
    assert r[u] == nodes[u];
    var o := nodes[u].operands[k];
    ReadsEarlier(nodes, u, k);
    assert o != st;
    KeptType(nodes, st, ops, src, enc, next, r, o);
  }

  /** A rewired operation reads the next operation of the chain, or the conversion's source. */
  lemma ChainOperand(nodes: map<NodeId, Node>, st: NodeId, ops: seq<NodeId>, src: NodeId, enc: Encoding, next: NodeId,
                     r: map<NodeId, Node>, i: nat, k: nat)
    requires Rewritable(nodes, st, ops, src, next)
    requires UntouchedAfter(nodes, st, ops, r) && ChainAfter(nodes, ops, src, enc, r)
    requires i < |ops| && |nodes[ops[i]].operands| == 1 && src != st
    requires Next(Chain(ops, src), i) < ops[i]
    requires ops[i] in r && k < |r[ops[i]].operands|
    ensures r[ops[i]].operands[k] == Next(Chain(ops, src), i)
    ensures r[ops[i]].operands[k] in r && |r[r[ops[i]].operands[k]].results| >= 1 && r[ops[i]].operands[k] < ops[i]
  {
    var o := Next(Chain(ops, src), i);
    assert r[ops[i]] == Retarget(nodes[ops[i]], o, enc);
    if i + 1 < |ops| {
      assert ops[i + 1] != st;
    }
    KeptType(nodes, st, ops, src, enc, next, r, o);
  }

  /** A conversion the rewrite adds reads the pointer (`k == 0`) or the mask (`k == 2`), both defined earlier. */
  lemma ConversionOperand(nodes: map<NodeId, Node>, st: NodeId, ops: seq<NodeId>, src: NodeId, enc: Encoding, next: NodeId,
                          r: map<NodeId, Node>, u: NodeId, k: nat, j: nat)
    requires Rewritable(nodes, st, ops, src, next)
    requires UntouchedAfter(nodes, st, ops, r) && ChainAfter(nodes, ops, src, enc, r)
    requires ConvertedAfter(nodes, st, enc, next, r)
    requires (k == 0 && u == next) || (k == 2 && u == next + 1 && |nodes[st].operands| == 3)
    requires u in r && j < |r[u].operands|
    ensures r[u].operands[j] == nodes[st].operands[k]
    ensures r[u].operands[j] in r && |r[r[u].operands[j]].results| >= 1 && r[u].operands[j] < u
  {
    ConvertedAt(nodes, st, ops, src, enc, next, r, u, k);
    KeptType(nodes, st, ops, src, enc, next, r, nodes[st].operands[k]);
  }

  /** The conversion of operand `k` of the store sits at `u`. */
  lemma ConvertedAt(nodes: map<NodeId, Node>, st: NodeId, ops: seq<NodeId>, src: NodeId, enc: Encoding, next: NodeId,
                    r: map<NodeId, Node>, u: NodeId, k: nat)
    requires Rewritable(nodes, st, ops, src, next)
    requires ConvertedAfter(nodes, st, enc, next, r)
    requires (k == 0 && u == next) || (k == 2 && u == next + 1 && |nodes[st].operands| == 3)
    ensures u in r && r[u] == OperandConversion(nodes, nodes[st], k, enc)
  {
  }

  /** The replacement store reads the conversions and the rewired value, all defined earlier. */
  lemma StoreOperand(nodes: map<NodeId, Node>, st: NodeId, ops: seq<NodeId>, src: NodeId, enc: Encoding, next: NodeId,
                     r: map<NodeId, Node>, u: NodeId, k: nat)
    requires Rewritable(nodes, st, ops, src, next)
    requires UntouchedAfter(nodes, st, ops, r) && ChainAfter(nodes, ops, src, enc, r)
    requires ConvertedAfter(nodes, st, enc, next, r) && StoreAfter(nodes, st, ops, src, next, r)
    requires u == NewStoreId(nodes[st], next) && k < |r[u].operands| && src != st
    ensures r[u].operands[k] in r && |r[r[u].operands[k]].results| >= 1 && r[u].operands[k] < u
  {
    var o := r[u].operands[k];
    if k == 1 {
      assert o == RewiredValue(ops, src);
      if |ops| > 0 {
        assert ops[0] != st;
      }
      KeptType(nodes, st, ops, src, enc, next, r, o);
    }
  }

  /** The rewired operations each read one value, and come after one another and after the source. */
  ghost predicate ChainOrdered(nodes: map<NodeId, Node>, st: NodeId, ops: seq<NodeId>, src: NodeId)
    requires Retargetable(nodes, ops) && src in nodes && |nodes[src].results| >= 1
  {
    && src != st && TypeOf(nodes, src).Tensor?
    && (forall i :: 0 <= i < |ops| ==> src < ops[i] && IsOneOperandElementwise(nodes[ops[i]]))
    && (forall i {:trigger Next(Chain(ops, src), i)} :: 0 <= i < |ops| ==> Next(Chain(ops, src), i) < ops[i])
  }

  /** A matched chain is ordered. */
  lemma MatchedChainOrdered(nodes: map<NodeId, Node>, st: NodeId, m: EpilogueMatch)
    requires EpilogueGraph(nodes) && st in nodes && Matches(nodes, st, m) && Retargetable(nodes, m.chain.ops)
    requires m.src in nodes && |nodes[m.src].results| >= 1
    ensures ChainOrdered(nodes, st, m.chain.ops, m.src)
  {
    SourceFacts(nodes, st, m);
    var ops := m.chain.ops;
    forall i | 0 <= i < |ops|
      ensures Next(Chain(ops, m.src), i) < ops[i]
    {
      if i + 1 < |ops| {
        assert Next(Chain(ops, m.src), i) == ops[i + 1];
      }
    }
  }

  /** Every operand of the rewritten graph is a value defined earlier in it. */
  lemma RewrittenOperand(nodes: map<NodeId, Node>, st: NodeId, ops: seq<NodeId>, src: NodeId, enc: Encoding, next: NodeId,
                         r: map<NodeId, Node>, u: NodeId, k: nat)
    requires Closed(nodes) && Dominance(nodes)
    requires Rewritable(nodes, st, ops, src, next) && ChainOrdered(nodes, st, ops, src)
    requires IsBypassed(nodes, st, ops, src, enc, next, r)
    requires u in r && k < |r[u].operands|
    ensures r[u].operands[k] in r && |r[r[u].operands[k]].results| >= 1 && r[u].operands[k] < u
  {
    var s := nodes[st];
    assert KeysAfter(nodes, st, next, r);
    if u !in nodes {
      if u == next {
        ConversionOperand(nodes, st, ops, src, enc, next, r, u, 0, k);
      } else if |s.operands| == 3 && u == next + 1 {
        ConversionOperand(nodes, st, ops, src, enc, next, r, u, 2, k);
      } else {
        assert u == NewStoreId(s, next);
        StoreOperand(nodes, st, ops, src, enc, next, r, u, k);
      }
    } else if u in ops {
      var i :| 0 <= i < |ops| && ops[i] == u;
      ChainOperand(nodes, st, ops, src, enc, next, r, i, k);
    } else {
      assert u != st;
      UntouchedOperand(nodes, st, ops, src, enc, next, r, u, k);
    }
  }

  /** Every operand of `u` is a value of `r`. */
  predicate OperandsDefined(r: map<NodeId, Node>, u: NodeId)
    requires u in r
  {
    forall k :: 0 <= k < |r[u].operands| ==> r[u].operands[k] in r && |r[r[u].operands[k]].results| >= 1
  }

  /** Node `u` meets the shape and typing clauses of EpilogueGraph. */
  predicate NodeTyped(r: map<NodeId, Node>, u: NodeId)
    requires u in r && OperandsDefined(r, u)
  {
    && WellFormedNode(r[u])
    && (IsOneOperandElementwise(r[u]) && r[u].results[0].Tensor? ==> TypeOf(r, r[u].operands[0]).Tensor?)
    && (r[u].kind.ConvertLayout? ==> TypeOf(r, r[u].operands[0]).Tensor?)
    && (r[u].kind.Store? && |r[u].operands| == 3 && TypeOf(r, r[u].operands[0]).Tensor? ==>
          TypeOf(r, r[u].operands[2]).Tensor?)
  }

  /** An operation the rewrite leaves alone keeps its shape and typing. */
  lemma UntouchedNode(nodes: map<NodeId, Node>, st: NodeId, ops: seq<NodeId>, src: NodeId, enc: Encoding, next: NodeId,
                      r: map<NodeId, Node>, u: NodeId)
    requires EpilogueGraph(nodes)
    requires Rewritable(nodes, st, ops, src, next)
    requires UntouchedAfter(nodes, st, ops, r) && ChainAfter(nodes, ops, src, enc, r)
    requires u in r && u in nodes && u != st && u !in ops && OperandsDefined(r, u)
    ensures NodeTyped(r, u)
  {
    var n := nodes[u];
    assert r[u] == n && WellFormedNode(n);
    forall k | 0 <= k < |n.operands|
      ensures n.operands[k] != st && TypeOf(r, n.operands[k]).Tensor? == TypeOf(nodes, n.operands[k]).Tensor?
    {
      ReadsEarlier(nodes, u, k);
      KeptType(nodes, st, ops, src, enc, next, r, n.operands[k]);
    }
  }

  /** A rewired operation keeps its shape and reads a tensor. */
  lemma ChainNode(nodes: map<NodeId, Node>, st: NodeId, ops: seq<NodeId>, src: NodeId, enc: Encoding, next: NodeId,
                  r: map<NodeId, Node>, i: nat)
    requires Rewritable(nodes, st, ops, src, next)
    requires UntouchedAfter(nodes, st, ops, r) && ChainAfter(nodes, ops, src, enc, r)
    requires i < |ops| && IsOneOperandElementwise(nodes[ops[i]]) && WellFormedNode(nodes[ops[i]])
    requires src != st && TypeOf(nodes, src).Tensor?
    requires ops[i] in r && OperandsDefined(r, ops[i])
    ensures NodeTyped(r, ops[i])
  {
    var w := Next(Chain(ops, src), i);
    assert r[ops[i]] == Retarget(nodes[ops[i]], w, enc);
    assert r[ops[i]].operands[0] == w;
    if i + 1 < |ops| {
      assert r[ops[i + 1]] == Retarget(nodes[ops[i + 1]], Next(Chain(ops, src), i + 1), enc);
    } else {
      KeptType(nodes, st, ops, src, enc, next, r, src);
    }
  }

  /** A conversion of a tensor is well formed and typed. */
  lemma ConversionTyped(r: map<NodeId, Node>, u: NodeId, x: NodeId)
    requires u in r && r[u].kind.ConvertLayout? && r[u].operands == [x] && |r[u].results| == 1 && r[u].results[0].Tensor?
    requires x in r && |r[x].results| >= 1 && TypeOf(r, x).Tensor?
    ensures OperandsDefined(r, u) && NodeTyped(r, u)
  {
  }

  /** A store through a converted pointer, under a converted mask, is well formed and typed. */
  lemma StoreTyped(r: map<NodeId, Node>, u: NodeId)
    requires u in r && r[u].kind.Store? && (|r[u].operands| == 2 || |r[u].operands| == 3) && |r[u].results| == 0
    requires OperandsDefined(r, u)
    requires TypeOf(r, r[u].operands[0]).Tensor?
    requires |r[u].operands| == 3 ==> TypeOf(r, r[u].operands[2]).Tensor?
    ensures NodeTyped(r, u)
  {
  }

  /** The conversion of the pointer, at `next`, is well formed and typed. */
  lemma AddedPointer(nodes: map<NodeId, Node>, st: NodeId, ops: seq<NodeId>, src: NodeId, enc: Encoding, next: NodeId,
                     r: map<NodeId, Node>)
    requires Rewritable(nodes, st, ops, src, next)
    requires UntouchedAfter(nodes, st, ops, r) && ChainAfter(nodes, ops, src, enc, r)
    requires ConvertedAfter(nodes, st, enc, next, r)
    ensures next in r && OperandsDefined(r, next) && NodeTyped(r, next)
  {
    var x := nodes[st].operands[0];
    KeptType(nodes, st, ops, src, enc, next, r, x);
    ConversionTyped(r, next, x);
  }

  /** The conversion of the mask, at `next + 1`, is well formed and typed. */
  lemma AddedMask(nodes: map<NodeId, Node>, st: NodeId, ops: seq<NodeId>, src: NodeId, enc: Encoding, next: NodeId,
                  r: map<NodeId, Node>, u: NodeId)
    requires Rewritable(nodes, st, ops, src, next)
    requires UntouchedAfter(nodes, st, ops, r) && ChainAfter(nodes, ops, src, enc, r)
    requires ConvertedAfter(nodes, st, enc, next, r)
    requires |nodes[st].operands| == 3 && u == next + 1
    ensures u in r && OperandsDefined(r, u) && NodeTyped(r, u)
  {
    var x := nodes[st].operands[2];
    KeptType(nodes, st, ops, src, enc, next, r, x);
    ConversionTyped(r, u, x);
  }

  /** The replacement store is well formed and typed. */
  lemma AddedStore(nodes: map<NodeId, Node>, st: NodeId, ops: seq<NodeId>, src: NodeId, enc: Encoding, next: NodeId,
                   r: map<NodeId, Node>)
    requires Rewritable(nodes, st, ops, src, next) && IsBypassed(nodes, st, ops, src, enc, next, r)
    requires OperandsDefined(r, NewStoreId(nodes[st], next))
    ensures NodeTyped(r, NewStoreId(nodes[st], next))
  {
    var s := nodes[st];
    var u := NewStoreId(s, next);
    assert r[u] == ReplacementStore(s, next, RewiredValue(ops, src));
    assert r[u].operands[0] == next && r[next] == OperandConversion(nodes, s, 0, enc);
    if |s.operands| == 3 {
      assert r[u].operands[2] == next + 1 && r[next + 1] == OperandConversion(nodes, s, 2, enc);
    }
    StoreTyped(r, u);
  }

  /** After the rewrite every operand is still a value of the graph. */
  lemma RewriteKeepsClosed(nodes: map<NodeId, Node>, st: NodeId, ops: seq<NodeId>, src: NodeId, enc: Encoding, next: NodeId,
                           r: map<NodeId, Node>)
    requires Closed(nodes) && Dominance(nodes)
    requires Rewritable(nodes, st, ops, src, next) && ChainOrdered(nodes, st, ops, src)
    requires IsBypassed(nodes, st, ops, src, enc, next, r)
    ensures Closed(r)
  {
    forall u | u in r
      ensures OperandsDefined(r, u)
    {
      forall k | 0 <= k < |r[u].operands|
        ensures r[u].operands[k] in r && |r[r[u].operands[k]].results| >= 1
      {
        RewrittenOperand(nodes, st, ops, src, enc, next, r, u, k);
      }
    }
    DefinedIsClosed(r);
  }

  /** A graph whose operations read only its values is closed. */
  lemma DefinedIsClosed(r: map<NodeId, Node>)
    requires forall u :: u in r ==> OperandsDefined(r, u)
    ensures Closed(r)
  {
    forall u, o | u in r && o in r[u].operands
      ensures o in r && |r[o].results| >= 1
    {
      var k :| 0 <= k < |r[u].operands| && r[u].operands[k] == o;
    }
  }

  /** After the rewrite every operand is still defined before its use. */
  lemma RewriteKeepsDominance(nodes: map<NodeId, Node>, st: NodeId, ops: seq<NodeId>, src: NodeId, enc: Encoding, next: NodeId,
                              r: map<NodeId, Node>)
    requires Closed(nodes) && Dominance(nodes)
    requires Rewritable(nodes, st, ops, src, next) && ChainOrdered(nodes, st, ops, src)
    requires IsBypassed(nodes, st, ops, src, enc, next, r)
    ensures Dominance(r)
  {
    forall u, o | u in r && o in r[u].operands
      ensures o < u
    {
      var k :| 0 <= k < |r[u].operands| && r[u].operands[k] == o;
      RewrittenOperand(nodes, st, ops, src, enc, next, r, u, k);
    }
  }

  /** In a closed graph, every operand of `u` is a value of the graph. */
  lemma ClosedOperands(r: map<NodeId, Node>, u: NodeId)
    requires Closed(r) && u in r
    ensures OperandsDefined(r, u)
  {
    forall k | 0 <= k < |r[u].operands|
      ensures r[u].operands[k] in r && |r[r[u].operands[k]].results| >= 1
    {
      assert r[u].operands[k] in r[u].operands;
    }
  }

  /** Every operation of the rewritten graph is well formed and typed. */
  lemma RewrittenNode(nodes: map<NodeId, Node>, st: NodeId, ops: seq<NodeId>, src: NodeId, enc: Encoding, next: NodeId,
                      r: map<NodeId, Node>, u: NodeId)
    requires EpilogueGraph(nodes)
    requires Rewritable(nodes, st, ops, src, next) && ChainOrdered(nodes, st, ops, src)
    requires IsBypassed(nodes, st, ops, src, enc, next, r)
    requires Closed(r) && u in r
    ensures OperandsDefined(r, u) && NodeTyped(r, u)
  {
    var s := nodes[st];
    ClosedOperands(r, u);
    assert KeysAfter(nodes, st, next, r);
    if u !in nodes {
      if u == next {
        AddedPointer(nodes, st, ops, src, enc, next, r);
      } else if |s.operands| == 3 && u == next + 1 {
        AddedMask(nodes, st, ops, src, enc, next, r, u);
      } else {
        assert u == NewStoreId(s, next);
        AddedStore(nodes, st, ops, src, enc, next, r);
      }
    } else if u in ops {
      var i :| 0 <= i < |ops| && ops[i] == u;
      ChainNode(nodes, st, ops, src, enc, next, r, i);
    } else {
      assert u != st;
      UntouchedNode(nodes, st, ops, src, enc, next, r, u);
    }
  }

  /** A closed graph whose every operation is well formed and typed meets EpilogueGraph's typing clauses. */
  lemma TypedIsEpilogue(r: map<NodeId, Node>)
    requires Closed(r) && Dominance(r)
    requires forall u :: u in r ==> OperandsDefined(r, u) && NodeTyped(r, u)
    ensures EpilogueGraph(r)
  {
  }

  /** The rewrite of a rewritable store keeps every invariant of EpilogueGraph. */
  lemma RewriteKeepsTyping(nodes: map<NodeId, Node>, st: NodeId, ops: seq<NodeId>, src: NodeId, enc: Encoding, next: NodeId,
                           r: map<NodeId, Node>)
    requires EpilogueGraph(nodes)
    requires Rewritable(nodes, st, ops, src, next) && ChainOrdered(nodes, st, ops, src)
    requires IsBypassed(nodes, st, ops, src, enc, next, r)
    ensures EpilogueGraph(r)
  {
    RewriteKeepsClosed(nodes, st, ops, src, enc, next, r);
    RewriteKeepsDominance(nodes, st, ops, src, enc, next, r);
    forall u | u in r
      ensures OperandsDefined(r, u) && NodeTyped(r, u)
    {
      RewrittenNode(nodes, st, ops, src, enc, next, r, u);
    }
    TypedIsEpilogue(r);
  }

  /**
   * The rewrite keeps every invariant of EpilogueGraph: in particular the
   * rewired chain still has its definitions before their uses.
   */
  lemma RewriteKeepsGraph(nodes: map<NodeId, Node>, st: NodeId, m: EpilogueMatch, next: NodeId)
    requires EpilogueGraph(nodes) && st in nodes && Matches(nodes, st, m) && forall x :: x in nodes ==> x < next
    ensures Rewritable(nodes, st, m.chain.ops, m.src, next)
    ensures EpilogueGraph(RewriteResult(nodes, st, m.chain.ops, m.src, m.enc, next))
  {
    var ops, src, enc := m.chain.ops, m.src, m.enc;
    MatchedStore(nodes, st, m, next);
    MatchedChainOrdered(nodes, st, m);
    RewriteIsBypassed(nodes, st, ops, src, enc, next);
    RewriteKeepsTyping(nodes, st, ops, src, enc, next, RewriteResult(nodes, st, ops, src, enc, next));
  }

  // ------------------------------------------------ the conversion left dead

  /** Only the store and the chain read `cvt`. */
  predicate ReadOnlyByChain(nodes: map<NodeId, Node>, st: NodeId, ops: seq<NodeId>, cvt: NodeId) {
    forall x, j :: x in nodes && 0 <= j < |nodes[x].operands| && nodes[x].operands[j] == cvt ==> x == st || x in ops
  }

  /** The matched conversion has its one use in the chain or the store, and is none of the values the rewrite reads. */
  lemma MatchedConversion(nodes: map<NodeId, Node>, st: NodeId, m: EpilogueMatch)
    requires EpilogueGraph(nodes) && st in nodes && Matches(nodes, st, m)
    ensures var cvt := m.chain.cvt;
      && cvt in nodes && cvt != st && cvt !in m.chain.ops && m.src != cvt
      && ReadOnlyByChain(nodes, st, m.chain.ops, cvt)
      && nodes[st].operands[0] != cvt && (|nodes[st].operands| == 3 ==> nodes[st].operands[2] != cvt)
  {
    var cvt, ops := m.chain.cvt, m.chain.ops;
    SourceFacts(nodes, st, m);
    var theUse := if |ops| == 0 then (st, 1) else (ops[|ops| - 1], 0);
    assert theUse in Uses(nodes, cvt);
    forall x, j | x in nodes && 0 <= j < |nodes[x].operands| && nodes[x].operands[j] == cvt
      ensures x == st || x in ops
    {
      OneUseIsTheUse(nodes, cvt, (x, j), theUse);
    }
    OffChain(nodes, st, m, 0);
    if |nodes[st].operands| == 3 {
      OffChain(nodes, st, m, 2);
    }
  }

  /** The conversions and the store the rewrite adds do not read `cvt`. */
  lemma AddedSkipsConversion(nodes: map<NodeId, Node>, st: NodeId, ops: seq<NodeId>, src: NodeId, enc: Encoding, next: NodeId,
                             r: map<NodeId, Node>, cvt: NodeId, u: NodeId, k: nat)
    requires Rewritable(nodes, st, ops, src, next)
    requires ConvertedAfter(nodes, st, enc, next, r) && StoreAfter(nodes, st, ops, src, next, r)
    requires cvt in nodes && cvt !in ops && src != cvt
    requires nodes[st].operands[0] != cvt && (|nodes[st].operands| == 3 ==> nodes[st].operands[2] != cvt)
    requires u == next || (u == next + 1 && |nodes[st].operands| == 3) || u == NewStoreId(nodes[st], next)
    requires u in r && k < |r[u].operands|
    ensures r[u].operands[k] != cvt
  {
    var s := nodes[st];
    if u == next {
      ConvertedAt(nodes, st, ops, src, enc, next, r, u, 0);
    } else if u == next + 1 && |s.operands| == 3 {
      ConvertedAt(nodes, st, ops, src, enc, next, r, u, 2);
    } else {
      assert r[u] == ReplacementStore(s, next, RewiredValue(ops, src));
      if |ops| > 0 {
        assert ops[0] in ops;
      }
    }
  }

  /** A rewired operation reads the next operation of the chain or `src`, never `cvt`. */
  lemma ChainSkipsConversion(nodes: map<NodeId, Node>, ops: seq<NodeId>, src: NodeId, enc: Encoding,
                             r: map<NodeId, Node>, cvt: NodeId, i: nat, k: nat)
    requires Retargetable(nodes, ops) && ChainAfter(nodes, ops, src, enc, r)
    requires cvt !in ops && src != cvt
    requires i < |ops| && |nodes[ops[i]].operands| == 1 && k < |r[ops[i]].operands|
    ensures r[ops[i]].operands[k] != cvt
  {
    assert r[ops[i]] == Retarget(nodes[ops[i]], Next(Chain(ops, src), i), enc);
    if i + 1 < |ops| {
      assert ops[i + 1] in ops;
    }
  }

  /** An operation the rewrite leaves alone does not read `cvt`: only the store and the chain did. */
  lemma UntouchedSkipsConversion(nodes: map<NodeId, Node>, st: NodeId, ops: seq<NodeId>, r: map<NodeId, Node>,
                                 cvt: NodeId, u: NodeId, k: nat)
    requires UntouchedAfter(nodes, st, ops, r) && ReadOnlyByChain(nodes, st, ops, cvt)
    requires u in nodes && u != st && u !in ops && u in r && k < |r[u].operands|
    ensures r[u].operands[k] != cvt
  {
    assert r[u] == nodes[u];
  }

  /** No operation of the rewritten graph reads `cvt`. */
  lemma {:induction false} RewriteSkipsConversion(nodes: map<NodeId, Node>, st: NodeId, ops: seq<NodeId>, src: NodeId,
                                                  enc: Encoding, next: NodeId, r: map<NodeId, Node>, cvt: NodeId)
    requires Rewritable(nodes, st, ops, src, next) && ChainOrdered(nodes, st, ops, src)
    requires IsBypassed(nodes, st, ops, src, enc, next, r)
    requires cvt in nodes && cvt != st && cvt !in ops && src != cvt && ReadOnlyByChain(nodes, st, ops, cvt)
    requires nodes[st].operands[0] != cvt && (|nodes[st].operands| == 3 ==> nodes[st].operands[2] != cvt)
    ensures cvt in r && r[cvt] == nodes[cvt] && Uses(r, cvt) == {}
  {
    var s := nodes[st];
    assert KeysAfter(nodes, st, next, r);
    forall u, k: nat | u in r && k < |r[u].operands|
      ensures r[u].operands[k] != cvt
    {
      if u !in nodes {
        assert u == next || (u == next + 1 && |s.operands| == 3) || u == NewStoreId(s, next);
        AddedSkipsConversion(nodes, st, ops, src, enc, next, r, cvt, u, k);
      } else if u in ops {
        var i :| 0 <= i < |ops| && ops[i] == u;
        ChainSkipsConversion(nodes, ops, src, enc, r, cvt, i, k);
      } else {
        assert u != st;
        UntouchedSkipsConversion(nodes, st, ops, r, cvt, u, k);
      }
    }
  }

  /**
   * The rewrite does not erase the old conversion: it stays in the graph,
   * unchanged, with its one use gone, for the pattern driver to remove.
   */
  lemma RewriteLeavesConversionDead(nodes: map<NodeId, Node>, st: NodeId, m: EpilogueMatch, next: NodeId)
    requires EpilogueGraph(nodes) && st in nodes && Matches(nodes, st, m) && forall x :: x in nodes ==> x < next
    ensures Rewritable(nodes, st, m.chain.ops, m.src, next)
    ensures var r := RewriteResult(nodes, st, m.chain.ops, m.src, m.enc, next);
      m.chain.cvt in r && r[m.chain.cvt] == nodes[m.chain.cvt] && Uses(r, m.chain.cvt) == {}
  {
    var ops, src, enc := m.chain.ops, m.src, m.enc;
    MatchedStore(nodes, st, m, next);
    MatchedChainOrdered(nodes, st, m);
    MatchedConversion(nodes, st, m);
    RewriteIsBypassed(nodes, st, ops, src, enc, next);
    RewriteSkipsConversion(nodes, st, ops, src, enc, next, RewriteResult(nodes, st, ops, src, enc, next), m.chain.cvt);
  }

  // ------------------------------------------------ the rewrite is final

  /** The new store writes through a pointer in the accumulator layout, so it no longer matches. */
  lemma RewrittenStoreIsFinal(nodes: map<NodeId, Node>, st: NodeId, ops: seq<NodeId>, src: NodeId, enc: Encoding,
                              next: NodeId, r: map<NodeId, Node>)
    requires Rewritable(nodes, st, ops, src, next) && IsBypassed(nodes, st, ops, src, enc, next, r)
    requires EpilogueGraph(r) && !enc.Blocked?
    ensures NewStoreId(nodes[st], next) in r && MatchStore(r, NewStoreId(nodes[st], next)).None?
  {
    var s := nodes[st];
    var u := NewStoreId(s, next);
    assert r[u] == ReplacementStore(s, next, RewiredValue(ops, src));
    ConvertedAt(nodes, st, ops, src, enc, next, r, next, 0);
    assert TypeOf(r, r[u].operands[0]).encoding == Some(enc);
  }

  /**
   * Rewriting a matched store leaves a store the pattern does not match
   * again: its pointer is no longer in a blocked layout.
   */
  lemma RewriteIsFinal(nodes: map<NodeId, Node>, st: NodeId, m: EpilogueMatch, next: NodeId)
    requires EpilogueGraph(nodes) && st in nodes && Matches(nodes, st, m) && forall x :: x in nodes ==> x < next
    ensures Rewritable(nodes, st, m.chain.ops, m.src, next)
    ensures var r := RewriteResult(nodes, st, m.chain.ops, m.src, m.enc, next);
      && EpilogueGraph(r) && NewStoreId(nodes[st], next) in r
      && MatchStore(r, NewStoreId(nodes[st], next)).None?
  {
    RewriteKeepsGraph(nodes, st, m, next);
    RewriteIsBypassed(nodes, st, m.chain.ops, m.src, m.enc, next);
    RewrittenStoreIsFinal(nodes, st, m.chain.ops, m.src, m.enc, next,
                          RewriteResult(nodes, st, m.chain.ops, m.src, m.enc, next));
  }

  // ------------------------------------------- one layout per operation

  /** Operation `u` of `r` computes in layout `enc` and reads only values in that layout. */
  ghost predicate InLayout(r: map<NodeId, Node>, u: NodeId, enc: Encoding) {
    && u in r && |r[u].results| >= 1 && r[u].results[0].Tensor? && r[u].results[0].encoding == Some(enc)
    && forall k :: 0 <= k < |r[u].operands| ==>
         r[u].operands[k] in r && |r[r[u].operands[k]].results| >= 1
         && TypeOf(r, r[u].operands[k]).Tensor? && TypeOf(r, r[u].operands[k]).encoding == Some(enc)
  }

  /**
   * Under the allow-list as written, a two-operand atan2 next to the
   * conversion is retyped to the new layout while its second operand keeps
   * its blocked layout: the operation mixes layouts.
   */
  lemma Atan2MixesLayoutsAsWritten(nodes: map<NodeId, Node>, a: NodeId, src: NodeId, enc: Encoding)
    requires a in nodes && nodes[a].kind == Math(Atan2)
    requires |nodes[a].operands| == 2 && |nodes[a].results| == 1 && nodes[a].results[0].Tensor?
    requires var x := nodes[a].operands[1];
      && x in nodes && x != a && |nodes[x].results| >= 1
      && TypeOf(nodes, x).Tensor? && IsBlocked(TypeOf(nodes, x).encoding)
    requires !enc.Blocked?
    ensures IsOneOperandElementwiseAsWritten(nodes[a]) && !IsOneOperandElementwise(nodes[a])
    ensures Retargetable(nodes, [a])
    ensures var r := RewiredAsWritten(nodes, [a], src, enc);
      && a in r && |r[a].operands| == 2 && |r[a].results| == 1
      && r[a].results[0] == WithEncoding(nodes[a].results[0], enc)
      && r[a].operands[1] == nodes[a].operands[1]
      && r[a].operands[1] in r && r[r[a].operands[1]] == nodes[nodes[a].operands[1]]
      && !InLayout(r, a, enc)
  {
    var x := nodes[a].operands[1];
    AsWrittenReadsPrevious(nodes, [a], src, enc, 0);
    AsWrittenFrame(nodes, [a], src, enc, x);
  }

  /** A rewired chain operation computes in `enc` and reads the next operation or `src`, both in `enc`. */
  lemma RewrittenChainOpInLayout(nodes: map<NodeId, Node>, st: NodeId, ops: seq<NodeId>, src: NodeId, enc: Encoding,
                                 next: NodeId, r: map<NodeId, Node>, i: nat)
    requires Rewritable(nodes, st, ops, src, next) && ChainOrdered(nodes, st, ops, src)
    requires UntouchedAfter(nodes, st, ops, r) && ChainAfter(nodes, ops, src, enc, r)
    requires TypeOf(nodes, src).encoding == Some(enc) && i < |ops|
    ensures InLayout(r, ops[i], enc)
  {
    assert r[ops[i]] == Retarget(nodes[ops[i]], Next(Chain(ops, src), i), enc);
    assert |nodes[ops[i]].operands| == 1;
    var v := Next(Chain(ops, src), i);
    assert r[ops[i]].operands == [v];
    if i + 1 < |ops| {
      assert r[ops[i + 1]] == Retarget(nodes[ops[i + 1]], Next(Chain(ops, src), i + 1), enc);
    } else {
      assert r[src] == nodes[src];
    }
  }

  /**
   * After the rewrite every operation of the chain computes in the
   * accumulator layout and reads only values in that layout: no chain
   * operation mixes layouts.
   */
  lemma ChainComputesInOneLayout(nodes: map<NodeId, Node>, st: NodeId, m: EpilogueMatch, next: NodeId)
    requires EpilogueGraph(nodes) && st in nodes && Matches(nodes, st, m) && forall x :: x in nodes ==> x < next
    ensures Rewritable(nodes, st, m.chain.ops, m.src, next)
    ensures var r := RewriteResult(nodes, st, m.chain.ops, m.src, m.enc, next);
      forall i :: 0 <= i < |m.chain.ops| ==> InLayout(r, m.chain.ops[i], m.enc)
  {
    var ops, src, enc := m.chain.ops, m.src, m.enc;
    MatchedStore(nodes, st, m, next);
    MatchedChainOrdered(nodes, st, m);
    RewriteIsBypassed(nodes, st, ops, src, enc, next);
    var r := RewriteResult(nodes, st, ops, src, enc, next);
    forall i | 0 <= i < |ops|
      ensures InLayout(r, ops[i], enc)
    {
      RewrittenChainOpInLayout(nodes, st, ops, src, enc, next, r, i);
    }
  }
}
