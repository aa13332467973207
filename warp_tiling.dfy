/**
 * How the warps of a program are spread over the output tile of a matrix
 * multiply lowered to AMD matrix-core (MFMA) instructions.
 *
 * The pair returned is (warps along M, warps along N). All divisions are on
 * non-negative values, where the source's truncating division and Dafny's
 * Euclidean division agree.
 */
module WarpTiling {
  import opened Pow2

  /**
   * One step of the greedy loop: exactly one side is doubled. M is preferred
   * while its remaining tiles (counted at twice the instruction height) are at
   * least N's remaining tiles and M still has an instruction tile per warp.
   */
  function GrowStep(M: nat, N: nat, mDim: nat, nDim: nat, w: (nat, nat)): (r: (nat, nat))
    requires mDim > 0 && nDim > 0 && w.0 > 0 && w.1 > 0
    ensures (r.0 == 2 * w.0 && r.1 == w.1) || (r.0 == w.0 && r.1 == 2 * w.1)
    ensures r.0 * r.1 == 2 * (w.0 * w.1)
    ensures r.0 == 2 * w.0 <==> M / (2 * mDim) / w.0 >= N / nDim / w.1 && w.0 < M / mDim
  {
    if M / (mDim * 2) / w.0 >= N / nDim / w.1 then
      if w.0 < M / mDim then (2 * w.0, w.1) else (w.0, 2 * w.1)
    else
      (w.0, 2 * w.1)
  }

  /** The greedy loop from `w` on: grow until there are at least `numWarps` warps. */
  function GreedyWarps(M: nat, N: nat, mDim: nat, nDim: nat, numWarps: nat, w: (nat, nat)): (r: (nat, nat))
    requires mDim > 0 && nDim > 0 && w.0 > 0 && w.1 > 0
    ensures r.0 > 0 && r.1 > 0
    decreases numWarps - w.0 * w.1
  {
    if w.0 * w.1 >= numWarps then w
    else GreedyWarps(M, N, mDim, nDim, numWarps, GrowStep(M, N, mDim, nDim, w))
  }

  /**
   * The assignment warpsPerTileMFMA returns: all warps along M for a chained
   * dot; otherwise the greedy result, swapped when its N side overruns N.
   */
  function WarpsPerTile(chained: bool, M: nat, N: nat, numWarps: nat, mDim: nat, nDim: nat): (nat, nat)
    requires mDim > 0 && nDim > 0
  {
    if chained then (numWarps, 1)
    else
      var g := GreedyWarps(M, N, mDim, nDim, numWarps, (1, 1));
      if g.1 * nDim > N then (g.1, g.0) else g
  }

  /**
   * From a start of two powers of two, the greedy loop ends on two powers of
   * two with at least `numWarps` warps in all, and, unless it did not move,
   * fewer than twice `numWarps`.
   */
  lemma {:induction false} GreedyWarpsBounds(M: nat, N: nat, mDim: nat, nDim: nat, numWarps: nat, w: (nat, nat))
    requires mDim > 0 && nDim > 0 && w.0 > 0 && w.1 > 0 && IsPow2(w.0) && IsPow2(w.1)
    ensures var r := GreedyWarps(M, N, mDim, nDim, numWarps, w);
      && IsPow2(r.0) && IsPow2(r.1)
      && r.0 * r.1 >= numWarps
      && (r == w || r.0 * r.1 < 2 * numWarps)
    decreases numWarps - w.0 * w.1
  {
    if w.0 * w.1 < numWarps {
      var s := GrowStep(M, N, mDim, nDim, w);
      DoubleIsPow2(w.0);
      DoubleIsPow2(w.1);
      GreedyWarpsBounds(M, N, mDim, nDim, numWarps, s);
    }
  }

  /**
   * Without a chained dot the warps in the tile are the least power of two
   * that is at least `numWarps`, hence exactly `numWarps` when that is a power
   * of two; each side is a power of two. A chained dot gets (numWarps, 1).
   */
  lemma WarpsPerTileProduct(chained: bool, M: nat, N: nat, numWarps: nat, mDim: nat, nDim: nat)
    requires mDim > 0 && nDim > 0
    ensures var r := WarpsPerTile(chained, M, N, numWarps, mDim, nDim);
      && (chained ==> r == (numWarps, 1))
      && (!chained ==>
            && IsPow2(r.0) && IsPow2(r.1) && IsPow2(r.0 * r.1)
            && r.0 * r.1 >= numWarps
            && (r.0 * r.1 == 1 || r.0 * r.1 < 2 * numWarps)
            && (IsPow2(numWarps) ==> r.0 * r.1 == numWarps))
  {
    if !chained {
      var g := GreedyWarps(M, N, mDim, nDim, numWarps, (1, 1));
      assert IsPow2(1);
      GreedyWarpsBounds(M, N, mDim, nDim, numWarps, (1, 1));
      var p := g.0 * g.1;
      assert g.1 * g.0 == p;
      Pow2Mul(g.0, g.1);
      assert p == 1 || p < 2 * numWarps;
      if IsPow2(numWarps) && p != 1 {
        Pow2Unique(p, numWarps);
      }
    }
  }

  /**
   * warpsPerTileMFMA. The chain test of the source (a slice query on the
   * graph) arrives as `chained`; the do-while loop and the final swap are
   * those of the source.
   */
  method WarpsPerTileMfma(chained: bool, M: nat, N: nat, numWarps: nat, mDim: nat, nDim: nat)
    returns (warpsM: nat, warpsN: nat)
    requires mDim > 0 && nDim > 0
    ensures (warpsM, warpsN) == WarpsPerTile(chained, M, N, numWarps, mDim, nDim)
    ensures chained ==> warpsM == numWarps && warpsN == 1
    ensures !chained ==> IsPow2(warpsM) && IsPow2(warpsN) && warpsM * warpsN >= numWarps
    ensures !chained && IsPow2(numWarps) ==> warpsM * warpsN == numWarps
  {
    if chained {
      return numWarps, 1;
    }
    var r0: nat, r1: nat := 1, 1;
    while r0 * r1 < numWarps
      invariant r0 > 0 && r1 > 0
      invariant GreedyWarps(M, N, mDim, nDim, numWarps, (r0, r1))
             == GreedyWarps(M, N, mDim, nDim, numWarps, (1, 1))
      decreases numWarps - r0 * r1
    {
      ghost var before := (r0, r1);
      if M / (mDim * 2) / r0 >= N / nDim / r1 {
        if r0 < M / mDim {
          r0 := r0 * 2;
        } else {
          r1 := r1 * 2;
        }
      } else {
        r1 := r1 * 2;
      }
      assert (r0, r1) == GrowStep(M, N, mDim, nDim, before);
    }
    if r1 * nDim > N {
      warpsM, warpsN := r1, r0;
    } else {
      warpsM, warpsN := r0, r1;
    }
    WarpsPerTileProduct(chained, M, N, numWarps, mDim, nDim);
  }
}
