// NEON fixed-weight sampler of ntruhps4096821 (shuffling/opt_neon): 16-lane
// rejection sampling with an in-order scalar fixup of rejected lanes, and the
// assignment of coefficients by an asm step on negated counters.  Vector
// registers are modelled lane by lane: the two uint16x8_t halves of `vsi` are
// one 16-lane array, `vsq` is a sequence of 8 lanes, and the rejection bit
// mask `res` is the set of rejected lanes.

module SampleNeon {
  import opened Bits
  import opened Common
  import opened VtTable
  import opened SampleRef

  /** Number of positions handled by the 16-lane blocks: N - (N mod 16). */
  const N_UNROLL: int := N - N % 16

  /** The uint16 lanes `d` = {820, ..., 813} that `vsq` starts from. */
  const D: seq<u16> := [820, 819, 818, 817, 816, 815, 814, 813]

  function Min(a: int, b: int): (r: int)
  {
    if a < b then a else b
  }

  /** `vsq` on entry to the block at i: lane k holds N-1-(i+k) as a uint16. */
  function VsqAt(i: int): (v: seq<u16>)
    ensures |v| == 8
  {
    seq(8, k => (N - 1 - i - k) % W16)
  }

  /** Lanes of `vsq - 8` (vsubq_u16 wraps). */
  function Minus8(v: seq<u16>): (w: seq<u16>)
    requires |v| == 8
    ensures |w| == 8
  {
    seq(8, k requires 0 <= k < 8 => (v[k] - 8) % W16)
  }

  /** The multiplier of lane k in the block at i: lanes 0..7 use vsq, lanes 8..15 use vsq - 8. */
  function LaneS(vsq: seq<u16>, k: int): (r: u16)
    requires |vsq| == 8 && 0 <= k < 16
  {
    if k < 8 then vsq[k] else Minus8(vsq)[k - 8]
  }

  /** The 32-bit product u[i+k] * s of lane k (vmull_u16 never wraps). */
  function LaneProduct(u: seq<u16>, i: int, vsq: seq<u16>, k: int): (m: int)
    requires |vsq| == 8 && 0 <= k < 16 && 0 <= i && i + 16 <= |u|
    ensures 0 <= m < W32
  {
    MulU16(u[i + k], LaneS(vsq, k));
    u[i + k] * LaneS(vsq, k)
  }

  /** Lane k is rejected when the low half of its product is below the
      threshold of position i+k (vcltq_u16 against vt[i+k]; see VtIsThreshold). */
  predicate LaneRejected(u: seq<u16>, i: int, vsq: seq<u16>, k: int)
    requires |vsq| == 8 && 0 <= k < 16 && 0 <= i && i + 16 <= |u|
  {
    LaneProduct(u, i, vsq, k) % W16 < ThresholdAt(i + k)
  }

  /** The lowest lane in the rejection mask: `__builtin_clzl(__rbitll(res)) / 4`,
      each lane owning one nibble of the 64-bit mask. */
  function LowestFrom(res: set<int>, from: int): (k: int)
    requires 0 <= from <= 16
    requires exists x :: x in res && from <= x < 16
    ensures k in res && from <= k < 16
    ensures forall x :: x in res && from <= x ==> k <= x
    decreases 16 - from
  {
    if from in res then from else LowestFrom(res, from + 1)
  }

  /** The int16 value of a uint16 lane (vst1q_s16 / vreinterpretq_s16_u16). */
  function ToInt16(x: u16): (r: int)
    ensures -0x8000 <= r < 0x8000 && (r - x) % W16 == 0
  {
    if x < 0x8000 then x else x - W16
  }

  /** Lane k of a real position (i + k < N - 1) multiplies by N-1-(i+k), and its
      test is the reference rejection test. */
  lemma RealLane(u: seq<u16>, i: int, k: int)
    requires 0 <= i && i % 16 == 0 && i + 16 <= 832 <= |u| && 0 <= k < 16 && i + k < N - 1
    ensures LaneS(VsqAt(i), k) == N - 1 - (i + k)
    ensures LaneRejected(u, i, VsqAt(i), k) <==> Rejected(u[i + k], N - 1 - (i + k))
    ensures LaneProduct(u, i, VsqAt(i), k) / W16 == Scaled(u[i + k], N - 1 - (i + k))
  {
    var v := VsqAt(i);
    if k < 8 {
      assert v[k] == N - 1 - (i + k);
    } else {
      assert v[k - 8] == N - 1 - (i + k - 8);
      assert Minus8(v)[k - 8] == N - 1 - (i + k);
    }
    var s := LaneS(v, k);
    assert s == N - 1 - (i + k);
    assert LaneProduct(u, i, v, k) == u[i + k] * (N - 1 - (i + k));
  }

  /** Padding lanes (i + k >= N - 1) have threshold 0 and are never rejected;
      the lane of position N - 1 multiplies by 0. */
  lemma PadLane(u: seq<u16>, i: int, k: int)
    requires 0 <= i && i % 16 == 0 && i + 16 <= 832 <= |u| && 0 <= k < 16 && N - 1 <= i + k
    ensures !LaneRejected(u, i, VsqAt(i), k)
    ensures i + k == N - 1 ==> LaneProduct(u, i, VsqAt(i), k) == 0
  {
  }

  /** `vsq` after the two `vsubq_u16` steps of a block is the `vsq` of the next block. */
  lemma VsqNext(i: int)
    ensures Minus8(Minus8(VsqAt(i))) == VsqAt(i + 16)
  {
  }

  /** A negated index stored in a uint16 lane reads back as its negation in int16. */
  lemma NegatedIndex(x: int)
    requires 0 <= x < 0x8000
    ensures ToInt16(Neg16(x)) == -x
  {
  }

  /** The vector path of the block at i: every lane that is not rejected
      already holds the negated reference index, and the lane of position
      N - 1 holds 0. */
  lemma VectorLanes(u: seq<u16>, i: int)
    requires 0 <= i && i % 16 == 0 && i + 16 <= 832 <= |u|
    requires Indices(u, N - 1).Some?
    ensures forall k :: 0 <= k < 16 && i + k < N - 1 && !LaneRejected(u, i, VsqAt(i), k) ==>
      ToInt16(Neg16(LaneProduct(u, i, VsqAt(i), k) / W16)) == -ShuffleIndices(u)[i + k]
    ensures 0 <= N - 1 - i < 16 ==> Neg16(LaneProduct(u, i, VsqAt(i), N - 1 - i) / W16) == 0
  {
    var ix := ShuffleIndices(u);
    forall k | 0 <= k < 16 && i + k < N - 1 && !LaneRejected(u, i, VsqAt(i), k)
      ensures ToInt16(Neg16(LaneProduct(u, i, VsqAt(i), k) / W16)) == -ix[i + k]
    {
      RealLane(u, i, k);
      DrawAt(u, i + k);
      NegatedIndex(ix[i + k]);
    }
    if 0 <= N - 1 - i < 16 {
      PadLane(u, i, N - 1 - i);
    }
  }

  /** The two vld1q_u16 loads of vt[i..i+15]. */
  method LoadVt(i: int) returns (vtq: seq<int>)
    requires 0 <= i && i + 16 <= 832
    ensures |vtq| == 16 && forall k :: 0 <= k < 16 ==> vtq[k] == ThresholdAt(i + k)
  {
    VtIsThreshold();
    vtq := seq(16, k requires 0 <= k < 16 => Vt(i + k));
  }

  /** The scalar load vt[p]. */
  method LoadVtLane(p: int) returns (t: int)
    requires 0 <= p < 832
    ensures t == ThresholdAt(p)
  {
    VtIsThreshold();
    t := Vt(p);
  }

  /** The scalar fixup of one rejected lane (the inner do-while of
      simd_rejsamplingmod): words are taken from the shared cursor j until one
      is accepted, and the lane receives the negated index. */
  method FixupLane(u: seq<u16>, p: int, j: int) returns (lane: u16, jOut: int)
    requires 0 <= p < N - 1 <= |u|
    requires Indices(u, N - 1).Some?
    requires Indices(u, p).Some? && j == Indices(u, p).value.1
    requires Rejected(u[p], N - 1 - p)
    ensures Indices(u, p + 1).Some? && jOut == Indices(u, p + 1).value.1
    ensures ToInt16(lane) == -ShuffleIndices(u)[p]
  {
    DivModUnique(N - 1 - p, W16, 0, N - 1 - p);
    var s := (N - 1 - p) % W16;
    var t := LoadVtLane(p);
    RejectedDraw(u, p, j);
    jOut := j;
    var m := u[jOut] * s;
    jOut := jOut + 1;
    var l := m % W16;
    while l < t
      invariant jOut <= |u|
      invariant Redraw(u, s, j) == (if l < t then Redraw(u, s, jOut) else Some((m / W16, jOut)))
      decreases |u| - jOut
    {
      m := u[jOut] * s;
      jOut := jOut + 1;
      l := m % W16;
    }
    lane := Neg16(m / W16);
    NegatedIndex(m / W16);
  }

  /** A rejected first draw at position p is replaced by the redraw from the
      cursor, which yields the reference index of p and the next cursor. */
  lemma RejectedDraw(u: seq<u16>, p: int, j: int)
    requires 0 <= p < N - 1 <= |u|
    requires Indices(u, N - 1).Some?
    requires Indices(u, p).Some? && j == Indices(u, p).value.1
    requires Rejected(u[p], N - 1 - p)
    ensures Indices(u, p + 1).Some?
    ensures Redraw(u, N - 1 - p, j) == Some((ShuffleIndices(u)[p], Indices(u, p + 1).value.1))
    ensures ThresholdAt(p) == Threshold(N - 1 - p) && j < |u|
    ensures 0 <= ShuffleIndices(u)[p] < 0x8000
  {
    DrawAt(u, p);
    RedrawSpec(u, N - 1 - p, j);
  }

  /** The rejected lanes lo..15 of the block at i (the set bits of `res`). */
  function RejectedFrom(u: seq<u16>, i: int, lo: int): (res: set<int>)
    requires 0 <= i && i + 16 <= |u|
    ensures forall k :: k in res <==> lo <= k < 16 && 0 <= k && LaneRejected(u, i, VsqAt(i), k)
  {
    set k | lo <= k < 16 && 0 <= k && LaneRejected(u, i, VsqAt(i), k)
  }

  /** simd_rejsamplingmod for the block of positions i..i+15, as called by
      sample_fixed_type: lanes i+k < N-1 end up holding the negated reference
      index, the lane of position N-1 holds 0, and the shared cursor j moves
      exactly as in the reference. */
  method SimdRejSamplingMod(i: int, j: int, vsi: array<u16>, vsq: seq<u16>, u: seq<u16>)
    returns (vsqOut: seq<u16>, jOut: int)
    requires vsi.Length == 16 && 0 <= i && i % 16 == 0 && i + 16 <= 832 <= |u|
    requires Indices(u, N - 1).Some?
    requires vsq == VsqAt(i)
    requires Indices(u, i).Some? && j == Indices(u, i).value.1
    modifies vsi
    ensures vsqOut == VsqAt(i + 16)
    ensures Indices(u, Min(i + 16, N - 1)).Some? && jOut == Indices(u, Min(i + 16, N - 1)).value.1
    ensures forall k :: 0 <= k < 16 && i + k < N - 1 ==> ToInt16(vsi[k]) == -ShuffleIndices(u)[i + k]
    ensures 0 <= N - 1 - i < 16 ==> vsi[N - 1 - i] == 0
  {
    // Vector path: all 16 lanes at once.
    forall k | 0 <= k < 16 {
      vsi[k] := Neg16(LaneProduct(u, i, vsq, k) / W16);
    }
    var vtq := LoadVt(i);
    var res := set k | 0 <= k < 16 && LaneProduct(u, i, vsq, k) % W16 < vtq[k];
    assert res == RejectedFrom(u, i, 0);
    vsqOut := Minus8(Minus8(vsq));
    VsqNext(i);
    VectorLanes(u, i);
    jOut := FixupLanes(i, j, vsi, res, u);
  }

  /** The state of the fixup after the lanes below lo: the cursor stands where
      the reference leaves it after position i + lo, every lane below lo or
      not in the mask holds its negated reference index, and the lane of
      position N - 1 holds 0. */
  ghost predicate FixupInv(u: seq<u16>, i: int, lanes: seq<u16>, res0: set<int>, lo: int, j: int)
    requires 0 <= i && i + 16 <= 832 <= |u| && Indices(u, N - 1).Some? && |lanes| == 16
  {
    0 <= lo <= 16 &&
    Indices(u, Min(i + lo, N - 1)).Some? && j == Indices(u, Min(i + lo, N - 1)).value.1 &&
    (forall k :: 0 <= k < 16 && i + k < N - 1 && (k < lo || k !in res0) ==>
      ToInt16(lanes[k]) == -ShuffleIndices(u)[i + k]) &&
    (0 <= N - 1 - i < 16 ==> lanes[N - 1 - i] == 0)
  }

  /** The scalar fixup of simd_rejsamplingmod: the rejected lanes, lowest
      first, draw from the shared cursor as the reference does. */
  method FixupLanes(i: int, j: int, vsi: array<u16>, res0: set<int>, u: seq<u16>) returns (jOut: int)
    requires vsi.Length == 16 && 0 <= i && i % 16 == 0 && i + 16 <= 832 <= |u|
    requires Indices(u, N - 1).Some?
    requires res0 == RejectedFrom(u, i, 0)
    requires forall x :: x in res0 ==> 0 <= x < 16
    requires FixupInv(u, i, vsi[..], res0, 0, j)
    modifies vsi
    ensures FixupInv(u, i, vsi[..], {}, 16, jOut)
  {
    var res := res0;
    jOut := j;
    ghost var lo := 0;
    while res != {}
      invariant res == set x | x in res0 && lo <= x
      invariant FixupInv(u, i, vsi[..], res0, lo, jOut)
      decreases |res|
    {
      var k := LowestFrom(res, 0);
      MaskStep(res0, res, lo, k);
      jOut := FixupStep(i, u, res0, lo, k, jOut, vsi);
      res := res - {k};
      lo := k + 1;
    }
    MaskDone(res0, res, lo);
    FixupFinish(u, i, vsi[..], res0, lo, jOut);
  }

  /** Once no lane of the mask is left at or above lo, the fixup is complete. */
  lemma FixupFinish(u: seq<u16>, i: int, lanes: seq<u16>, res0: set<int>, lo: int, j: int)
    requires 0 <= i && i % 16 == 0 && i + 16 <= 832 <= |u| && Indices(u, N - 1).Some? && |lanes| == 16
    requires res0 == RejectedFrom(u, i, 0)
    requires FixupInv(u, i, lanes, res0, lo, j)
    requires forall x :: lo <= x < 16 ==> x !in res0
    ensures FixupInv(u, i, lanes, {}, 16, j)
  {
    SkipAccepted(u, i, res0, lo, 16);
  }

  /** Clearing the lowest lane k of the remaining mask leaves the lanes of
      the initial mask above k, and no lane of the initial mask lies in [lo, k). */
  lemma MaskStep(res0: set<int>, res: set<int>, lo: int, k: int)
    requires forall x :: x in res0 ==> 0 <= x < 16
    requires res == set x | x in res0 && lo <= x
    requires k in res && forall x :: x in res && 0 <= x ==> k <= x
    ensures lo <= k && k in res0
    ensures forall x :: lo <= x < k ==> x !in res0
    ensures res - {k} == set x | x in res0 && k + 1 <= x
  {
    forall x | lo <= x < k ensures x !in res0 {
      assert x in res0 ==> x in res;
    }
    var rest := res - {k};
    forall x | x in res0 && k + 1 <= x ensures x in rest {
      assert x in res;
    }
    forall x | x in rest ensures x in res0 && k + 1 <= x {
      assert x in res && x != k;
    }
  }

  /** An empty remaining mask: no lane of the initial mask lies at or above lo. */
  lemma MaskDone(res0: set<int>, res: set<int>, lo: int)
    requires res == {} && res == set x | x in res0 && lo <= x
    ensures forall x :: lo <= x < 16 ==> x !in res0
  {
    forall x | lo <= x < 16 ensures x !in res0 {
      assert x in res0 ==> x in res;
    }
  }

  /** One round of the fixup loop: lane k is the lowest rejected lane at or
      above lo; it receives the negated reference index drawn from the cursor. */
  method FixupStep(i: int, u: seq<u16>, res0: set<int>, ghost lo: int, k: int, j: int, vsi: array<u16>)
    returns (jOut: int)
    requires vsi.Length == 16 && 0 <= i && i % 16 == 0 && i + 16 <= 832 <= |u|
    requires Indices(u, N - 1).Some?
    requires res0 == RejectedFrom(u, i, 0)
    requires 0 <= lo <= k < 16 && k in res0 && forall x :: lo <= x < k ==> x !in res0
    requires FixupInv(u, i, vsi[..], res0, lo, j)
    modifies vsi
    ensures FixupInv(u, i, vsi[..], res0, k + 1, jOut)
  {
    SkipAccepted(u, i, res0, lo, k);
    var lane;
    lane, jOut := FixupLane(u, i + k, j);
    vsi[k] := lane;
  }

  /** Lanes lo..k-1 that are not rejected leave the cursor where it was; a
      rejected lane is a real position. */
  lemma SkipAccepted(u: seq<u16>, i: int, rej: set<int>, lo: int, k: int)
    requires 0 <= i && i % 16 == 0 && i + 16 <= 832 <= |u|
    requires 0 <= lo <= k <= 16
    requires Indices(u, N - 1).Some?
    requires rej == RejectedFrom(u, i, 0)
    requires forall x :: lo <= x < k ==> x !in rej
    ensures Indices(u, Min(i + lo, N - 1)).Some? && Indices(u, Min(i + k, N - 1)).Some?
    ensures Indices(u, Min(i + k, N - 1)).value.1 == Indices(u, Min(i + lo, N - 1)).value.1
    ensures k in rej ==> i + k < N - 1 && Rejected(u[i + k], N - 1 - (i + k))
  {
    forall p | Min(i + lo, N - 1) <= p < Min(i + k, N - 1) ensures !Rejected(u[p], N - 1 - p) {
      RealLane(u, i, p - i);
    }
    CursorSkip(u, Min(i + lo, N - 1), Min(i + k, N - 1));
    if k in rej {
      if N - 1 <= i + k {
        PadLane(u, i, k);
      } else {
        RealLane(u, i, k);
      }
    }
  }

  // -------------------------------------------------------------------------
  // Coefficient assignment on negated counters

  /** The asm block of sample_fixed_type on the negated index p and the
      negated counters c0, c1: `subs t, c0, p; cinc c0, c0, lt;
      add r_i, 2, t asr #31` and the same with c1.  All operands are int16
      values, so the 32-bit subtractions do not overflow and `lt` is the sign
      of t.  Returns (r_i, c0', c1'). */
  function AsmStep(p: int, c0: int, c1: int): (r: (int, int, int))
    requires -0x8000 <= p < 0x8000 && -0x8000 <= c0 < 0x8000 && -0x8000 <= c1 < 0x8000
    ensures 0 <= r.0 <= 2
    ensures c0 <= r.1 <= c0 + 1 && c1 <= r.2 <= c1 + 1
  {
    SarSign(c0 - p);
    SarSign(c1 - p);
    var t0 := c0 - p;
    var c0' := if t0 < 0 then c0 + 1 else c0;
    var ri := 2 + Sar(t0, 31);
    var t1 := c1 - p;
    var c1' := if t1 < 0 then c1 + 1 else c1;
    (ri + Sar(t1, 31), c0', c1')
  }

  /** On negated operands the asm step is the reference step: r_i is
      2 - [x < C0] - [x < C01], and each counter's magnitude shrinks by one
      exactly when the reference decrements it. */
  lemma AsmStepIso(x: int, c0: int, c01: int)
    requires 0 <= x < 0x8000 && 0 <= c0 < 0x8000 && 0 <= c01 < 0x8000
    ensures var t0 := if x < c0 then -1 else 0;
      var t1 := if x < c01 then -1 else 0;
      AsmStep(-x, -c0, -c01) == (2 + t0 + t1, -(c0 + t0), -(c01 + t1))
  {
    SarSign(-c0 + x);
    SarSign(-c01 + x);
  }

  /** The assignment state before position i: the coefficients placed so far
      and the negated counters are those of the reference loop. */
  ghost predicate IsoState(ix: seq<int>, i: int, done: seq<int>, c0: int, c01: int)
  {
    0 <= i <= |ix| && AssignIso(ix[..i], N - 1 - WEIGHT, N - 1 - WEIGHT / 2) == Counters(done, -c0, -c01)
  }

  /** The shuffle_indices buffer holding the block at i: lane k holds the
      negated index of position i + k, the lane of position N - 1 holds 0, and
      every lane is an int16 value. */
  ghost predicate BlockLanes(lanes: seq<int>, ix: seq<int>, i: int)
    requires |ix| == N - 1
  {
    |lanes| == 16 && 0 <= i &&
    (forall k :: 0 <= k < 16 ==> -0x8000 <= lanes[k] < 0x8000) &&
    (forall k :: 0 <= k < 16 && i + k < N - 1 ==> lanes[k] == -ix[i + k]) &&
    (0 <= N - 1 - i < 16 ==> lanes[N - 1 - i] == 0)
  }

  /** The two vst1q_s16 stores of vsi into shuffle_indices. */
  method StoreLanes(shuffle: array<int>, vsi: array<u16>)
    requires shuffle.Length == 16 && vsi.Length == 16
    modifies shuffle
    ensures forall k :: 0 <= k < 16 ==> shuffle[k] == ToInt16(vsi[k])
  {
    forall k | 0 <= k < 16 {
      shuffle[k] := ToInt16(vsi[k]);
    }
  }

  /** After simd_rejsamplingmod for the block at i and the stores, the
      buffer holds that block's negated indices. */
  lemma StoredBlock(shuffle: seq<int>, lanes: seq<u16>, ix: seq<int>, i: int)
    requires |shuffle| == 16 && |lanes| == 16 && |ix| == N - 1 && 0 <= i
    requires forall k :: 0 <= k < 16 ==> shuffle[k] == ToInt16(lanes[k])
    requires forall k :: 0 <= k < 16 && i + k < N - 1 ==> ToInt16(lanes[k]) == -ix[i + k]
    requires 0 <= N - 1 - i < 16 ==> lanes[N - 1 - i] == 0
    ensures BlockLanes(shuffle, ix, i)
  {
  }

  /** One application of the asm step at position i + l of a block. */
  lemma AsmLoopStep(ix: seq<int>, i: int, done: seq<int>, c0: int, c01: int, p: int)
    requires ValidIndices(ix, N - 1) && 0 <= i < |ix| == N - 1
    requires IsoState(ix, i, done, c0, c01)
    requires p == -ix[i]
    ensures -0x8000 <= p < 0x8000 && -0x8000 <= c0 <= 0 && -0x8000 <= c01 <= 0
    ensures var (ri, c0', c01') := AsmStep(p, c0, c01);
      IsoState(ix, i + 1, done + [ri], c0', c01')
  {
    IsoCountersBound(ix, i, done, -c0, -c01);
    AssignIsoStep(ix, i, N - 1 - WEIGHT, N - 1 - WEIGHT / 2);
    AsmStepIso(ix[i], -c0, -c01);
  }

  /** The inner loop of the block loop: positions i..i+15 from the buffer. */
  method AsmBlock(r: array<u16>, shuffle: array<int>, ghost ix: seq<int>, i: int, c0: int, c01: int)
    returns (c0Out: int, c01Out: int)
    requires r.Length >= N && shuffle.Length == 16 && 0 <= i && i + 16 <= N - 1
    requires ValidIndices(ix, N - 1) && |ix| == N - 1
    requires BlockLanes(shuffle[..], ix, i)
    requires IsoState(ix, i, r[..i], c0, c01)
    modifies r
    ensures IsoState(ix, i + 16, r[..i + 16], c0Out, c01Out)
    ensures r[i + 16..] == old(r[i + 16..])
  {
    c0Out, c01Out := c0, c01;
    for l := 0 to 16
      invariant IsoState(ix, i + l, r[..i + l], c0Out, c01Out)
      invariant r[i + 16..] == old(r[i + 16..])
    {
      var p := shuffle[l];
      AsmLoopStep(ix, i + l, r[..i + l], c0Out, c01Out, p);
      var (ri, c0', c01') := AsmStep(p, c0Out, c01Out);
      r[i + l] := ri;
      c0Out, c01Out := c0', c01';
      assert r[..i + l + 1] == r[..i + l] + [ri];
    }
  }

  /** sample_fixed_type of the NEON version: the same coefficients as the
      reference sampler, hence the same fixed weight. */
  method SampleFixedType(r: array<u16>, u: seq<u8>)
    requires r.Length >= N
    requires 832 <= |Words(u)| && Indices(Words(u), N - 1).Some?
    modifies r
    ensures r[..N] == FixedType(Words(u))
    ensures FixedWeight(r[..N])
    ensures r[N..] == old(r[N..])
  {
    var w := Words(u);
    ghost var ix := ShuffleIndices(w);
    CursorTableExists(w);
    ghost var cur :| CursorTable(w, cur);
    var shuffle := new int[16];
    var vsi := new u16[16];
    var vsq := D;
    var j := N - 1;
    var c0 := -(N - 1 - WEIGHT);
    var c01 := -(N - 1 - WEIGHT / 2);

    vsq, j := FirstBlock(shuffle, vsi, w, ix, cur, vsq, j);
    c0, c01 := UnrolledBlocks(r, shuffle, vsi, w, ix, cur, vsq, j, c0, c01);

    // Tail: positions N_UNROLL..N-1 from the last stored block.
    AsmTail(r, shuffle, ix, c0, c01);
    r[N - 1] := 0;
    assert r[..N] == r[..N - 1] + [0];
    FixedTypeWeight(w);
  }

  /** The unrolled loop of sample_fixed_type: one block of 16 positions per
      iteration, while the next 16 indices are sampled into vsi. */
  method UnrolledBlocks(r: array<u16>, shuffle: array<int>, vsi: array<u16>, w: seq<u16>, ghost ix: seq<int>,
                        ghost cur: seq<int>, vsqIn: seq<u16>, jIn: int, c0In: int, c01In: int)
    returns (c0: int, c01: int)
    requires r.Length >= N && shuffle.Length == 16 && vsi.Length == 16 && r != vsi
    requires 832 <= |w| && Indices(w, N - 1).Some? && ix == ShuffleIndices(w)
    requires CursorTable(w, cur)
    requires vsqIn == VsqAt(16) && jIn == cur[16]
    requires BlockLanes(shuffle[..], ix, 0)
    requires c0In == -(N - 1 - WEIGHT) && c01In == -(N - 1 - WEIGHT / 2)
    modifies r, shuffle, vsi
    ensures BlockLanes(shuffle[..], ix, N_UNROLL)
    ensures IsoState(ix, N_UNROLL, r[..N_UNROLL], c0, c01)
    ensures r[N..] == old(r[N..])
  {
    ghost var R := r[..];
    var vsq, j := vsqIn, jIn;
    c0, c01 := c0In, c01In;
    assert r[..0] == [];
    var i := 0;
    ghost var blocks := 0;
    while i < N_UNROLL
      invariant 0 <= i <= N_UNROLL && i == 16 * blocks
      invariant vsq == VsqAt(i + 16)
      invariant j == cur[Min(i + 16, N - 1)]
      invariant BlockLanes(shuffle[..], ix, i)
      invariant IsoState(ix, i, r[..i], c0, c01)
      invariant r[N..] == R[N..]
    {
      DivModUnique(i, 16, blocks, 0);
      vsq, j, c0, c01 := NextBlock(r, shuffle, vsi, w, ix, cur, i, j, vsq, c0, c01);
      i := i + 16;
      blocks := blocks + 1;
    }
  }

  /** At the lane of position N - 1 every position is assigned and both
      counters are within int16 range. */
  lemma LastLane(ix: seq<int>, done: seq<int>, c0: int, c01: int)
    requires ValidIndices(ix, N - 1) && |ix| == N - 1
    requires IsoState(ix, N - 1, done, c0, c01)
    ensures -0x8000 <= c0 <= 0 && -0x8000 <= c01 <= 0
    ensures done == AssignIso(ix, N - 1 - WEIGHT, N - 1 - WEIGHT / 2).coeffs
  {
    assert ix[..N - 1] == ix;
    AssignIsoCounts(ix, N - 1, N - 1 - WEIGHT, N - 1 - WEIGHT / 2);
  }

  /** The tail loop of sample_fixed_type: positions N_UNROLL..N-1 from the
      last stored block; the step at the lane of position N - 1 (p = 0) runs
      too, and its coefficient is overwritten afterwards. */
  method AsmTail(r: array<u16>, shuffle: array<int>, ghost ix: seq<int>, c0In: int, c01In: int)
    requires r.Length >= N && shuffle.Length == 16
    requires ValidIndices(ix, N - 1) && |ix| == N - 1
    requires BlockLanes(shuffle[..], ix, N_UNROLL)
    requires IsoState(ix, N_UNROLL, r[..N_UNROLL], c0In, c01In)
    modifies r
    ensures r[..N - 1] == AssignIso(ix, N - 1 - WEIGHT, N - 1 - WEIGHT / 2).coeffs
    ensures r[N..] == old(r[N..])
  {
    var c0, c01 := c0In, c01In;
    var i := N_UNROLL;
    while i < N
      invariant N_UNROLL <= i <= N
      invariant BlockLanes(shuffle[..], ix, N_UNROLL)
      invariant i < N ==> IsoState(ix, i, r[..i], c0, c01)
      invariant i == N ==> r[..N - 1] == AssignIso(ix, N - 1 - WEIGHT, N - 1 - WEIGHT / 2).coeffs
      invariant r[N..] == old(r[N..])
    {
      var p := shuffle[i - N_UNROLL];
      if i < N - 1 {
        AsmLoopStep(ix, i, r[..i], c0, c01, p);
        var (ri, c0', c01') := AsmStep(p, c0, c01);
        r[i] := ri;
        c0, c01 := c0', c01';
        assert r[..i + 1] == r[..i] + [ri];
      } else {
        // The lane of position N - 1: p is 0 and the counters are spent.
        ghost var done := r[..N - 1];
        LastLane(ix, done, c0, c01);
        var (ri, c0', c01') := AsmStep(p, c0, c01);
        r[i] := ri;
        c0, c01 := c0', c01';
        assert r[..N - 1] == done;
      }
      i := i + 1;
    }
  }

  /** One round of the pipelined block loop at i: simd_rejsamplingmod for the
      block at i + 16 into vsi, the asm steps of positions i..i+15 from the
      buffer, then the stores of vsi into the buffer. */
  method NextBlock(r: array<u16>, shuffle: array<int>, vsi: array<u16>, w: seq<u16>, ghost ix: seq<int>,
                   ghost cur: seq<int>, i: int, j: int, vsq: seq<u16>, c0: int, c01: int)
    returns (vsqOut: seq<u16>, jOut: int, c0Out: int, c01Out: int)
    requires r.Length >= N && shuffle.Length == 16 && vsi.Length == 16 && r != vsi
    requires 832 <= |w| && Indices(w, N - 1).Some? && ix == ShuffleIndices(w)
    requires CursorTable(w, cur)
    requires 0 <= i && i % 16 == 0 && i + 16 <= N_UNROLL
    requires vsq == VsqAt(i + 16)
    requires j == cur[i + 16]
    requires BlockLanes(shuffle[..], ix, i)
    requires IsoState(ix, i, r[..i], c0, c01)
    modifies r, shuffle, vsi
    ensures vsqOut == VsqAt(i + 32)
    ensures jOut == cur[Min(i + 32, N - 1)]
    ensures BlockLanes(shuffle[..], ix, i + 16)
    ensures IsoState(ix, i + 16, r[..i + 16], c0Out, c01Out)
    ensures r[i + 16..] == old(r[i + 16..])
  {
    assert Indices(w, i + 16).Some?;
    DivModUnique(i + 16, 16, i / 16 + 1, 0);
    vsqOut, jOut := SimdRejSamplingMod(i + 16, j, vsi, vsq, w);
    assert Indices(w, Min(i + 32, N - 1)).Some?;
    c0Out, c01Out := AsmBlock(r, shuffle, ix, i, c0, c01);
    StoreLanes(shuffle, vsi);
    StoredBlock(shuffle[..], vsi[..], ix, i + 16);
  }

  /** The cursor positions of the reference sampler: cur[k] is where the
      replacement cursor stands after positions 0..k-1.  The facts are
      instantiated only where an Indices term is mentioned. */
  ghost predicate CursorTable(w: seq<u16>, cur: seq<int>)
    requires N - 1 <= |w|
  {
    |cur| == N &&
    forall k {:trigger Indices(w, k)} :: 0 <= k <= N - 1 ==> Indices(w, k).Some? && cur[k] == Indices(w, k).value.1
  }

  lemma CursorTableExists(w: seq<u16>)
    requires N - 1 <= |w| && Indices(w, N - 1).Some?
    ensures exists cur :: CursorTable(w, cur)
  {
    var cur := seq(N, k => if 0 <= k <= N - 1 && Indices(w, k).Some? then Indices(w, k).value.1 else 0);
    forall k | 0 <= k <= N - 1
      ensures Indices(w, k).Some? && cur[k] == Indices(w, k).value.1
    {
      IndicesDown(w, N - 1, k);
    }
    assert CursorTable(w, cur);
  }

  /** The prologue of sample_fixed_type: simd_rejsamplingmod for the block at
      0 and the stores of vsi into the buffer. */
  method FirstBlock(shuffle: array<int>, vsi: array<u16>, w: seq<u16>, ghost ix: seq<int>, ghost cur: seq<int>,
                    vsq: seq<u16>, j: int)
    returns (vsqOut: seq<u16>, jOut: int)
    requires shuffle.Length == 16 && vsi.Length == 16
    requires 832 <= |w| && Indices(w, N - 1).Some? && ix == ShuffleIndices(w)
    requires CursorTable(w, cur)
    requires vsq == D && j == N - 1
    modifies shuffle, vsi
    ensures vsqOut == VsqAt(16)
    ensures jOut == cur[16]
    ensures BlockLanes(shuffle[..], ix, 0)
  {
    assert D == VsqAt(0);
    assert Indices(w, 0).Some?;
    vsqOut, jOut := SimdRejSamplingMod(0, j, vsi, vsq, w);
    assert Indices(w, Min(16, N - 1)).Some?;
    StoreLanes(shuffle, vsi);
    StoredBlock(shuffle[..], vsi[..], ix, 0);
  }
}
