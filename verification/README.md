# NTRU on Arm: sampler, OW-CPA layer, ring conversions and KEM

This project is a Dafny model of the central routines of an NTRU implementation for Arm.
The implementation has a portable C reference and NEON-vectorised variants. The model
covers four groups of routines.

- **The fixed-weight ternary sampler of ntruhps4096821**, reference and NEON versions:
  - `rejsamplingmod`, the rejection sampling of shuffle indices;
  - `sample_fixed_type` in its isochronous and branching forms;
  - `sample_iid_plus`, the conditional sign flip;
  - `sample_fg` and `sample_rm`;
  - the NEON `simd_rejsamplingmod`, with its threshold table, its in-order fixup of rejected
    lanes and the assembly step on negated counters.

  The NEON `sample_fixed_type` is proved to write exactly the coefficients of the
  reference, and both are proved to produce `N-1-WEIGHT` zeros, `WEIGHT/2` ones,
  `WEIGHT/2` twos and a zero last coefficient.
- **The OW-CPA layer.** For ntruhps2048677 this is the ciphertext, r and m checks, key
  generation, encryption and decryption with the `fail` flag composed without branching.
  For ntruhrss701 it is the MODQ form of the r check, the p1/m1 form of the m check, the
  in-place transforms `g := 3*(x-1)*g` and `g := 3*g`, the lift-add and lift-sub loops, and
  the failure flag.
- **The ring routines of ntruhps2048677.**
  - The domain conversions between {0,1,2}, {0,1,q-1} and {0,1,2^16-1}.
  - `poly_Rq_mul`, specified by cyclic convolution modulo q.
  - `poly_S3_mul`.
  - The Newton lift `poly_R2_inv_to_Rq_inv`. It is proved to turn an inverse modulo
    (2, Phi_N) into an inverse modulo (q, Phi_N), the rings NTRU inverts in, with
    Phi_N = 1 + x + ... + x^(N-1). The proof works in the ring of cyclic convolution
    Z[x]/(x^N - 1). There the multiples of Phi_N are exactly the constant multiples of the
    all-ones polynomial, and `1 - a*x' = (1 - a*x)^2` holds. The same lift modulo x^N - 1
    is stated too, but no NTRU key meets its hypothesis: a polynomial whose coefficients
    sum to an even number has no inverse modulo (2, x^N - 1).
- **The CCA2 KEM of ntruhps2048677.**
  - Key generation.
  - Encapsulation, where the key is hashed from `pack(r) || pack(m)`.
  - Decapsulation, where the key is `SHA3-256(rm)` when decryption succeeds and
    `SHA3-256(prf || c)` otherwise, selected by a branch-free conditional move.

How the C is represented:

- **Machine words.** Every C machine word is an `int` in its range. Wrap-around is written
  out with `%`. The operators `&`, `|` and `^` are the recursive functions of `Bits`.
- **Arrays.** Each `poly` is an `array<u16>` of `POLY_N` coefficients. Each byte string is an
  `array<u8>` or a `seq<u8>`.
- **Proof style.** Every loop is a `while` or `for` loop, proved against a function of the old
  array contents.
- **External routines.** Routines the core calls but that are not part of this model are
  function-valued fields of `Primitives.Primitives`:
  - packing and unpacking;
  - `poly_Rq_to_S3`, `poly_mod_3_Phi_n` and `poly_Sq_mul`;
  - `poly_lift_add` and `poly_lift_sub`;
  - the S3 and mod-2 inverses;
  - `sample_fg` and `sample_rm` of this parameter set;
  - `sha3_256`.

  `WellFormed` states the lengths of their results, and that `poly_mod_3_Phi_n` and
  `sample_rm` produce coefficients in {0,1,2}. Random bytes are parameters.
  `sample_iid` is a function parameter of `SampleRef.SampleFg` and `SampleRef.SampleRm`,
  and `poly_lift` of hrss701 is not modelled (see "Left out").

## Model

| member | source | states |
|---|---|---|
| SampleRef.Words | shuffling/ref/ntruhps4096821/sample.c:96 | the uint16 words that `u` is read as are the little-endian pairs of its bytes |
| SampleRef.ScaledBound | shuffling/ref/ntruhps4096821/sample.c:77-89 | `(u*s) >> 16` of a 16-bit word lies in [0, s) |
| SampleRef.RedrawSpec | shuffling/ref/ntruhps4096821/sample.c:83-87 | the fixup loop stops at the first accepted word after `j` and returns its scaled value; every word it passed over was rejected |
| SampleRef.IndicesSpec | shuffling/ref/ntruhps4096821/sample.c:72-90 | index i lies in [0, N-1-i), and the cursor j never drops below N-1 and never passes the end of `u` |
| SampleRef.IndicesPrefix | shuffling/ref/ntruhps4096821/sample.c:72-90 | the first k indices extend the first k-1 by one draw from the cursor the earlier ones left |
| SampleRef.IndicesDown | shuffling/ref/ntruhps4096821/sample.c:72-90 | if k indices can be drawn from `u`, so can any fewer |
| SampleRef.ShuffleIndices | shuffling/ref/ntruhps4096821/sample.c:69-91 | all N-1 indices are in range: index i < N-1-i |
| SampleRef.IndicesPrefixOf | shuffling/ref/ntruhps4096821/sample.c:72-90 | the indices of the first k positions are a prefix of the full index sequence |
| SampleRef.DrawAt | shuffling/ref/ntruhps4096821/sample.c:77-89 | index p is the draw at position p from the cursor that the first p positions leave |
| SampleRef.CursorSkip | shuffling/ref/ntruhps4096821/sample.c:80-87 | positions whose initial word is accepted do not move the replacement cursor j |
| SampleRef.RejSamplingMod | shuffling/ref/ntruhps4096821/sample.c:69-91 | the array written is exactly the index sequence of the rejection sampler, with replacement words taken in order from `u[N-1]` |
| SampleRef.AssignIsoCounts | shuffling/ref/ntruhps4096821/sample.c:99-113 | counter invariant: after a prefix, `c0` zeros, `c01-c0` ones and `(N-1-i)-c01` twos remain to be placed, all non-negative, and the coefficients are trinary |
| SampleRef.AssignIsoStep | shuffling/ref/ntruhps4096821/sample.c:101-113 | one isochronous step writes `2 + t0 + t1` and lowers each counter by one exactly when `p` is below it |
| SampleRef.AssignBranchingStep | shuffling/ref/ntruhps4096821/sample.c:117-134 | one step of the branching variant writes 0, 1 or 2 and decrements `c0` or `c1` |
| SampleRef.IsoBranching | shuffling/ref/ntruhps4096821/sample.c:98-135 | the isochronous and branching assignments produce the same coefficients, because `c01 = c0 + c1` holds throughout |
| SampleRef.FixedTypeWeight | shuffling/ref/ntruhps4096821/sample.c:93-138 | the output has exactly N-1-WEIGHT zeros, WEIGHT/2 ones, WEIGHT/2 twos, and a zero last coefficient |
| SampleRef.SarSign | shuffling/ref/ntruhps4096821/sample.c:106-107 | `x >> 31` of a signed 32-bit value is -1 when it is negative and 0 otherwise |
| SampleRef.IsoCountersBound | shuffling/ref/ntruhps4096821/sample.c:99-113 | the counters stay within `0 <= c0 <= c01 <= N-1-i` |
| SampleRef.IsoLoopStep | shuffling/ref/ntruhps4096821/sample.c:104-112 | the shift-based step of the loop equals the counter step of the isochronous assignment |
| SampleRef.SampleFixedType | shuffling/ref/ntruhps4096821/sample.c:93-138 | the isochronous sampler writes the fixed-type coefficients of the index sequence, of exact weight, and leaves the padding alone |
| SampleRef.SampleFixedTypeBranching | shuffling/ref/ntruhps4096821/sample.c:114-137 | the branching sampler writes the same coefficients as the isochronous one |
| SampleRef.AssignLoop | shuffling/ref/ntruhps4096821/sample.c:99-113 | the isochronous loop stores, position by position, the coefficients of the counter-based assignment of the shuffle indices, and leaves r[N-1] alone |
| SampleRef.AssignLoopBranching | shuffling/ref/ntruhps4096821/sample.c:115-134 | the branching loop stores the coefficients of the three-way comparison against c0 and c0 + c1 |
| SampleRef.SampleFg | shuffling/ref/ntruhps4096821/sample.c:7-18 | for hps, f is the i.i.d. sample of the first bytes, and g is the fixed-type sample of the rest, of exact weight |
| SampleRef.SampleRm | shuffling/ref/ntruhps4096821/sample.c:20-31 | for hps, r is the i.i.d. sample of the first bytes, and m is the fixed-type sample of the rest, of exact weight |
| SampleRef.CopyIid | shuffling/ref/ntruhps4096821/sample.c:15 | the i.i.d. coefficients are stored in the first positions; nothing else changes |
| SampleRef.CorrBound | shuffling/ref/ntruhps4096821/sample.c:49-50 | the lag-1 correlation of k+1 trinary coefficients lies in [-k, k], so it cannot overflow int16 |
| SampleRef.CorrFlipEven | shuffling/ref/ntruhps4096821/sample.c:55-56 | negating the even-indexed coefficients negates the lag-1 correlation |
| SampleRef.IidPlusSpec | shuffling/ref/ntruhps4096821/sample.c:34-61 | the output is trinary; odd-indexed coefficients are unchanged; all even ones are kept, or all are swapped 1<->2, exactly when the correlation is negative; afterwards the correlation `<x*r, r>` is >= 0 |
| SampleRef.SignedMapLane | shuffling/ref/ntruhps4096821/sample.c:45-46 | `c \| -(c >> 1)` maps 0, 1, 2 to 0, 1, 2^16-1 |
| SampleRef.UnsignedMapLane | shuffling/ref/ntruhps4096821/sample.c:59-60 | `3 & (c ^ (c >> 15))` maps 0, 1, 2^16-1 back to 0, 1, 2 |
| SampleRef.ProductStep | shuffling/ref/ntruhps4096821/sample.c:49-50 | the truncated uint16 product accumulates the signed product modulo 2^16 |
| SampleRef.SignWord | shuffling/ref/ntruhps4096821/sample.c:53 | `1 \| -(s >> 15)` is 0xFFFF for a negative sum and 1 otherwise, so sign(0) = 1 |
| SampleRef.SignTimes | shuffling/ref/ntruhps4096821/sample.c:55-56 | multiplying a signed coefficient by the sign word either keeps it or swaps 1<->2 |
| SampleRef.SampleIidPlus | shuffling/ref/ntruhps4096821/sample.c:34-61 | the four in-place passes turn the i.i.d. coefficients into IidPlus of them |
| SampleRef.ToSignedCodes | shuffling/ref/ntruhps4096821/sample.c:44-46 | each coefficient becomes its uint16 signed code |
| SampleRef.CorrelationSign | shuffling/ref/ntruhps4096821/sample.c:48-53 | the sign word is 0xFFFF exactly when the lag-1 correlation is negative |
| SampleRef.CorrelationSum | shuffling/ref/ntruhps4096821/sample.c:48-50 | the uint16 accumulator equals the lag-1 correlation of the signed coefficients modulo 2^16 |
| SampleRef.ProductCode | shuffling/ref/ntruhps4096821/sample.c:50 | the uint16 product of two signed codes is the product of their signs modulo 2^16 |
| SampleRef.NegateEven | shuffling/ref/ntruhps4096821/sample.c:55-56 | the even-indexed pass leaves the signed codes of IidPlus |
| SampleRef.ToTrinaryCodes | shuffling/ref/ntruhps4096821/sample.c:58-60 | the back map restores the trinary coefficients the signed codes stand for |
| VtTable.VtIsThreshold | shuffling/opt_neon/ntruhps4096821/sample.c:135-188 | `vt[i] == 65536 % (N-1-i)` for every sampled position, and 0 for the padding entries up to 831 |
| SampleNeon.LaneProduct | shuffling/opt_neon/ntruhps4096821/sample.c:78-79 | `vmull_u16` / `vmull_high_u16`: the full product of a random word and the lane's s, which fits in 32 bits without wrapping |
| SampleNeon.ToInt16 | shuffling/opt_neon/ntruhps4096821/sample.c:197-198 | `vreinterpretq_s16_u16` before `vst1q_s16`: the int16 in [-2^15, 2^15) congruent to the uint16 lane modulo 2^16 |
| SampleNeon.LowestFrom | shuffling/opt_neon/ntruhps4096821/sample.c:107-113 | the next lane fixed up is the lowest rejected lane at or above the current one |
| SampleNeon.RealLane | shuffling/opt_neon/ntruhps4096821/sample.c:78-101 | in the block starting at i, lane k uses `s = N-1-(i+k)`, rejects exactly as the reference does, and its high half is the reference index |
| SampleNeon.PadLane | shuffling/opt_neon/ntruhps4096821/sample.c:78-101 | padding lanes are never rejected, and the lane of position N-1 has product 0 |
| SampleNeon.VsqNext | shuffling/opt_neon/ntruhps4096821/sample.c:78-94 | `vsq` drops by 8 per half-block, so it is the right multiplier for the next block |
| SampleNeon.NegatedIndex | shuffling/opt_neon/ntruhps4096821/sample.c:83-85 | the uint16 negation read as int16 is the negated index |
| SampleNeon.VectorLanes | shuffling/opt_neon/ntruhps4096821/sample.c:75-101 | every accepted lane holds `-(u*s >> 16)`, the negated reference index |
| SampleNeon.LoadVt | shuffling/opt_neon/ntruhps4096821/sample.c:75-90 | the two threshold vectors loaded for a block are the thresholds of its 16 positions |
| SampleNeon.LoadVtLane | shuffling/opt_neon/ntruhps4096821/sample.c:116-117 | the scalar threshold of a fixup lane is that position's threshold |
| SampleNeon.FixupLane | shuffling/opt_neon/ntruhps4096821/sample.c:114-123 | the scalar fixup of a rejected lane stores the negated reference index and advances j as the reference does |
| SampleNeon.RejectedDraw | shuffling/opt_neon/ntruhps4096821/sample.c:114-123 | for a rejected lane, the reference redraw from cursor j gives that position's index |
| SampleNeon.RejectedFrom | shuffling/opt_neon/ntruhps4096821/sample.c:103-105 | the rejection mask is the set of rejected lanes |
| SampleNeon.SimdRejSamplingMod | shuffling/opt_neon/ntruhps4096821/sample.c:65-131 | after a block, every real lane holds the negated reference index, the padding lane of N-1 holds 0, `vsq` has moved on by 16, and j equals the reference cursor |
| SampleNeon.FixupLanes | shuffling/opt_neon/ntruhps4096821/sample.c:107-128 | the fixup loop repairs all rejected lanes in ascending order from the one shared cursor |
| SampleNeon.FixupFinish | shuffling/opt_neon/ntruhps4096821/sample.c:107-128 | once no rejected lane remains above the current one, the fixup is complete |
| SampleNeon.MaskStep | shuffling/opt_neon/ntruhps4096821/sample.c:110-125 | clearing the lowest set bit of the mask leaves exactly the rejected lanes above it |
| SampleNeon.MaskDone | shuffling/opt_neon/ntruhps4096821/sample.c:108 | an empty mask means no rejected lane remains |
| SampleNeon.FixupStep | shuffling/opt_neon/ntruhps4096821/sample.c:110-126 | one iteration of the fixup handles the lowest rejected lane |
| SampleNeon.SkipAccepted | shuffling/opt_neon/ntruhps4096821/sample.c:107-128 | skipping accepted lanes leaves the reference cursor unchanged |
| SampleNeon.AsmStep | shuffling/opt_neon/ntruhps4096821/sample.c:206-214 | the subs/cinc/add-asr step yields a value in {0,1,2} and moves each negated counter by 0 or 1 |
| SampleNeon.AsmStepIso | shuffling/opt_neon/ntruhps4096821/sample.c:193-214 | on negated counters and a negated index, the asm step gives `r_i = 2 - [p<c0] - [p<c01]` and shrinks each counter's magnitude exactly when the reference decrements it |
| SampleNeon.StoreLanes | shuffling/opt_neon/ntruhps4096821/sample.c:217-218 | the lanes are stored as int16 into `shuffle_indices` |
| SampleNeon.StoredBlock | shuffling/opt_neon/ntruhps4096821/sample.c:197-198 | the stored block holds the negated indices of its positions |
| SampleNeon.AsmLoopStep | shuffling/opt_neon/ntruhps4096821/sample.c:203-215 | one asm step continues the isochronous assignment of the reference |
| SampleNeon.AsmBlock | shuffling/opt_neon/ntruhps4096821/sample.c:203-215 | the 16 asm steps of a block extend the reference coefficients by 16 |
| SampleNeon.SampleFixedType | shuffling/opt_neon/ntruhps4096821/sample.c:133-236 | the NEON sampler writes exactly the reference's fixed-type coefficients (so also their exact weight), and the padding is untouched |
| SampleNeon.AsmTail | shuffling/opt_neon/ntruhps4096821/sample.c:221-233 | the tail loop finishes the reference assignment of positions 0..N-2 |
| SampleNeon.UnrolledBlocks | shuffling/opt_neon/ntruhps4096821/sample.c:200-219 | after the unrolled blocks, positions 0..n_unroll-1 hold the reference assignment, the counters match it, and shuffle_indices holds the last block |
| SampleNeon.LastLane | shuffling/opt_neon/ntruhps4096821/sample.c:221-233 | when the tail reaches position N-1, the positions before it already hold the whole reference assignment and the counters are int16 values |
| SampleNeon.NextBlock | shuffling/opt_neon/ntruhps4096821/sample.c:200-219 | one pipelined iteration samples the next block and assigns the previous one |
| SampleNeon.CursorTableExists | shuffling/opt_neon/ntruhps4096821/sample.c:191 | the reference cursor after each prefix of positions exists |
| SampleNeon.FirstBlock | shuffling/opt_neon/ntruhps4096821/sample.c:190-198 | the first block starts with `vsq = d` and `j = N-1`, and stores the negated reference indices |
| Common.Count | PQC_NEON/neon/ntru/mmap/neon-hps2048677/owcpa.c:51-54 | a count never exceeds the length |
| Common.CountSnoc | PQC_NEON/neon/ntru/mmap/neon-hps2048677/owcpa.c:51-54 | appending one coefficient adds one to its value's count |
| Common.TrinaryCounts | shuffling/ref/ntruhps4096821/sample.c:99-113 | the counts of 0, 1 and 2 in a trinary sequence add up to its length |
| OwcpaHps.CheckCiphertext | PQC_NEON/neon/ntru/mmap/neon-hps2048677/owcpa.c:7-19 | returns 0 or 1, and 0 exactly when the unused high bits of the last ciphertext byte are zero |
| OwcpaHps.PaddingShift | PQC_NEON/neon/ntru/mmap/neon-hps2048677/owcpa.c:14 | for LOGQ*PACK_DEG = 11*676, the shift `8 - (7 & ...)` is 4 |
| OwcpaHps.PaddingMask | PQC_NEON/neon/ntru/mmap/neon-hps2048677/owcpa.c:14-18 | the masked byte is zero exactly when it is below 16, and `(~t+1) >> 15` flags it |
| OwcpaHps.PaddingWord | PQC_NEON/neon/ntru/mmap/neon-hps2048677/owcpa.c:14-18 | masking the last byte keeps its high nibble |
| OwcpaHps.RLaneZero | PQC_NEON/neon/ntru/mmap/neon-hps2048677/owcpa.c:30-31 | both masks of a coefficient in [0, 2^16) are zero exactly when it is 0, 1 or q-1 modulo q; the value 2 is caught by `(c+2)&4` |
| OwcpaHps.RLaneArith | PQC_NEON/neon/ntru/mmap/neon-hps2048677/owcpa.c:30-31 | the same lane condition as shifted quotients |
| OwcpaHps.RStep | PQC_NEON/neon/ntru/mmap/neon-hps2048677/owcpa.c:28-32 | one loop step keeps t zero exactly while the coefficients seen are trinary modulo q |
| OwcpaHps.RMasks | PQC_NEON/neon/ntru/mmap/neon-hps2048677/owcpa.c:28-32 | the loop leaves t zero exactly when every coefficient below N-1 is 0, 1 or -1 modulo q |
| OwcpaHps.CountCodes | PQC_NEON/neon/ntru/mmap/neon-hps2048677/owcpa.c:51-54 | ps counts the 1s and ms is twice the number of 2s |
| OwcpaHps.MessageFlag | PQC_NEON/neon/ntru/mmap/neon-hps2048677/owcpa.c:55-56 | the two ORs leave t zero exactly when ps = ms/2 and ms = WEIGHT |
| OwcpaHps.CheckR | PQC_NEON/neon/ntru/mmap/neon-hps2048677/owcpa.c:21-38 | returns 0 exactly when every `r[i]`, i < N-1, is 0, 1 or q-1 modulo q and `r[N-1] = 0`, and 1 otherwise |
| OwcpaHps.CheckM | PQC_NEON/neon/ntru/mmap/neon-hps2048677/owcpa.c:41-61 | for trinary m, returns 0 exactly when #1s = #2s and #1s + #2s = WEIGHT, and 1 otherwise |
| OwcpaHps.KeyChainInverse | PQC_NEON/neon/ntru/mmap/neon-hps2048677/owcpa.c:103-110 | when `poly_R2_inv` returns an inverse of gf = g*f modulo (2, Phi_N), `(invgf*f)*f*h = 1` modulo (q, Phi_N) with `h = (invgf*g)*g`, so invh inverts h there; likewise modulo (q, x^N - 1) when invgf inverts gf there |
| OwcpaHps.KeyChainSquare | PQC_NEON/neon/ntru/mmap/neon-hps2048677/owcpa.c:103-110 | `(tmp1*f)*h = (invgf*gf)^2` modulo q |
| OwcpaHps.KeypairSample | PQC_NEON/neon/ntru/mmap/neon-hps2048677/owcpa.c:83-87 | f and g come from `sample_fg`, and the secret key starts with pack(f) then pack(S3_inv(f)) |
| OwcpaHps.KeypairLift | PQC_NEON/neon/ntru/mmap/neon-hps2048677/owcpa.c:90-101 | f is lifted to {0,1,q-1}, and g is lifted and multiplied by 3 |
| OwcpaHps.KeypairInvert | PQC_NEON/neon/ntru/mmap/neon-hps2048677/owcpa.c:103-110 | `gf = g*f`, invgf is the Newton lift of R2_inv(gf), `tmp1 = invgf*f`, `tmp2 = invgf*g`, `h = tmp2*g` modulo q, and `invh = Sq_mul(tmp1, f)` |
| OwcpaHps.OwcpaKeypair | PQC_NEON/neon/ntru/mmap/neon-hps2048677/owcpa.c:78-114 | the whole key chain holds; pk is the sum-zero packing of h; sk is pack(f), pack(finv3), pack(invh) at offsets 0, PACK_TRINARY_BYTES, 2*PACK_TRINARY_BYTES |
| OwcpaHps.PackKeys | PQC_NEON/neon/ntru/mmap/neon-hps2048677/owcpa.c:112-113 | pk is packed h, and invh goes at offset 2*PACK_TRINARY_BYTES of sk with the other bytes kept |
| OwcpaHps.OwcpaEnc | PQC_NEON/neon/ntru/mmap/neon-hps2048677/owcpa.c:123-135 | `ct = r*h` modulo q for the unpacked h, and c is the packing of `lift_add(ct, m)` |
| OwcpaHps.DecryptM | PQC_NEON/neon/ntru/mmap/neon-hps2048677/owcpa.c:159-167 | `cf = c*lift(f)` modulo q, and `m = S3_mul(Rq_to_S3(cf), finv3)` |
| OwcpaHps.RecoverR | PQC_NEON/neon/ntru/mmap/neon-hps2048677/owcpa.c:182-188 | `r = Sq_mul(lift_sub(c, m), invh)` |
| OwcpaHps.DecMessage | PQC_NEON/neon/ntru/mmap/neon-hps2048677/owcpa.c:159-181 | pack(m) goes at offset PACK_TRINARY_BYTES of rm, and fail = check_ciphertext \| check_m |
| OwcpaHps.PackF | PQC_NEON/neon/ntru/mmap/neon-hps2048677/owcpa.c:85-87 | the secret key starts with pack(f) then pack(S3_inv(f)); the rest is unchanged |
| OwcpaHps.PackR | PQC_NEON/neon/ntru/mmap/neon-hps2048677/owcpa.c:203-204 | pack of the Z3 form of r goes at offset 0 of rm; the second half is unchanged |
| OwcpaHps.DecRandomness | PQC_NEON/neon/ntru/mmap/neon-hps2048677/owcpa.c:182-204 | r is recovered, fail also records check_r, and pack(Z3 form of r) goes at offset 0 |
| OwcpaHps.OwcpaDec | PQC_NEON/neon/ntru/mmap/neon-hps2048677/owcpa.c:151-207 | rm is always pack(r) \|\| pack(m), whatever fail is; fail is 0 exactly when the padding is clear, m is in the message space and r is valid, and is 1 otherwise; every check runs |
| OwcpaHrss.ShiftedTrinary | PQC_NEON/neon/ntru/mmap/neon-hrss701/owcpa.c:15 | `MODQ(x+1) <= 2` exactly when x is 0, 1 or -1 modulo q |
| OwcpaHrss.HighMask | PQC_NEON/neon/ntru/mmap/neon-hrss701/owcpa.c:16 | `c & (q-4)` is zero exactly when c < 4 |
| OwcpaHrss.LowMask | PQC_NEON/neon/ntru/mmap/neon-hrss701/owcpa.c:17 | for c < 4, `(c+1) & 4` is zero exactly when c <= 2 |
| OwcpaHrss.LaneMasks | PQC_NEON/neon/ntru/mmap/neon-hrss701/owcpa.c:16-17 | both masks are zero exactly when c is in {0,1,2} |
| OwcpaHrss.RStep | PQC_NEON/neon/ntru/mmap/neon-hrss701/owcpa.c:13-18 | one loop step keeps t zero exactly while the coefficients seen are trinary modulo q |
| OwcpaHrss.RMasks | PQC_NEON/neon/ntru/mmap/neon-hrss701/owcpa.c:13-18 | the loop leaves t zero exactly when every coefficient is 0, 1 or -1 modulo q |
| OwcpaHrss.RLast | PQC_NEON/neon/ntru/mmap/neon-hrss701/owcpa.c:19 | ORing `MODQ(r[N-1])` keeps t zero exactly when that coefficient is 0 modulo q |
| OwcpaHrss.CountCodes | PQC_NEON/neon/ntru/mmap/neon-hrss701/owcpa.c:33-37 | p1 counts the 1s and m1 the 2s, and they do not wrap |
| OwcpaHrss.MessageFlag | PQC_NEON/neon/ntru/mmap/neon-hrss701/owcpa.c:39-40 | the two ORs leave t zero exactly when p1 = m1 and p1 + m1 = WEIGHT |
| OwcpaHrss.CheckR | PQC_NEON/neon/ntru/mmap/neon-hrss701/owcpa.c:6-22 | for any 16-bit coefficients, returns 0 exactly when `r[i] mod q` is in {0,1,q-1} for all i < N and `r[N-1] mod q = 0`, and 1 otherwise |
| OwcpaHrss.CheckM | PQC_NEON/neon/ntru/mmap/neon-hrss701/owcpa.c:25-43 | returns 0 exactly when p1 = m1 and p1 + m1 = WEIGHT, which is the same message-space predicate as OwcpaHps.CheckM |
| OwcpaHrss.TransformG | PQC_NEON/neon/ntru/mmap/neon-hrss701/owcpa.c:82-93 | hps: `g = 3*g`; hrss: the descending loop gives `3*(x-1)*g` modulo 2^16, which is the ring product when `g[N-1] = 0` |
| OwcpaHrss.DecFail | PQC_NEON/neon/ntru/mmap/neon-hrss701/owcpa.c:184-209 | fail is check_m \| check_r under hps and check_r alone under hrss, in {0,1}, and computed without a branch on earlier results |
| Transforms.Word16 | PQC_NEON/neon/ntru/mmap/neon-hrss701/owcpa.c:85 | storing into a uint16 coefficient keeps the value modulo 2^16 |
| Transforms.Mul3 | PQC_NEON/neon/ntru/mmap/neon-hrss701/owcpa.c:91-92 | `g[i] = 3*g[i]` modulo 2^16 for i < n; nothing else changes |
| Transforms.Mul3XMinus1 | PQC_NEON/neon/ntru/mmap/neon-hrss701/owcpa.c:84-86 | the descending loop gives `3*(g[i-1]-g[i])` from the original values and `g[0] = -3*g[0]`; nothing else changes |
| Transforms.AddLift | PQC_NEON/neon/ntru/mmap/neon-hrss701/owcpa.c:133-134 | `ct[i] = ct[i] + liftm[i]` modulo 2^16 for i < n; no other coefficient changes |
| Transforms.SubLift | PQC_NEON/neon/ntru/mmap/neon-hrss701/owcpa.c:191-192 | `b[i] = c[i] - liftm[i]` modulo 2^16 for i < n |
| Transforms.ConvX | PQC_NEON/neon/ntru/mmap/neon-hrss701/owcpa.c:83-86 | multiplying by x rotates the coefficients by one |
| Transforms.Times3XMinus1Coeffs | PQC_NEON/neon/ntru/mmap/neon-hrss701/owcpa.c:83-86 | the coefficients of `3*(x-1)*g` in the ring are `3*g[i-1] - 3*g[i]`, wrapping at 0 |
| Transforms.Times3XMinus1IsProduct | PQC_NEON/neon/ntru/mmap/neon-hrss701/owcpa.c:83-86 | with `g[N-1] = 0`, the loop result equals the ring product `3*(x-1)*g` modulo 2^16 |
| Transforms.Times3XMinus1At | PQC_NEON/neon/ntru/mmap/neon-hrss701/owcpa.c:84-86 | the same, coefficient by coefficient |
| Transforms.Scale3IsProduct | PQC_NEON/neon/ntru/mmap/neon-hrss701/owcpa.c:90-92 | `3*g` coefficient-wise equals the ring product by 3 modulo 2^16 |
| Transforms.AddSubAreRing | PQC_NEON/neon/ntru/mmap/neon-hrss701/owcpa.c:133-134 | the add and subtract loops compute `a+b` and `a-b` in the ring modulo 2^16 |
| Transforms.SubUndoesAdd | PQC_NEON/neon/ntru/mmap/neon-hrss701/owcpa.c:189-192 | subtracting the lift of m undoes adding it |
| Poly.Lookup | vector-polymul-ntru-ntrup/ntruhps2048677/stack/aarch64_tmvp/poly.c:26-27 | `vqtbl1q_u8` on one byte: an index below 16 reads the table, an index of 16 or more gives 0 |
| Poly.Trn1Lanes | vector-polymul-ntru-ntrup/ntruhps2048677/stack/aarch64_tmvp/poly.c:28 | `vtrn1q_u8(lo, hi)` read as uint16 lanes: lane j has low byte lo[2j] and high byte hi[2j] (the even bytes of lo and hi interleaved) |
| Poly.ZqOfZ3 | vector-polymul-ntru-ntrup/ntruhps2048677/stack/aarch64_tmvp/poly.c:6-12 | the two table lookups of a lane map 0, 1, 2 to 0, 1, q-1; out-of-range bytes give 0 |
| Poly.VectorStep | vector-polymul-ntru-ntrup/ntruhps2048677/stack/aarch64_tmvp/poly.c:25-29 | the tbl/trn1 sequence on 8 lanes maps each lane as ZqOfZ3 |
| Poly.Z3ToZq | vector-polymul-ntru-ntrup/ntruhps2048677/stack/aarch64_tmvp/poly.c:15-32 | every one of the POLY_N coefficients is mapped in place: {0,1,2} -> {0,1,q-1} |
| Poly.SignedOfZ3 | vector-polymul-ntru-ntrup/ntruhps2048677/stack/aarch64_tmvp/poly.c:38 | `c \| -(c >> 1)` maps 0, 1, 2 to 0, 1, 2^16-1 |
| Poly.SignedLane | vector-polymul-ntru-ntrup/ntruhps2048677/stack/aarch64_tmvp/poly.c:38 | the bit form of that map agrees with the sampler's signed codes |
| Poly.Z3ToSignedZ3 | vector-polymul-ntru-ntrup/ntruhps2048677/stack/aarch64_tmvp/poly.c:35-40 | 0 -> 0, 1 -> 1, 2 -> 2^16-1 in place for i < N; the padding is kept |
| Poly.SignedLiftModQ | vector-polymul-ntru-ntrup/ntruhps2048677/stack/aarch64_tmvp/poly.c:15-40 | the signed form and the {0,1,q-1} form of a trinary poly are congruent modulo q |
| Poly.Z3OfZq | vector-polymul-ntru-ntrup/ntruhps2048677/stack/aarch64_tmvp/poly.c:46-47 | coefficients congruent to 0, 1, q-1 modulo q map to 0, 1, 2 |
| Poly.Z3OfZqLane | vector-polymul-ntru-ntrup/ntruhps2048677/stack/aarch64_tmvp/poly.c:46-47 | the MODQ and xor-shift of one coefficient give a value in 0..3, and map residues 0, 1, q-1 to 0, 1, 2 |
| Bits.Sar | shuffling/ref/ntruhps4096821/sample.c:106-107 | `x >> k` on a signed value rounds down: `2^k * r <= x < 2^k * (r + 1)` |
| Bits.Neg16 | vector-polymul-ntru-ntrup/ntruhps2048677/stack/aarch64_tmvp/poly.c:38 | uint16 negation `-(c >> 1)`: r + t is 0 or 2^16 |
| Bits.Neg32 | PQC_NEON/neon/ntru/mmap/neon-hps2048677/owcpa.c:37 | uint32 `~t + 1`: a word in [0, 2^32) with r + t equal to 0 or 2^32 |
| Bits.Neg64 | PQC_NEON/neon/ntru/mmap/neon-hrss701/owcpa.c:20 | uint64 `-t`: a word in [0, 2^64) with r + t equal to 0 or 2^64 |
| Bits.ModMask | vector-polymul-ntru-ntrup/ntruhps2048677/stack/aarch64_tmvp/poly.c:59 | MODQ, the mask with q-1 for a power of two q, is reduction modulo q |
| Poly.TrinaryZqToZ3 | vector-polymul-ntru-ntrup/ntruhps2048677/stack/aarch64_tmvp/poly.c:43-49 | the in-place map of the first N coefficients; the padding is kept |
| Poly.Z3ZqRoundTrip | vector-polymul-ntru-ntrup/ntruhps2048677/stack/aarch64_tmvp/poly.c:15-49 | `poly_trinary_Zq_to_Z3` is a left inverse of `poly_Z3_to_Zq` on {0,1,2} |
| Poly.ReduceQ | vector-polymul-ntru-ntrup/ntruhps2048677/stack/aarch64_tmvp/poly.c:58-60 | MODQ of each coefficient lies in [0,q) and is congruent to it |
| Poly.WrapKeepsModQ | vector-polymul-ntru-ntrup/ntruhps2048677/stack/aarch64_tmvp/poly.c:64-80 | uint16 wrap-around preserves residues modulo q = 2048 |
| Poly.Wrap16 | vector-polymul-ntru-ntrup/ntruhps2048677/stack/aarch64_tmvp/poly.c:64-80 | the uint16 image of an integer polynomial is congruent to it modulo q |
| Poly.ReduceCongruent | vector-polymul-ntru-ntrup/ntruhps2048677/stack/aarch64_tmvp/poly.c:57-60 | reducing any representative of a product modulo q gives the same canonical coefficients |
| Poly.RqMul | vector-polymul-ntru-ntrup/ntruhps2048677/stack/aarch64_tmvp/poly.c:64-80 | r is the cyclic convolution of a and b modulo q, and `b[N..N+2]` is zeroed as a side effect |
| Poly.S3Mul | vector-polymul-ntru-ntrup/ntruhps2048677/stack/aarch64_tmvp/poly.c:51-62 | r is `mod_3_Phi_n` of the product, with every coefficient first reduced modulo q |
| Poly.ReduceCoeffs | vector-polymul-ntru-ntrup/ntruhps2048677/stack/aarch64_tmvp/poly.c:58-60 | the loop reduces each of the first N coefficients modulo q and keeps the padding |
| Poly.LiftRound | vector-polymul-ntru-ntrup/ntruhps2048677/stack/aarch64_tmvp/poly.c:99-105 | one round `c = x*b; c[0] += 2; y = c*x` computes the Newton step `x*(2 - a*x)` modulo q |
| Poly.RoundCongruences | vector-polymul-ntru-ntrup/ntruhps2048677/stack/aarch64_tmvp/poly.c:99-101 | with b = -a, adding 2 to coefficient 0 of x*b and multiplying by x is the Newton step |
| Poly.RoundPrecision | vector-polymul-ntru-ntrup/ntruhps2048677/stack/aarch64_tmvp/poly.c:97-113 | if `x*a = 1` modulo (2^k, Phi_N), the round gives `y*a = 1` modulo (2^(2k), Phi_N), up to q; the same modulo x^N - 1 |
| Poly.LiftChain | vector-polymul-ntru-ntrup/ntruhps2048677/stack/aarch64_tmvp/poly.c:97-113 | four rounds are NewtonIter 4; an inverse modulo (2, Phi_N) becomes one modulo (q, Phi_N), and likewise modulo x^N - 1 |
| Poly.NegModQ | vector-polymul-ntru-ntrup/ntruhps2048677/stack/aarch64_tmvp/poly.c:89-91 | `b = MODQ(-a)` is -a modulo q |
| Poly.R2InvToRqInv | vector-polymul-ntru-ntrup/ntruhps2048677/stack/aarch64_tmvp/poly.c:82-114 | r is four Newton rounds from ai; if ai inverts a modulo (2, Phi_N) then r inverts a modulo (q, Phi_N), and likewise modulo x^N - 1 |
| Poly.RqInv | vector-polymul-ntru-ntrup/ntruhps2048677/stack/aarch64_tmvp/poly.c:116-120 | the Newton lift of `R2_inv(a)`; when that inverts a modulo (2, Phi_N), r inverts a modulo (q, Phi_N), and likewise modulo x^N - 1 |
| Ring.SumSwap | vector-polymul-ntru-ntrup/ntruhps2048677/stack/aarch64_tmvp/poly.c:64-80 | the double sum over rows equals the double sum over columns |
| Ring.ConvLinLeft | vector-polymul-ntru-ntrup/ntruhps2048677/stack/aarch64_tmvp/poly.c:64-80 | the ring product distributes over linear combinations on the left |
| Ring.ConvLinRight | vector-polymul-ntru-ntrup/ntruhps2048677/stack/aarch64_tmvp/poly.c:64-80 | and on the right |
| Ring.ConvOneLeft | vector-polymul-ntru-ntrup/ntruhps2048677/stack/aarch64_tmvp/poly.c:64-80 | 1 is a left unit |
| Ring.ConvOneRight | vector-polymul-ntru-ntrup/ntruhps2048677/stack/aarch64_tmvp/poly.c:64-80 | 1 is a right unit |
| Ring.ConvAssoc | vector-polymul-ntru-ntrup/ntruhps2048677/stack/aarch64_tmvp/poly.c:64-80 | cyclic convolution is associative |
| Ring.ConvComm | vector-polymul-ntru-ntrup/ntruhps2048677/stack/aarch64_tmvp/poly.c:64-80 | cyclic convolution is commutative |
| Ring.ConvSwap | PQC_NEON/neon/ntru/mmap/neon-hps2048677/owcpa.c:103-110 | `(a*b)*(c*d) = (a*c)*(b*d)`, which rearranges the key products |
| Ring.ConvDvd | vector-polymul-ntru-ntrup/ntruhps2048677/stack/aarch64_tmvp/poly.c:82-114 | a product of multiples of m1 and m2 is a multiple of m1*m2 |
| Ring.ConvCongr | vector-polymul-ntru-ntrup/ntruhps2048677/stack/aarch64_tmvp/poly.c:64-80 | the product respects congruence modulo m |
| Ring.NewtonIdentity | vector-polymul-ntru-ntrup/ntruhps2048677/stack/aarch64_tmvp/poly.c:87-88 | `(2 - p)*p = 1 - (1 - p)^2`, so `1 - a*x' = (1 - a*x)^2` |
| Ring.NewtonStep | vector-polymul-ntru-ntrup/ntruhps2048677/stack/aarch64_tmvp/poly.c:87-88 | if `x*a = 1` modulo m, a congruent copy of the Newton step inverts a modulo m^2 (or any divisor) |
| Ring.NewtonProduct | vector-polymul-ntru-ntrup/ntruhps2048677/stack/aarch64_tmvp/poly.c:87-88 | a copy of the Newton step congruent modulo q, times a, is congruent to (2 - x*a) * (x*a) |
| Ring.NewtonResidue | vector-polymul-ntru-ntrup/ntruhps2048677/stack/aarch64_tmvp/poly.c:87-88 | if p = 1 modulo m, then (2 - p) * p = 1 modulo every divisor of m^2 |
| Ring.NewtonDoubling | vector-polymul-ntru-ntrup/ntruhps2048677/stack/aarch64_tmvp/poly.c:87-88 | Newton doubles the precision: modulo 2^k becomes modulo 2^(2k) |
| Ring.EqModPhiOfShift | vector-polymul-ntru-ntrup/ntruhps2048677/stack/aarch64_tmvp/poly.c:116-120 | a difference that is a constant multiple of Phi_N modulo m is a congruence modulo (m, Phi_N) |
| Ring.EqModToPhi | vector-polymul-ntru-ntrup/ntruhps2048677/stack/aarch64_tmvp/poly.c:116-120 | congruence modulo m implies congruence modulo (m, Phi_N) |
| Ring.EqModPhiTrans | vector-polymul-ntru-ntrup/ntruhps2048677/stack/aarch64_tmvp/poly.c:116-120 | congruence modulo (m, Phi_N) is transitive |
| Ring.EqModPhiWeaken | vector-polymul-ntru-ntrup/ntruhps2048677/stack/aarch64_tmvp/poly.c:116-120 | congruence modulo (m, Phi_N) holds modulo (d, Phi_N) for each divisor d of m |
| Ring.ConvOnes | vector-polymul-ntru-ntrup/ntruhps2048677/stack/aarch64_tmvp/poly.c:64-80 | `v*Phi_N = Phi_N*v = Sum(v)*Phi_N` in the cyclic ring |
| Ring.ConvShiftAt | vector-polymul-ntru-ntrup/ntruhps2048677/stack/aarch64_tmvp/poly.c:64-80 | adding constant multiples of Phi_N to both factors adds a constant to every coefficient of the product |
| Ring.ConvCongrPhi | vector-polymul-ntru-ntrup/ntruhps2048677/stack/aarch64_tmvp/poly.c:64-80 | the product respects congruence modulo (m, Phi_N) |
| Ring.NewtonResiduePhi | vector-polymul-ntru-ntrup/ntruhps2048677/stack/aarch64_tmvp/poly.c:87-88 | if p = 1 modulo (m, Phi_N), then (2 - p) * p = 1 modulo (d, Phi_N) for every divisor d of m^2 |
| Ring.SquarePhi | vector-polymul-ntru-ntrup/ntruhps2048677/stack/aarch64_tmvp/poly.c:87-88 | if e is a constant multiple of Phi_N modulo m, then `1 - e^2 = 1` modulo (d, Phi_N) for every divisor d of m^2 |
| Ring.NewtonStepPhi | vector-polymul-ntru-ntrup/ntruhps2048677/stack/aarch64_tmvp/poly.c:87-88 | if `x*a = 1` modulo (m, Phi_N), a copy of the Newton step congruent modulo q inverts a modulo (d, Phi_N), for d dividing q and m^2 |
| Ring.NewtonDoublingPhi | vector-polymul-ntru-ntrup/ntruhps2048677/stack/aarch64_tmvp/poly.c:87-88 | modulo Phi_N too, Newton doubles the precision from 2^k to 2^(2k) |
| Ring.SumConv | vector-polymul-ntru-ntrup/ntruhps2048677/stack/aarch64_tmvp/poly.c:64-80 | the coefficient sum of a product is the product of the coefficient sums |
| Ring.TermsColumn | vector-polymul-ntru-ntrup/ntruhps2048677/stack/aarch64_tmvp/poly.c:64-80 | the terms a[j]*b[i-j] over all i sum to a[j]*Sum(b) |
| Ring.CyclicInverseParity | vector-polymul-ntru-ntrup/ntruhps2048677/stack/aarch64_tmvp/poly.c:116-120 | a polynomial whose coefficient sum is a multiple of m has no inverse modulo (m, x^N - 1), which is why the inverses are stated modulo Phi_N |
| Ring.NewtonCongr | vector-polymul-ntru-ntrup/ntruhps2048677/stack/aarch64_tmvp/poly.c:97-113 | Newton steps from congruent starts give congruent results |
| Kem.KemKeypair | vector-polymul-ntru-ntrup/ntruhps2048677/stack/aarch64_tmvp/kem.c:10-19 | pk and the first OWCPA_SECRETKEYBYTES of sk come from owcpa_keypair, the PRF key fills the rest of sk, and the result is 0 |
| Kem.KemEnc | vector-polymul-ntru-ntrup/ntruhps2048677/stack/aarch64_tmvp/kem.c:21-38 | `k = SHA3-256(pack(r) \|\| pack(m))` with r in {0,1,2}; c encrypts m under pk with `r*h` modulo q; the result is 0 |
| Kem.HashMessage | vector-polymul-ntru-ntrup/ntruhps2048677/stack/aarch64_tmvp/kem.c:30-32 | k is the hash of the two packed polynomials, concatenated |
| Kem.FallbackInput | vector-polymul-ntru-ntrup/ntruhps2048677/stack/aarch64_tmvp/kem.c:52-57 | buf is exactly the PRF key (the tail of sk) followed by the whole ciphertext |
| Kem.CMov | vector-polymul-ntru-ntrup/ntruhps2048677/stack/aarch64_tmvp/kem.c:60 | with flag 1 the first len bytes of x replace those of r; with flag 0 r is unchanged |
| Kem.CandidateKeys | vector-polymul-ntru-ntrup/ntruhps2048677/stack/aarch64_tmvp/kem.c:49-58 | k is `H(rm)`, and the first 32 bytes of rm become `H(prf \|\| c)` |
| Kem.KemDec | vector-polymul-ntru-ntrup/ntruhps2048677/stack/aarch64_tmvp/kem.c:40-63 | the key is `H(pack(r) \|\| pack(m))` of what owcpa_dec recovers when fail = 0, and `H(prf \|\| c)` when fail = 1; it reads no randomness and returns 0 |

## Left out

- Routines whose source is not part of this model are fields of `Primitives.Primitives`, constrained only by `WellFormed`. These are the pack and unpack routines, `poly_S3_inv`, `poly_R2_inv`, `poly_mod_3_Phi_n`, `poly_Sq_mul`, `poly_Rq_to_S3`, `poly_lift_add`, `poly_lift_sub`, the `sample_fg` and `sample_rm` of ntruhps2048677, and `sha3_256`. Their own behaviour (for example that packing inverts unpacking) is not modelled.
- `sample_iid` is not part of this model. It is the function parameter `iid` of `SampleRef.SampleFg` and `SampleRef.SampleRm`, constrained only to return N coefficients.
- `poly_lift` (hrss701 owcpa.c, lines 132 and 190) is not modelled: the hrss701 call sequences are covered only through their loops, and `Transforms.AddLift` and `Transforms.SubLift` take the lifted m as an input array.
- `randombytes` is a parameter: the seed and PRF bytes are inputs of `Kem.KemKeypair` and `Kem.KemEnc`.
- `cmov.c` is not part of this model. `Kem.CMov` specifies it as a select on the flag and is written as a branch-free blend.
- `params.h` is not part of this model. The byte sizes in `Params` follow the standard NTRU formulas for ntruhps2048677, and `Poly.POLY_N` is assumed to be 704 (N = 677 rounded up to a multiple of 32), a value the TMVP `poly.c` only uses as a loop bound.
- Poly.RqMul: the Toom-Cook/TMVP internals (`F_L`, `F_R`, `F_MUL`, `F_I`) are left out. The result is stated only up to congruence modulo q with the cyclic convolution, not as particular uint16 values.
- Poly.RqInv: the inverse is promised modulo (q, Phi_N) only under the hypothesis that `poly_R2_inv` returns an inverse of a modulo (2, Phi_N). `poly_R2_inv` is not part of this model, and that its input is invertible is not proved. The companion statement modulo x^N - 1 is kept, but its hypothesis fails for every a whose coefficient sum is even (`Ring.CyclicInverseParity`).
- Poly.R2InvToRqInv: the same restriction. The lift is proved for any ai that inverts a modulo (2, Phi_N); which ai the caller passes is not modelled.
- Poly.LiftChain: the same restriction, for the four round results given as sequences.
- OwcpaHps.KeyChainInverse: invh is proved to invert h modulo (q, Phi_N) when `poly_R2_inv` inverts gf modulo (2, Phi_N). That the sampled f and g make gf invertible there is not proved.
- Kem.KemDec: the key is a function of `(c, sk)` only up to that congruence. The ghost intermediate `cf` is fixed modulo q, but not as exact uint16 words.
- Decryption correctness of NTRU as a whole (that decrypting an honest encryption recovers (r, m)) is not proved. It depends on the modular-3 routines and the size bounds that are left out above.
- Constant-time behaviour and the distribution of the samples are not modelled. The model states only the values that the bit tricks compute.
- Exhaustion of the random buffer in the rejection loop is not modelled. The samplers require `Indices(Words(u), N - 1).Some?`, meaning enough acceptable words remain.
- Register-level NEON and assembly detail is not modelled. This covers `vuzp`, `vshrn`, the bit positions from `__rbitll` and `__builtin_clzl`, and flag semantics. Lanes are sequence positions, the rejection mask is a set of lanes, and the asm step is its integer meaning (`SampleNeon.AsmStep`).
- `polyhps_mul3` (owcpa.c of hps2048677, line 100) is not part of this model. The hps transform of g is modelled by the portable loop `g[i] = 3*g[i]` of the hrss701 file (`Transforms.Mul3`).
- The ntruhrss701 call sequences of `owcpa_keypair`, `owcpa_enc` and `owcpa_dec` are modelled only through their loops and checks (`OwcpaHrss.TransformG`, `Transforms.AddLift`, `Transforms.SubLift`, `OwcpaHrss.DecFail`). The ring routines are modelled for N = 677 only.
- `sample_iid_plus` is modelled once, for any length n >= 2 (`SampleRef.SampleIidPlus`). The NEON file's copy is the same code, and both are compiled only for hrss.
- The sampler is modelled for ntruhps4096821, the KEM and ring routines for ntruhps2048677. `OwcpaHps.KeypairSample` and `Kem.KemEnc` take `sample_fg` and `sample_rm` of the KEM's parameter set as `Primitives` fields.
- The process-global scratch polynomials, allocated by constructor functions, are modelled as local arrays. Their aliasing and reuse across calls are not modelled.
- The return value of `crypto_kem_keypair` and `crypto_kem_enc` is modelled as the constant 0. Failure of `randombytes` is not modelled.
