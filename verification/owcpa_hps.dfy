// The OW-CPA layer of ntruhps2048677 in the NEON build (owcpa.c): the three
// validity checks whose results decryption ORs into its failure flag, and
// key generation, encryption and decryption as the call sequences that fill
// the key, ciphertext and message byte strings.
//
// The routines this file calls but does not define (packing, the S3 and
// mod-2 inverses, poly_Rq_to_S3, poly_Sq_mul, the lift, the sampler of this
// parameter set) are fields of a Primitives value.

module OwcpaHps {
  import opened Bits
  import opened Common
  import opened Ring
  import opened Poly
  import opened Params
  import opened Primitives
  import opened Transforms

  // -------------------------------------------------------------------------
  // owcpa_check_ciphertext

  /** The last ciphertext byte holds LOGQ * PACK_DEG mod 8 payload bits; the
      bits above them are zero. */
  predicate PaddingClear(ct: seq<u8>)
    requires |ct| == CIPHERTEXTBYTES
  {
    ct[CIPHERTEXTBYTES - 1] < Pow2((LOGQ * PACK_DEG) % 8)
  }

  /** owcpa_check_ciphertext: keeps the bits of the last byte above the
      payload (`0xff << (8 - (7 & (LOGQ * PACK_DEG)))`) and turns "nonzero"
      into 1 through the sign of `~t + 1` shifted right by 15. */
  function CheckCiphertext(ct: seq<u8>): (fail: int)
    requires |ct| == CIPHERTEXTBYTES
    ensures fail == 0 || fail == 1
    ensures fail == 0 <==> PaddingClear(ct)
  {
    PaddingShift();
    PaddingMask(ct[CIPHERTEXTBYTES - 1]);
    var t := And(ct[CIPHERTEXTBYTES - 1], 0xff * Pow2(8 - And(7, LOGQ * PACK_DEG)));
    Sar(-(t as int), 15) % 2
  }

  /** 11 * 676 = 7436 bits fill the last byte up to 4 bits: the mask is 0xff << 4. */
  lemma PaddingShift()
    ensures 8 - And(7, LOGQ * PACK_DEG) == 4 && (LOGQ * PACK_DEG) % 8 == 4
    ensures Pow2(8 - And(7, LOGQ * PACK_DEG)) == 16 && Pow2((LOGQ * PACK_DEG) % 8) == 16
  {
    assert Pow2(3) == 8 && Pow2(4) == 16;
    AndLowMask(LOGQ * PACK_DEG, 3);
    AndComm(7, LOGQ * PACK_DEG);
  }

  /** `b & 0xff0` is zero exactly when b < 16, and `1 & ((~t + 1) >> 15)` is its
      nonzero flag. */
  lemma PaddingMask(b: u8)
    ensures And(b, 0xff0) < 0x1000 && (And(b, 0xff0) == 0 <==> b < 16)
    ensures Sar(-(And(b, 0xff0) as int), 15) % 2 == (if b < 16 then 0 else 1)
  {
    PaddingWord(b);
    assert Pow2(15) == 0x8000;
    var t: int := 16 * (b / 16);
    if b >= 16 {
      DivModUnique(-t, 0x8000, -1, 0x8000 - t);
    }
  }

  /** `b & 0xff0` keeps the high nibble of a byte. */
  lemma PaddingWord(b: u8)
    ensures And(b, 0xff0) == 16 * (b / 16)
  {
    AndTimes16(b, 0xff);
    var h := b / 16;
    assert Pow2(8) == 0x100;
    AndLowMask(h, 8);
    DivModUnique(h, 0x100, 0, h);
  }

  // -------------------------------------------------------------------------
  // owcpa_check_r

  /** r is a valid message polynomial: trinary modulo q below N-1, and the last
      coefficient zero. */
  predicate ValidR(r: seq<int>)
    requires |r| == N
  {
    (forall k :: 0 <= k < N - 1 ==> TrinaryMod(r[k], Q)) && r[N - 1] == 0
  }

  /** The two masks of owcpa_check_r are both zero exactly on coefficients that
      are 0, 1 or -1 modulo q, whatever the rest of the 16-bit word holds. */
  lemma RLaneZero(c: u16)
    ensures And(c + 1, Q - 4) < W16 && And(c + 2, 4) < W16
    ensures And(c + 1, Q - 4) == 0 && And(c + 2, 4) == 0 <==> TrinaryMod(c, Q)
  {
    AndBound(c + 1, Q - 4);
    AndBound(c + 2, 4);
    AndTimes4(c + 1, 511);
    AndTimes4(c + 2, 1);
    LowMasks((c + 1) / 4, (c + 2) / 4);
    RLaneArith(c);
  }

  /** `x & 511` is x mod 512 and `y & 1` is y mod 2. */
  lemma LowMasks(x: nat, y: nat)
    ensures And(x, 511) == x % 512 && And(y, 1) == y % 2
  {
    assert Pow2(1) == 2 && Pow2(9) == 512;
    AndLowMask(x, 9);
    AndLowMask(y, 1);
  }

  lemma RLaneArith(c: int)
    requires 0 <= c < W16
    ensures ((c + 1) / 4) % 512 == 0 && ((c + 2) / 4) % 2 == 0 <==> TrinaryMod(c, Q)
  {
    var h, l := c / Q, c % Q;
    DivModUnique(c + 1, 4, 512 * h + (l + 1) / 4, (l + 1) % 4);
    DivModUnique(c + 2, 4, 512 * h + (l + 2) / 4, (l + 2) % 4);
    ModShift((l + 1) / 4, 512, h);
    ModShift((l + 2) / 4, 2, 256 * h);
    if (l + 1) / 4 == 0 {
      assert l <= 2;
    } else if (l + 1) / 4 == 512 {
      assert l == Q - 1;
    } else {
      assert 0 < (l + 1) / 4 < 512;
    }
  }

  /** One iteration of the owcpa_check_r loop keeps t zero exactly while every
      coefficient seen is trinary modulo q. */
  lemma RStep(t: int, c: u16)
    requires 0 <= t < W16
    ensures var t' := Or(Or(t, And(c + 1, Q - 4)), And(c + 2, 4));
      0 <= t' < W16 && (t' == 0 <==> t == 0 && TrinaryMod(c, Q))
  {
    RLaneZero(c);
    OrWords(t, And(c + 1, Q - 4));
    OrWords(Or(t, And(c + 1, Q - 4)), And(c + 2, 4));
  }

  /** owcpa_check_r: ORs the two masks of every coefficient below N-1 and the
      last coefficient itself into t, then returns the nonzero flag of t. */
  method CheckR(r: array<u16>) returns (fail: int)
    requires r.Length == POLY_N
    ensures fail == (if ValidR(r[..N]) then 0 else 1)
  {
    var t := RMasks(r);
    OrWords(t, r[N - 1]);
    t := Or(t, r[N - 1]);
    NonZeroFlag32(t);
    // 1 & ((~t + 1) >> 31) on a uint32_t t
    fail := (Neg32(t) / 0x8000_0000) % 2;
    assert ValidR(r[..N]) <==> t == 0 by {
      assert forall k :: 0 <= k < N ==> r[..N][k] == r[k];
    }
  }

  /** The loop of owcpa_check_r: t is zero exactly when every coefficient
      below N-1 is trinary modulo q. */
  method RMasks(r: array<u16>) returns (t: int)
    requires r.Length == POLY_N
    ensures 0 <= t < W16
    ensures t == 0 <==> forall k :: 0 <= k < N - 1 ==> TrinaryMod(r[k], Q)
  {
    t := 0;
    var i := 0;
    while i < N - 1
      invariant 0 <= i <= N - 1
      invariant 0 <= t < W16
      invariant t == 0 <==> forall k :: 0 <= k < i ==> TrinaryMod(r[k], Q)
    {
      var c: int := r[i];
      RStep(t, c);
      t := Or(t, And(c + 1, Q - 4));
      t := Or(t, And(c + 2, 4));
      i := i + 1;
    }
  }

  // -------------------------------------------------------------------------
  // owcpa_check_m

  /** owcpa_check_m: counts the 1s in ps and twice the 2s in ms, both uint16_t
      (they cannot wrap), and returns 0 exactly for a message-space m. */
  method CheckM(m: array<u16>) returns (fail: int)
    requires m.Length == POLY_N && Trinary(m[..N])
    ensures fail == (if MessageSpace(m[..N], WEIGHT) then 0 else 1)
  {
    var ps, ms := CountCodes(m);
    MessageFlag(ps, ms);
    var t: int := 0;
    t := Or(t, Xor(ps, ms / 2));
    t := Or(t, Xor(ms, WEIGHT));
    NonZeroFlag32(t);
    // 1 & ((~t + 1) >> 31) on a uint32_t t
    fail := (Neg32(t) / 0x8000_0000) % 2;
  }

  /** The counting loop of owcpa_check_m: ps counts the 1s, ms adds 2 for
      every 2. */
  method CountCodes(m: array<u16>) returns (ps: u16, ms: u16)
    requires m.Length == POLY_N && Trinary(m[..N])
    ensures ps == Count(m[..N], 1) && ms == 2 * Count(m[..N], 2)
  {
    ps, ms := 0, 0;
    var i := 0;
    while i < N
      invariant 0 <= i <= N
      invariant ps == Count(m[..i], 1) && ms == 2 * Count(m[..i], 2)
    {
      assert m[..N][i] == m[i];
      TrinaryBits(m[i]);
      assert m[..i + 1] == m[..i] + [m[i]];
      CountSnoc(m[..i], m[i], 1);
      CountSnoc(m[..i], m[i], 2);
      ps := ps + And(m[i], 1);
      ms := ms + And(m[i], 2);
      i := i + 1;
    }
    assert m[..i] == m[..N];
  }

  /** The two ORs of owcpa_check_m leave t zero exactly when ps == ms / 2 and
      ms == WEIGHT, that is for as many 1s as 2s and WEIGHT nonzeros. */
  lemma MessageFlag(ps: int, ms: int)
    requires 0 <= ps < W16 && 0 <= ms < W16 && ms % 2 == 0
    ensures var t := Or(Or(0, Xor(ps, ms / 2)), Xor(ms, WEIGHT));
      0 <= t < W16 && (t == 0 <==> ps == ms / 2 && ms == WEIGHT)
  {
    XorWords(ps, ms / 2);
    XorWords(ms, WEIGHT);
    OrWords(0, Xor(ps, ms / 2));
    OrWords(Or(0, Xor(ps, ms / 2)), Xor(ms, WEIGHT));
  }

  // -------------------------------------------------------------------------
  // owcpa_keypair

  /** The products of owcpa_keypair, each congruent mod q to what the source
      computes into it: Gf = G * F, invGf its inverse lifted from poly_R2_inv
      (an inverse modulo (2, Phi_N) becomes one modulo (q, Phi_N)),
      tmp1 = invGf * F, tmp2 = invGf * G and h = tmp2 * G. */
  ghost predicate KeyChain(P: Primitives, F: seq<int>, G: seq<int>, gf: seq<int>, invgf: seq<int>,
                           tmp1: seq<int>, tmp2: seq<int>, h: seq<int>)
    requires WellFormed(P)
    requires |F| == N && |G| == N && |gf| == N && |invgf| == N
  {
    && EqMod(gf, Conv(G, F), Q)
    && EqMod(invgf, NewtonIter(gf, P.r2Inv(gf), 4), Q)
    && (EqMod(Conv(P.r2Inv(gf), gf), One(N), 2) ==> EqMod(Conv(invgf, gf), One(N), Q))
    && (EqModPhi(Conv(P.r2Inv(gf), gf), One(N), 2) ==> EqModPhi(Conv(invgf, gf), One(N), Q))
    && EqMod(tmp1, Conv(invgf, F), Q)
    && EqMod(tmp2, Conv(invgf, G), Q)
    && EqMod(h, Conv(tmp2, G), Q)
  }

  /** The point of the key chain: tmp1 * F * h == (invGf * G * F)^2, so once
      invGf inverts Gf, the product tmp1 * F that poly_Sq_mul reduces into
      invh is an inverse of h.  In particular, when poly_R2_inv returns an
      inverse of Gf modulo (2, Phi_N), invh inverts h modulo (q, Phi_N). */
  lemma KeyChainInverse(P: Primitives, F: seq<int>, G: seq<int>, gf: seq<int>, invgf: seq<int>,
                        tmp1: seq<int>, tmp2: seq<int>, h: seq<int>)
    requires WellFormed(P)
    requires |F| == N && |G| == N && |gf| == N && |invgf| == N
    requires KeyChain(P, F, G, gf, invgf, tmp1, tmp2, h)
    ensures EqMod(Conv(invgf, gf), One(N), Q) ==> EqMod(Conv(Conv(tmp1, F), h), One(N), Q)
    ensures EqModPhi(Conv(P.r2Inv(gf), gf), One(N), 2) ==> EqModPhi(Conv(Conv(tmp1, F), h), One(N), Q)
  {
    var u := Conv(invgf, gf);
    KeyChainSquare(F, G, gf, invgf, tmp1, tmp2, h);
    ConvOneLeft(One(N));
    if EqMod(u, One(N), Q) {
      ConvCongr(u, One(N), u, One(N), Q);
      EqModTrans(Conv(Conv(tmp1, F), h), Conv(u, u), One(N), Q);
    }
    if EqModPhi(Conv(P.r2Inv(gf), gf), One(N), 2) {
      ConvCongrPhi(u, One(N), u, One(N), Q);
      EqModToPhi(Conv(Conv(tmp1, F), h), Conv(u, u), Q);
      EqModPhiTrans(Conv(Conv(tmp1, F), h), Conv(u, u), One(N), Q);
    }
  }

  /** tmp1 * F * h == (invGf * Gf)^2 mod q: with v = invGf,
      v F F * v G G == (v * GF) * (v * GF) and GF == Gf. */
  lemma KeyChainSquare(F: seq<int>, G: seq<int>, gf: seq<int>, invgf: seq<int>,
                       tmp1: seq<int>, tmp2: seq<int>, h: seq<int>)
    requires |F| == N && |G| == N && |gf| == N && |invgf| == N
    requires EqMod(gf, Conv(G, F), Q)
    requires EqMod(tmp1, Conv(invgf, F), Q) && EqMod(tmp2, Conv(invgf, G), Q)
    requires EqMod(h, Conv(tmp2, G), Q)
    ensures EqMod(Conv(Conv(tmp1, F), h), Conv(Conv(invgf, gf), Conv(invgf, gf)), Q)
  {
    var v := invgf;
    var FF, GG, GF := Conv(F, F), Conv(G, G), Conv(G, F);
    EqModRefl(F, Q);
    EqModRefl(G, Q);
    EqModRefl(v, Q);
    // tmp1 * F == v * F * F and h == v * G * G, mod q
    ConvCongr(tmp1, Conv(v, F), F, F, Q);
    ConvCongr(tmp2, Conv(v, G), G, G, Q);
    EqModTrans(h, Conv(tmp2, G), Conv(Conv(v, G), G), Q);
    ConvCongr(Conv(tmp1, F), Conv(Conv(v, F), F), h, Conv(Conv(v, G), G), Q);
    // v F F * v G G == (v * GF) * (v * GF)
    ConvAssoc(v, F, F);
    ConvAssoc(v, G, G);
    ConvSwap(v, FF, v, GG);
    ConvSwap(v, GF, v, GF);
    ConvSwap(G, F, G, F);
    ConvComm(GG, FF);
    var e := Conv(v, GF);
    assert Conv(Conv(Conv(v, F), F), Conv(Conv(v, G), G)) == Conv(e, e);
    // v * GF == v * Gf, mod q
    EqModSym(gf, GF, Q);
    ConvCongr(v, v, GF, gf, Q);
    ConvCongr(e, Conv(v, gf), e, Conv(v, gf), Q);
    EqModTrans(Conv(Conv(tmp1, F), h), Conv(e, e), Conv(Conv(v, gf), Conv(v, gf)), Q);
  }

  /** The head of owcpa_keypair: f and g from the seed, then pack(f) and
      pack(S3 inverse of f) at the head of sk. */
  method KeypairSample(P: Primitives, f: array<u16>, g: array<u16>, sk: array<u8>, seed: seq<u8>)
    requires WellFormed(P)
    requires f.Length == POLY_N && g.Length == POLY_N && f != g
    requires sk.Length >= OWCPA_SECRETKEYBYTES
    modifies f, g, sk
    ensures f[..N] == P.sampleFg(seed).0 && g[..N] == P.sampleFg(seed).1
    ensures sk[..] == P.s3ToBytes(P.sampleFg(seed).0) + P.s3ToBytes(P.s3Inv(P.sampleFg(seed).0))
                      + old(sk[OWCPA_MSGBYTES..])
  {
    SetCoeffs(f, P.sampleFg(seed).0);
    SetCoeffs(g, P.sampleFg(seed).1);
    PackF(P, sk, f[..N]);
  }

  /** pack(f) and pack(S3 inverse of f) into the first OWCPA_MSGBYTES bytes
      of sk. */
  method PackF(P: Primitives, sk: array<u8>, f: seq<u16>)
    requires WellFormed(P)
    requires sk.Length >= OWCPA_SECRETKEYBYTES
    modifies sk
    ensures sk[..] == P.s3ToBytes(f) + P.s3ToBytes(P.s3Inv(f)) + old(sk[OWCPA_MSGBYTES..])
  {
    ghost var S := sk[..];
    var invf := new u16[POLY_N];
    SetCoeffs(invf, P.s3Inv(f));
    var A := P.s3ToBytes(f);
    SetBytes(sk, 0, A);
    ghost var S1 := sk[..];
    assert S1 == A + S[PACK_TRINARY_BYTES..];
    var B := P.s3ToBytes(invf[..N]);
    SetBytes(sk, PACK_TRINARY_BYTES, B);
    assert S1[..PACK_TRINARY_BYTES] == A;
    assert S1[OWCPA_MSGBYTES..] == S[OWCPA_MSGBYTES..];
  }

  /** f and g lifted from Z3 to Zq, then g multiplied by 3 (the hps branch). */
  method KeypairLift(f: array<u16>, g: array<u16>)
    requires f.Length == POLY_N && g.Length == POLY_N && f != g
    modifies f, g
    ensures f[..N] == LiftZ3(old(f[..N])) && g[..N] == Scale3(LiftZ3(old(g[..N])))
  {
    Z3ToZq(f);
    Z3ToZq(g);
    Mul3(g, N);
  }

  /** owcpa_keypair from Gf on: the products of the key chain, and
      invh = poly_Sq_mul(tmp1, f). */
  method KeypairInvert(P: Primitives, invh: array<u16>, h: array<u16>, f: array<u16>, g: array<u16>)
    returns (ghost gf: seq<int>, ghost invgf: seq<int>, ghost tmp1: seq<int>, ghost tmp2: seq<int>)
    requires WellFormed(P)
    requires invh.Length == POLY_N && h.Length == POLY_N && f.Length == POLY_N && g.Length == POLY_N
    requires invh != h && invh != f && invh != g && h != f && h != g && f != g
    modifies invh, h, f, g
    ensures f[..N] == old(f[..N]) && g[..N] == old(g[..N])
    ensures |gf| == N && |invgf| == N
    ensures KeyChain(P, old(f[..N]), old(g[..N]), gf, invgf, tmp1, tmp2, h[..N])
    ensures invh[..N] == P.sqMul(tmp1, old(f[..N]))
  {
    var gfp := new u16[POLY_N];
    RqMul(gfp, g, f);
    gf := gfp[..N];
    var invgfp := new u16[POLY_N];
    RqInv(invgfp, gfp, P.r2Inv);
    invgf := invgfp[..N];
    var tmp1p := new u16[POLY_N];
    RqMul(tmp1p, invgfp, f);
    tmp1 := tmp1p[..N];
    var tmp2p := new u16[POLY_N];
    RqMul(tmp2p, invgfp, g);
    tmp2 := tmp2p[..N];
    SetCoeffs(invh, P.sqMul(tmp1p[..N], f[..N]));
    RqMul(h, tmp2p, g);
  }

  /** owcpa_keypair: sk holds pack(f), pack(S3 inverse of f) and pack(invh),
      pk holds h; the secret key tail after OWCPA_SECRETKEYBYTES is untouched.
      The ghost results are the intermediate products of the key chain. */
  method OwcpaKeypair(P: Primitives, pk: array<u8>, sk: array<u8>, seed: seq<u8>)
    returns (ghost gf: seq<int>, ghost invgf: seq<int>, ghost tmp1: seq<int>, ghost tmp2: seq<int>, ghost h: seq<int>)
    requires WellFormed(P)
    requires pk.Length == PUBLICKEYBYTES && sk.Length >= OWCPA_SECRETKEYBYTES && pk != sk
    modifies pk, sk
    ensures |gf| == N && |invgf| == N && |h| == N
    ensures KeyChain(P, LiftZ3(P.sampleFg(seed).0), Scale3(LiftZ3(P.sampleFg(seed).1)), gf, invgf, tmp1, tmp2, h)
    ensures pk[..] == P.sumZeroToBytes(h)
    ensures sk[..] == P.s3ToBytes(P.sampleFg(seed).0) + P.s3ToBytes(P.s3Inv(P.sampleFg(seed).0))
                      + P.sqToBytes(P.sqMul(tmp1, LiftZ3(P.sampleFg(seed).0)))
                      + old(sk[OWCPA_SECRETKEYBYTES..])
  {
    ghost var fs := P.sampleFg(seed).0;
    ghost var tail := sk[OWCPA_SECRETKEYBYTES..];
    var f := new u16[POLY_N];
    var g := new u16[POLY_N];
    KeypairSample(P, f, g, sk, seed);
    ghost var head := P.s3ToBytes(fs) + P.s3ToBytes(P.s3Inv(fs));
    assert sk[..OWCPA_MSGBYTES] == head && sk[OWCPA_SECRETKEYBYTES..] == tail;
    KeypairLift(f, g);
    var invhp := new u16[POLY_N];
    var hp := new u16[POLY_N];
    gf, invgf, tmp1, tmp2 := KeypairInvert(P, invhp, hp, f, g);
    h := hp[..N];
    PackKeys(P, pk, sk, invhp[..N], hp[..N]);
  }

  /** The tail of owcpa_keypair: pack(h) into pk and pack(invh) at offset
      2 * PACK_TRINARY_BYTES of sk. */
  method PackKeys(P: Primitives, pk: array<u8>, sk: array<u8>, invh: seq<int>, h: seq<int>)
    requires WellFormed(P)
    requires pk.Length == PUBLICKEYBYTES && sk.Length >= OWCPA_SECRETKEYBYTES && pk != sk
    modifies pk, sk
    ensures pk[..] == P.sumZeroToBytes(h)
    ensures sk[..] == old(sk[..OWCPA_MSGBYTES]) + P.sqToBytes(invh) + old(sk[OWCPA_SECRETKEYBYTES..])
  {
    SetBytes(pk, 0, P.sumZeroToBytes(h));
    SetBytes(sk, OWCPA_MSGBYTES, P.sqToBytes(invh));
  }

  // -------------------------------------------------------------------------
  // owcpa_enc

  /** owcpa_enc: ct = r * h in Rq with h unpacked from pk, ct += Lift(m), and
      c = pack(ct).  r and m are not changed. */
  method OwcpaEnc(P: Primitives, c: array<u8>, r: array<u16>, m: array<u16>, pk: seq<u8>)
    returns (ghost ct: seq<int>)
    requires WellFormed(P)
    requires c.Length == CIPHERTEXTBYTES && r.Length == POLY_N && m.Length == POLY_N
    modifies c
    ensures EqMod(ct, Conv(r[..N], P.sumZeroFromBytes(pk)), Q)
    ensures c[..] == P.sumZeroToBytes(P.liftAdd(ct, m[..N]))
  {
    var h := new u16[POLY_N];
    SetCoeffs(h, P.sumZeroFromBytes(pk));
    var ctp := new u16[POLY_N];
    RqMul(ctp, r, h);
    ct := ctp[..N];
    SetCoeffs(ctp, P.liftAdd(ctp[..N], m[..N]));
    SetBytes(c, 0, P.sumZeroToBytes(ctp[..N]));
  }

  // -------------------------------------------------------------------------
  // owcpa_dec

  /** m is what owcpa_dec derives from c and the secret key, through some
      cf congruent to c * Lift(f) mod q. */
  ghost predicate DecryptsTo(P: Primitives, c: seq<int>, secretkey: seq<u8>, cf: seq<int>, m: seq<int>)
    requires |c| == N && |secretkey| >= OWCPA_SECRETKEYBYTES && WellFormed(P)
  {
    var f := P.s3FromBytes(secretkey[..PACK_TRINARY_BYTES]);
    var finv3 := P.s3FromBytes(secretkey[PACK_TRINARY_BYTES..OWCPA_MSGBYTES]);
    EqMod(cf, Conv(c, LiftZ3(f)), Q) && m == P.mod3PhiN(ReduceQ(Conv(P.rqToS3(cf), finv3)))
  }

  /** The first half of owcpa_dec: cf = c * Lift(f) in Rq, mf = poly_Rq_to_S3(cf),
      m = mf * finv3 in S3, with f and finv3 unpacked from the secret key. */
  method DecryptM(P: Primitives, m: array<u16>, c: array<u16>, secretkey: seq<u8>) returns (ghost cf: seq<int>)
    requires WellFormed(P)
    requires m.Length == POLY_N && c.Length == POLY_N && m != c
    requires |secretkey| >= OWCPA_SECRETKEYBYTES
    modifies m
    ensures DecryptsTo(P, c[..N], secretkey, cf, m[..N])
  {
    var f := new u16[POLY_N];
    var f3 := P.s3FromBytes(secretkey[..PACK_TRINARY_BYTES]);
    SetCoeffs(f, f3);
    var finv3 := new u16[POLY_N];
    SetCoeffs(finv3, P.s3FromBytes(secretkey[PACK_TRINARY_BYTES..OWCPA_MSGBYTES]));
    Z3ToZq(f);
    var cfp := new u16[POLY_N];
    RqMul(cfp, c, f);
    cf := cfp[..N];
    var mf := new u16[POLY_N];
    SetCoeffs(mf, P.rqToS3(cfp[..N]));
    S3Mul(m, mf, finv3, P.mod3PhiN);
  }

  /** r is what owcpa_dec derives from c, m and the secret key. */
  ghost predicate RecoversR(P: Primitives, c: seq<int>, m: seq<int>, secretkey: seq<u8>, r: seq<int>)
    requires |secretkey| >= OWCPA_SECRETKEYBYTES
  {
    r == P.sqMul(P.liftSub(c, m), P.sqFromBytes(secretkey[OWCPA_MSGBYTES..OWCPA_SECRETKEYBYTES]))
  }

  /** The second half of owcpa_dec: b = c - Lift(m), r = b * invh in Sq, with
      invh unpacked from the secret key. */
  method RecoverR(P: Primitives, r: array<u16>, c: array<u16>, m: array<u16>, secretkey: seq<u8>)
    requires WellFormed(P)
    requires r.Length == POLY_N && c.Length == POLY_N && m.Length == POLY_N
    requires r != c && r != m
    requires |secretkey| >= OWCPA_SECRETKEYBYTES
    modifies r
    ensures RecoversR(P, c[..N], m[..N], secretkey, r[..N])
  {
    var invh := new u16[POLY_N];
    SetCoeffs(invh, P.sqFromBytes(secretkey[OWCPA_MSGBYTES..OWCPA_SECRETKEYBYTES]));
    var b := new u16[POLY_N];
    SetCoeffs(b, P.liftSub(c[..N], m[..N]));
    SetCoeffs(r, P.sqMul(b[..N], invh[..N]));
  }

  /** owcpa_dec up to the message check: m from c and the secret key,
      pack(m) at offset PACK_TRINARY_BYTES of rm, and fail set from the
      ciphertext and message checks. */
  method DecMessage(P: Primitives, rm: array<u8>, m: array<u16>, c: array<u16>, ciphertext: seq<u8>, secretkey: seq<u8>)
    returns (fail: int, ghost cf: seq<int>)
    requires WellFormed(P)
    requires rm.Length == OWCPA_MSGBYTES && m.Length == POLY_N && c.Length == POLY_N && m != c
    requires |ciphertext| == CIPHERTEXTBYTES && |secretkey| >= OWCPA_SECRETKEYBYTES
    modifies rm, m
    ensures DecryptsTo(P, c[..N], secretkey, cf, m[..N])
    ensures rm[..] == old(rm[..PACK_TRINARY_BYTES]) + P.s3ToBytes(m[..N])
    ensures fail == (if PaddingClear(ciphertext) && MessageSpace(m[..N], WEIGHT) then 0 else 1)
  {
    cf := DecryptM(P, m, c, secretkey);
    SetBytes(rm, PACK_TRINARY_BYTES, P.s3ToBytes(m[..N]));
    fail := 0;
    var failC := CheckCiphertext(ciphertext);
    OrFlags(fail, failC);
    fail := Or(fail, failC);
    var failM := CheckM(m);
    OrFlags(fail, failM);
    fail := Or(fail, failM);
  }

  /** owcpa_dec from the unpacking of invh on: r from c, m and the secret key,
      the r check ORed into fail, and pack(r in {0,1,2}) at offset 0 of rm. */
  method DecRandomness(P: Primitives, rm: array<u8>, r: array<u16>, c: array<u16>, m: array<u16>, secretkey: seq<u8>, fail0: int)
    returns (fail: int, ghost rq: seq<u16>)
    requires WellFormed(P)
    requires rm.Length == OWCPA_MSGBYTES && r.Length == POLY_N && c.Length == POLY_N && m.Length == POLY_N
    requires r != c && r != m
    requires |secretkey| >= OWCPA_SECRETKEYBYTES && (fail0 == 0 || fail0 == 1)
    modifies rm, r
    ensures |rq| == N && RecoversR(P, c[..N], m[..N], secretkey, rq)
    ensures rm[..] == P.s3ToBytes(LowerZq(rq)) + old(rm[PACK_TRINARY_BYTES..])
    ensures fail == (if fail0 == 0 && ValidR(rq) then 0 else 1)
  {
    RecoverR(P, r, c, m, secretkey);
    rq := r[..N];
    var failR := CheckR(r);
    OrFlags(fail0, failR);
    fail := Or(fail0, failR);
    PackR(P, rm, r);
  }

  /** The tail of owcpa_dec: r mapped back to {0,1,2} by
      poly_trinary_Zq_to_Z3, then pack(r) at offset 0 of rm. */
  method PackR(P: Primitives, rm: array<u8>, r: array<u16>)
    requires WellFormed(P)
    requires rm.Length == OWCPA_MSGBYTES && r.Length == POLY_N
    modifies rm, r
    ensures rm[..] == P.s3ToBytes(LowerZq(old(r[..N]))) + old(rm[PACK_TRINARY_BYTES..])
  {
    TrinaryZqToZ3(r);
    SetBytes(rm, 0, P.s3ToBytes(r[..N]));
  }

  /** owcpa_dec: recovers m and r, writes pack(r in {0,1,2}) at offset 0 and
      pack(m) at offset PACK_TRINARY_BYTES of rm whatever the checks say, and
      ORs the three checks into fail without branching on any of them. */
  method OwcpaDec(P: Primitives, rm: array<u8>, ciphertext: seq<u8>, secretkey: seq<u8>)
    returns (fail: int, ghost cf: seq<int>, ghost m: seq<u16>, ghost r: seq<u16>)
    requires WellFormed(P)
    requires rm.Length == OWCPA_MSGBYTES
    requires |ciphertext| == CIPHERTEXTBYTES && |secretkey| >= OWCPA_SECRETKEYBYTES
    modifies rm
    ensures |m| == N && |r| == N
    ensures DecryptsTo(P, P.sumZeroFromBytes(ciphertext), secretkey, cf, m)
    ensures RecoversR(P, P.sumZeroFromBytes(ciphertext), m, secretkey, r)
    ensures rm[..] == P.s3ToBytes(LowerZq(r)) + P.s3ToBytes(m)
    ensures fail == (if PaddingClear(ciphertext) && MessageSpace(m, WEIGHT) && ValidR(r) then 0 else 1)
  {
    var c := new u16[POLY_N];
    SetCoeffs(c, P.sumZeroFromBytes(ciphertext));
    var mp := new u16[POLY_N];
    fail, cf := DecMessage(P, rm, mp, c, ciphertext, secretkey);
    m := mp[..N];
    var rp := new u16[POLY_N];
    fail, r := DecRandomness(P, rm, rp, c, mp, secretkey, fail);
  }
}
