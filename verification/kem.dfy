// The CCA2 KEM of ntruhps2048677 (kem.c): key generation appends a PRF key
// to the OW-CPA secret key, encapsulation hashes the packed (r, m) it
// encrypts, and decapsulation hashes what OW-CPA decryption recovers, or the
// PRF key and the ciphertext when decryption reports a failure (implicit
// rejection).  The random bytes are parameters; SHA3-256 and the sampler are
// fields of the Primitives value.

module Kem {
  import opened Bits
  import opened Common
  import opened Ring
  import opened Poly
  import opened Params
  import opened Primitives
  import opened Transforms
  import opened OwcpaHps

  /** crypto_kem_keypair: the OW-CPA key pair from seed, then the PRF key prf
      (both from randombytes) after the OW-CPA secret key; returns 0. */
  method KemKeypair(P: Primitives, pk: array<u8>, sk: array<u8>, seed: seq<u8>, prf: seq<u8>)
    returns (res: int, ghost gf: seq<int>, ghost invgf: seq<int>, ghost tmp1: seq<int>, ghost tmp2: seq<int>,
             ghost h: seq<int>)
    requires WellFormed(P)
    requires pk.Length == PUBLICKEYBYTES && sk.Length == SECRETKEYBYTES && pk != sk
    requires |seed| == SAMPLE_FG_BYTES && |prf| == PRFKEYBYTES
    modifies pk, sk
    ensures res == 0
    ensures |gf| == N && |invgf| == N && |h| == N
    ensures KeyChain(P, LiftZ3(P.sampleFg(seed).0), Scale3(LiftZ3(P.sampleFg(seed).1)), gf, invgf, tmp1, tmp2, h)
    ensures pk[..] == P.sumZeroToBytes(h)
    ensures sk[..OWCPA_SECRETKEYBYTES] == P.s3ToBytes(P.sampleFg(seed).0) + P.s3ToBytes(P.s3Inv(P.sampleFg(seed).0))
                                         + P.sqToBytes(P.sqMul(tmp1, LiftZ3(P.sampleFg(seed).0)))
    ensures sk[OWCPA_SECRETKEYBYTES..] == prf
  {
    gf, invgf, tmp1, tmp2, h := OwcpaKeypair(P, pk, sk, seed);
    ghost var head := sk[..OWCPA_SECRETKEYBYTES];
    SetBytes(sk, OWCPA_SECRETKEYBYTES, prf);
    assert sk[..OWCPA_SECRETKEYBYTES] == head;
    res := 0;
  }

  /** crypto_kem_enc: r and m from rmSeed (from randombytes), the key is
      SHA3-256(pack(r) || pack(m)) taken while r is still in {0, 1, 2}; then
      r goes to its signed form and is encrypted with m under pk.  The
      ghost ct is r * h before the lift of m is added. */
  method KemEnc(P: Primitives, c: array<u8>, k: array<u8>, pk: seq<u8>, rmSeed: seq<u8>)
    returns (res: int, ghost ct: seq<int>)
    requires WellFormed(P)
    requires c.Length == CIPHERTEXTBYTES && k.Length == SHAREDKEYBYTES && c != k
    requires |rmSeed| == SAMPLE_RM_BYTES
    modifies c, k
    ensures res == 0
    ensures k[..] == P.sha3(P.s3ToBytes(P.sampleRm(rmSeed).0) + P.s3ToBytes(P.sampleRm(rmSeed).1))
    ensures EqMod(ct, Conv(LiftZ3(P.sampleRm(rmSeed).0), P.sumZeroFromBytes(pk)), Q)
    ensures c[..] == P.sumZeroToBytes(P.liftAdd(ct, P.sampleRm(rmSeed).1))
  {
    var r0 := P.sampleRm(rmSeed).0;
    var r := new u16[POLY_N];
    var m := new u16[POLY_N];
    SetCoeffs(r, r0);
    SetCoeffs(m, P.sampleRm(rmSeed).1);
    HashMessage(P, k, r[..N], m[..N]);
    Z3ToSignedZ3(r);
    ct := OwcpaEnc(P, c, r, m, pk);
    ghost var H: seq<int> := P.sumZeroFromBytes(pk);
    SignedLiftModQ(r0);
    EqModRefl(H, Q);
    ConvCongr(SignedZ3(r0), LiftZ3(r0), H, H, Q);
    EqModTrans(ct, Conv(SignedZ3(r0), H), Conv(LiftZ3(r0), H), Q);
    res := 0;
  }

  /** The key of crypto_kem_enc: pack(r) and pack(m) into rm, then
      k = SHA3-256(rm). */
  method HashMessage(P: Primitives, k: array<u8>, r: seq<int>, m: seq<int>)
    requires WellFormed(P) && k.Length == SHAREDKEYBYTES
    modifies k
    ensures k[..] == P.sha3(P.s3ToBytes(r) + P.s3ToBytes(m))
  {
    var rm := new u8[OWCPA_MSGBYTES];
    var A, B := P.s3ToBytes(r), P.s3ToBytes(m);
    SetBytes(rm, 0, A);
    ghost var S1 := rm[..];
    assert S1[..PACK_TRINARY_BYTES] == A;
    assert S1[OWCPA_MSGBYTES..] == [];
    SetBytes(rm, PACK_TRINARY_BYTES, B);
    assert rm[..] == A + B;
    SetBytes(k, 0, P.sha3(rm[..]));
  }

  /** The input of the rejection key: the two copy loops of crypto_kem_dec
      fill buf with the PRF key (the tail of sk) followed by the ciphertext. */
  method FallbackInput(buf: array<u8>, c: seq<u8>, sk: seq<u8>)
    requires buf.Length == PRFKEYBYTES + CIPHERTEXTBYTES
    requires |c| == CIPHERTEXTBYTES && |sk| == SECRETKEYBYTES
    modifies buf
    ensures buf[..] == sk[OWCPA_SECRETKEYBYTES..] + c
  {
    for i := 0 to PRFKEYBYTES
      invariant buf[..i] == sk[OWCPA_SECRETKEYBYTES..OWCPA_SECRETKEYBYTES + i]
    {
      buf[i] := sk[i + OWCPA_SECRETKEYBYTES];
    }
    for i := 0 to CIPHERTEXTBYTES
      invariant buf[..PRFKEYBYTES] == sk[OWCPA_SECRETKEYBYTES..]
      invariant buf[PRFKEYBYTES..PRFKEYBYTES + i] == c[..i]
    {
      buf[PRFKEYBYTES + i] := c[i];
    }
    assert buf[..] == buf[..PRFKEYBYTES] + buf[PRFKEYBYTES..];
  }

  /** cmov as crypto_kem_dec uses it: with b = 1 the first len bytes of x
      replace those of r, with b = 0 r is unchanged.  cmov.c is not part of
      this model; the select is written without a branch, as a blend. */
  method CMov(r: array<u8>, x: array<u8>, len: int, b: int)
    requires 0 <= len <= r.Length && len <= x.Length && r != x
    requires b == 0 || b == 1
    modifies r
    ensures r[..] == if b == 1 then x[..len] + old(r[len..]) else old(r[..])
  {
    for i := 0 to len
      invariant forall j :: 0 <= j < i ==> r[j] == if b == 1 then x[j] else old(r[j])
      invariant forall j :: i <= j < r.Length ==> r[j] == old(r[j])
    {
      r[i] := b * x[i] + (1 - b) * r[i];
    }
    if b == 1 {
      assert r[..] == x[..len] + old(r[len..]);
    } else {
      assert r[..] == old(r[..]);
    }
  }

  /** The two candidate keys of crypto_kem_dec. */
  method CandidateKeys(P: Primitives, k: array<u8>, rm: array<u8>, c: seq<u8>, sk: seq<u8>)
    requires WellFormed(P)
    requires k.Length == SHAREDKEYBYTES && rm.Length == OWCPA_MSGBYTES && k != rm
    requires |c| == CIPHERTEXTBYTES && |sk| == SECRETKEYBYTES
    modifies k, rm
    ensures k[..] == P.sha3(old(rm[..]))
    ensures rm[..SHAREDKEYBYTES] == P.sha3(sk[OWCPA_SECRETKEYBYTES..] + c)
  {
    SetBytes(k, 0, P.sha3(rm[..]));
    var buf := new u8[PRFKEYBYTES + CIPHERTEXTBYTES];
    FallbackInput(buf, c, sk);
    SetBytes(rm, 0, P.sha3(buf[..]));
  }

  /** crypto_kem_dec: the key is SHA3-256 of the recovered pack(r) || pack(m)
      when OW-CPA decryption reports no failure, and SHA3-256(prf || c)
      otherwise, chosen by cmov rather than by a branch; returns 0 either
      way.  The rejection key depends on c and sk alone.  The ghost results
      are what owcpa_dec recovers and its failure flag. */
  method KemDec(P: Primitives, k: array<u8>, c: seq<u8>, sk: seq<u8>)
    returns (res: int, ghost fail: int, ghost cf: seq<int>, ghost m: seq<u16>, ghost r: seq<u16>)
    requires WellFormed(P)
    requires k.Length == SHAREDKEYBYTES && |c| == CIPHERTEXTBYTES && |sk| == SECRETKEYBYTES
    modifies k
    ensures res == 0
    ensures |m| == N && |r| == N
    ensures DecryptsTo(P, P.sumZeroFromBytes(c), sk, cf, m)
    ensures RecoversR(P, P.sumZeroFromBytes(c), m, sk, r)
    ensures fail == (if PaddingClear(c) && MessageSpace(m, WEIGHT) && ValidR(r) then 0 else 1)
    ensures k[..] == if fail == 0 then P.sha3(P.s3ToBytes(LowerZq(r)) + P.s3ToBytes(m))
                     else P.sha3(sk[OWCPA_SECRETKEYBYTES..] + c)
  {
    var rm := new u8[OWCPA_MSGBYTES];
    var failFlag;
    failFlag, cf, m, r := OwcpaDec(P, rm, c, sk);
    fail := failFlag;
    CandidateKeys(P, k, rm, c, sk);
    CMov(k, rm, SHAREDKEYBYTES, failFlag);
    res := 0;
  }
}
