// The routines that the OW-CPA layer and the KEM call but that are not part
// of this model, as functions: packing and unpacking, poly_Rq_to_S3,
// poly_mod_3_Phi_n, poly_Sq_mul, the lift, the S3 and mod-2 inverses, the
// samplers of this parameter set and SHA3-256.  WellFormed states the sizes
// of their results and that poly_mod_3_Phi_n and sample_rm land in {0, 1, 2}.

module Primitives {
  import opened Bits
  import opened Common
  import opened Poly
  import opened Params

  datatype Primitives = Primitives(
    s3ToBytes: seq<int> -> seq<u8>,
    s3FromBytes: seq<u8> -> seq<u16>,
    sqToBytes: seq<int> -> seq<u8>,
    sqFromBytes: seq<u8> -> seq<u16>,
    sumZeroToBytes: seq<int> -> seq<u8>,
    sumZeroFromBytes: seq<u8> -> seq<u16>,
    rqToS3: seq<int> -> seq<u16>,
    mod3PhiN: seq<int> -> seq<u16>,
    sqMul: (seq<int>, seq<int>) -> seq<u16>,
    liftAdd: (seq<int>, seq<int>) -> seq<u16>,
    liftSub: (seq<int>, seq<int>) -> seq<u16>,
    s3Inv: seq<int> -> seq<u16>,
    r2Inv: seq<int> -> seq<u16>,
    sampleFg: seq<u8> -> (seq<u16>, seq<u16>),
    sampleRm: seq<u8> -> (seq<u16>, seq<u16>),
    sha3: seq<u8> -> seq<u8>)

  ghost predicate WellFormed(P: Primitives)
  {
    && (forall x :: |P.s3ToBytes(x)| == PACK_TRINARY_BYTES)
    && (forall b :: |P.s3FromBytes(b)| == N)
    && (forall x :: |P.sqToBytes(x)| == PUBLICKEYBYTES)
    && (forall b :: |P.sqFromBytes(b)| == N)
    && (forall x :: |P.sumZeroToBytes(x)| == PUBLICKEYBYTES)
    && (forall b :: |P.sumZeroFromBytes(b)| == N)
    && (forall x :: |P.rqToS3(x)| == N)
    && (forall x :: |P.mod3PhiN(x)| == N && Trinary(P.mod3PhiN(x)))
    && (forall x, y :: |P.sqMul(x, y)| == N)
    && (forall x, y :: |P.liftAdd(x, y)| == N)
    && (forall x, y :: |P.liftSub(x, y)| == N)
    && (forall x :: |P.s3Inv(x)| == N)
    && (forall x :: |P.r2Inv(x)| == N)
    && (forall b :: |P.sampleFg(b).0| == N && |P.sampleFg(b).1| == N)
    && (forall b :: |P.sampleRm(b).0| == N && |P.sampleRm(b).1| == N)
    && (forall b :: Trinary(P.sampleRm(b).0) && Trinary(P.sampleRm(b).1))
    && (forall b :: |P.sha3(b)| == SHAREDKEYBYTES)
  }

  /** Stores the N coefficients a routine outside this model computes. */
  method SetCoeffs(p: array<u16>, v: seq<u16>)
    requires p.Length == POLY_N && |v| == N
    modifies p
    ensures p[..N] == v && p[N..] == old(p[N..])
  {
    forall k | 0 <= k < N {
      p[k] := v[k];
    }
  }

  /** Stores the bytes a routine outside this model writes at offset off. */
  method SetBytes(dst: array<u8>, off: int, v: seq<u8>)
    requires 0 <= off && off + |v| <= dst.Length
    modifies dst
    ensures dst[..] == old(dst[..off]) + v + old(dst[off + |v|..])
  {
    forall k | 0 <= k < |v| {
      dst[off + k] := v[k];
    }
    assert dst[..] == old(dst[..off]) + v + old(dst[off + |v|..]);
  }
}
