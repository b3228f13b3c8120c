// The sizes of ntruhps2048677 that the OW-CPA layer and the KEM use, by the
// formulas of the NTRU parameter header (params.h is not part of this model;
// N, q and log2 q come from the ring routines).

module Params {
  import opened Poly

  /** Nonzero coefficients of a fixed-weight message: q/8 - 2. */
  const WEIGHT: int := Q / 8 - 2
  /** Coefficients that are packed: the last one is implied. */
  const PACK_DEG: int := N - 1
  /** Five trinary coefficients per byte. */
  const PACK_TRINARY_BYTES: int := (PACK_DEG + 4) / 5
  const OWCPA_MSGBYTES: int := 2 * PACK_TRINARY_BYTES
  /** PACK_DEG coefficients of log2 q bits each, rounded up to whole bytes. */
  const PUBLICKEYBYTES: int := (LOGQ * PACK_DEG + 7) / 8
  const CIPHERTEXTBYTES: int := PUBLICKEYBYTES
  const OWCPA_SECRETKEYBYTES: int := 2 * PACK_TRINARY_BYTES + PUBLICKEYBYTES
  const PRFKEYBYTES: int := 32
  const SECRETKEYBYTES: int := OWCPA_SECRETKEYBYTES + PRFKEYBYTES
  const SHAREDKEYBYTES: int := 32
  /** Seed bytes of sample_fg and sample_rm: N-1 bytes for the i.i.d. part and
      30 bits per index of the fixed-type part. */
  const SAMPLE_IID_BYTES: int := N - 1
  const SAMPLE_FT_BYTES: int := (30 * (N - 1) + 7) / 8
  const SAMPLE_FG_BYTES: int := SAMPLE_IID_BYTES + SAMPLE_FT_BYTES
  const SAMPLE_RM_BYTES: int := SAMPLE_IID_BYTES + SAMPLE_FT_BYTES
}
