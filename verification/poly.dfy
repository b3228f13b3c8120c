// The ring-element routines of the ntruhps2048677 TMVP build (poly.c):
// the in-place domain conversions between {0,1,2}, {0,1,q-1} and
// {0,1,2^16-1}, the ring product (by its contract), the S3 product, and the
// Newton lift of an inverse modulo (2, Phi_N) to an inverse modulo (q, Phi_N).
//
// A poly is an array of POLY_N uint16 coefficients; coefficients N..POLY_N-1
// are padding.

module Poly {
  import opened Bits
  import opened Common
  import opened Ring
  import SampleRef

  const N: int := 677
  const Q: int := 2048
  const LOGQ: int := 11
  /** Coefficients per poly, the bound of the poly_Z3_to_Zq loop; its value
      comes from params.h, which is not part of this model (see README). */
  const POLY_N: int := 704

  // -------------------------------------------------------------------------
  // poly_Z3_to_Zq: {0, 1, 2} -> {0, 1, q-1} by byte-table lookups.

  /** The first 16 bytes of table_tbllo and table_tblhi, the part vld1q_u8
      loads (the remaining 48 bytes of each are zero and never read). */
  const TBL_LO: seq<u8> := [0, 1, (Q - 1) % 0x100, 0, 0, 0, 0, 0, 0, 0, 0, 0, 0, 0, 0, 0]
  const TBL_HI: seq<u8> := [0, 0, (Q - 1) / 0x100, 0, 0, 0, 0, 0, 0, 0, 0, 0, 0, 0, 0, 0]

  /** vqtbl1q_u8 on one byte lane: an index outside the 16-byte register gives 0. */
  function Lookup(tbl: seq<u8>, idx: int): (r: u8)
    requires |tbl| >= 16 && 0 <= idx
    ensures idx < 16 ==> r == tbl[idx]
    ensures 16 <= idx ==> r == 0
  {
    if idx < 16 then tbl[idx] else 0
  }

  /** Eight uint16 lanes seen as sixteen bytes, low byte first. */
  function Bytes(t: seq<u16>): (b: seq<u8>)
    requires |t| == 8
    ensures |b| == 16
  {
    seq(16, k requires 0 <= k < 16 => if k % 2 == 0 then t[k / 2] % 0x100 else t[k / 2] / 0x100)
  }

  /** vtrn1q_u8(lo, hi) read back as eight uint16 lanes: the even bytes of lo
      become the low bytes, the even bytes of hi the high bytes. */
  function Trn1Lanes(lo: seq<u8>, hi: seq<u8>): (t: seq<u16>)
    requires |lo| == 16 && |hi| == 16
    ensures |t| == 8
    ensures forall k :: 0 <= k < 8 ==> t[k] % 0x100 == lo[2 * k] && t[k] / 0x100 == hi[2 * k]
  {
    seq(8, k requires 0 <= k < 8 => (lo[2 * k] as int) + 0x100 * (hi[2 * k] as int))
  }

  /** The value q-1, 1 or 0 that Z3_to_Zq stores for the trinary code 2, 1, 0. */
  function ZqCode(c: int): (r: int)
  {
    if c == 2 then Q - 1 else c
  }

  /** What poly_Z3_to_Zq stores for coefficient c: both tables are indexed by
      its low byte only, and codes 3..255 map to 0. */
  function ZqOfZ3(c: u16): (r: u16)
    ensures c <= 2 ==> r == ZqCode(c)
    ensures 3 <= c % 0x100 ==> r == 0
  {
    (Lookup(TBL_LO, c % 0x100) as int) + 0x100 * (Lookup(TBL_HI, c % 0x100) as int)
  }

  /** vqtbl1q_u8 of a table over the bytes of eight lanes. */
  function TableBytes(tbl: seq<u8>, t: seq<u16>): (b: seq<u8>)
    requires |tbl| >= 16 && |t| == 8
    ensures |b| == 16
  {
    seq(16, k requires 0 <= k < 16 => Lookup(tbl, Bytes(t)[k]))
  }

  /** One vector step of poly_Z3_to_Zq: two table lookups interleaved back
      into uint16 lanes, which is ZqOfZ3 lane by lane. */
  function VectorStep(t: seq<u16>): (res: seq<u16>)
    requires |t| == 8
    ensures |res| == 8
    ensures forall k :: 0 <= k < 8 ==> res[k] == ZqOfZ3(t[k])
  {
    Trn1Lanes(TableBytes(TBL_LO, t), TableBytes(TBL_HI, t))
  }

  /** poly_Z3_to_Zq's map on a sequence of coefficients. */
  function LiftZ3(f: seq<u16>): (r: seq<u16>)
  {
    seq(|f|, k requires 0 <= k < |f| => ZqOfZ3(f[k]))
  }

  /** poly_trinary_Zq_to_Z3's map on a sequence of coefficients. */
  function LowerZq(p: seq<u16>): (r: seq<int>)
  {
    seq(|p|, k requires 0 <= k < |p| => Z3OfZq(p[k]))
  }

  /** poly_Z3_to_Zq: all POLY_N coefficients, eight at a time. */
  method Z3ToZq(r: array<u16>)
    requires r.Length == POLY_N
    modifies r
    ensures forall k :: 0 <= k < POLY_N ==> r[k] == ZqOfZ3(old(r[k]))
    ensures forall k :: 0 <= k < POLY_N && old(r[k]) <= 2 ==> r[k] == ZqCode(old(r[k]))
    ensures r[..N] == LiftZ3(old(r[..N]))
  {
    var i := 0;
    while i < POLY_N
      invariant 0 <= i <= POLY_N && i % 8 == 0
      invariant forall k :: 0 <= k < i ==> r[k] == ZqOfZ3(old(r[k]))
      invariant forall k :: i <= k < POLY_N ==> r[k] == old(r[k])
    {
      var t := r[i..i + 8];
      var res := VectorStep(t);
      assert forall k :: 0 <= k < 8 ==> res[k] == ZqOfZ3(old(r[i + k]));
      forall k | 0 <= k < 8 {
        r[i + k] := res[k];
      }
      i := i + 8;
    }
    assert r[..N] == LiftZ3(old(r[..N]));
  }

  // -------------------------------------------------------------------------
  // poly_Z3_to_SignedZ3 and poly_trinary_Zq_to_Z3.

  /** `c | -(c >> 1)` stored back in 16 bits. */
  function SignedOfZ3(c: u16): (r: u16)
    ensures c <= 2 ==> r == SampleRef.Signed16(c)
  {
    Pow2Values();
    OrBound(c, Neg16(c / 2), 16);
    SignedLane(c);
    Or(c, Neg16(c / 2))
  }

  lemma SignedLane(c: u16)
    ensures c <= 2 ==> Or(c, Neg16(c / 2)) == SampleRef.Signed16(c)
  {
    if c <= 2 {
      SampleRef.SignedMapLane(c);
    }
  }

  /** poly_Z3_to_SignedZ3's map on a sequence of coefficients. */
  function SignedZ3(f: seq<u16>): (r: seq<u16>)
  {
    seq(|f|, k requires 0 <= k < |f| => SignedOfZ3(f[k]))
  }

  /** poly_Z3_to_SignedZ3: {0, 1, 2} -> {0, 1, 2^16 - 1} on the first N coefficients. */
  method Z3ToSignedZ3(r: array<u16>)
    requires r.Length == POLY_N
    modifies r
    ensures forall k :: 0 <= k < N ==> r[k] == SignedOfZ3(old(r[k]))
    ensures forall k :: 0 <= k < N && old(r[k]) <= 2 ==> r[k] == SampleRef.Signed16(old(r[k]))
    ensures r[..N] == SignedZ3(old(r[..N]))
    ensures r[N..] == old(r[N..])
  {
    var i := 0;
    while i < N
      invariant 0 <= i <= N
      invariant forall k :: 0 <= k < i ==> r[k] == SignedOfZ3(old(r[k]))
      invariant forall k :: i <= k < POLY_N ==> r[k] == old(r[k])
    {
      r[i] := SignedOfZ3(r[i]);
      i := i + 1;
    }
    assert r[..N] == SignedZ3(old(r[..N]));
  }

  /** The signed form 2^16 - 1 and the Zq form q - 1 of the code 2 agree mod
      q, so both lifts name the same element of Rq. */
  lemma SignedLiftModQ(f: seq<u16>)
    requires Trinary(f)
    ensures EqMod(SignedZ3(f), LiftZ3(f), Q)
  {
    forall k | 0 <= k < |f|
      ensures (SignedZ3(f)[k] - LiftZ3(f)[k]) % Q == 0
    {
      var c := f[k];
      assert SignedZ3(f)[k] == SampleRef.Signed16(c) && LiftZ3(f)[k] == ZqCode(c);
      if c == 2 {
        assert SignedZ3(f)[k] - LiftZ3(f)[k] == Q * 31;
      }
    }
  }

  /** `MODQ(c)` followed by `3 & (c ^ (c >> (LOGQ - 1)))`. */
  function Z3OfZq(c: u16): (r: int)
    ensures 0 <= r <= 3
    ensures c % Q == 0 ==> r == 0
    ensures c % Q == 1 ==> r == 1
    ensures c % Q == Q - 1 ==> r == 2
  {
    Z3OfZqLane(c);
    var x := And(c, Q - 1);
    And(3, Xor(x, x / 0x400))
  }

  lemma Z3OfZqLane(c: u16)
    ensures var x := And(c, Q - 1);
      var r := And(3, Xor(x, x / 0x400));
      0 <= r <= 3 &&
      (c % Q == 0 ==> r == 0) && (c % Q == 1 ==> r == 1) && (c % Q == Q - 1 ==> r == 2)
  {
    assert And(c, Q - 1) == c % Q by {
      Pow2Values();
      ModMask(c, Q, LOGQ);
    }
    var x := And(c, Q - 1);
    AndBound(3, Xor(x, x / 0x400));
    if x == 1 {
      assert Xor(1, 0) == 1;
      assert And(3, 1) == 2 * And(1, 0) + 1;
    } else if x == Q - 1 {
      assert Xor(Q - 1, 1) == 2 * Xor(0x3FF, 0);
      assert And(3, Q - 2) == 2 * And(1, 0x3FF);
      assert And(1, 0x3FF) == 2 * And(0, 0x1FF) + 1;
    }
  }

  /** The two assignments of poly_trinary_Zq_to_Z3 to one coefficient. */
  method Z3Lane(c: u16) returns (r: u16)
    ensures r == Z3OfZq(c)
  {
    AndBound(c, Q - 1);
    r := And(c, Q - 1);
    AndBound(3, Xor(r, r / 0x400));
    r := And(3, Xor(r, r / 0x400));
  }

  /** poly_trinary_Zq_to_Z3 on the first N coefficients. */
  method TrinaryZqToZ3(r: array<u16>)
    requires r.Length == POLY_N
    modifies r
    ensures forall k :: 0 <= k < N ==> r[k] == Z3OfZq(old(r[k]))
    ensures r[..N] == LowerZq(old(r[..N]))
    ensures r[N..] == old(r[N..])
  {
    ghost var R := r[..];
    var i := 0;
    while i < N
      invariant 0 <= i <= N
      invariant forall k :: 0 <= k < i ==> r[k] == Z3OfZq(R[k])
      invariant forall k :: i <= k < POLY_N ==> r[k] == R[k]
    {
      r[i] := Z3Lane(r[i]);
      i := i + 1;
    }
    assert r[..N] == LowerZq(R[..N]);
  }

  /** poly_trinary_Zq_to_Z3 undoes poly_Z3_to_Zq on trinary coefficients. */
  lemma Z3ZqRoundTrip(c: u16)
    requires c <= 2
    ensures Z3OfZq(ZqOfZ3(c)) == c
  {
  }

  // -------------------------------------------------------------------------
  // The ring product and the S3 product.

  /** Every coefficient of p reduced mod q (the MODQ loop). */
  function ReduceQ(p: seq<int>): (r: seq<int>)
    ensures |r| == |p|
    ensures forall k :: 0 <= k < |p| ==> 0 <= r[k] < Q && (r[k] - p[k]) % Q == 0
  {
    var r := seq(|p|, k requires 0 <= k < |p| => p[k] % Q);
    assert forall k :: 0 <= k < |p| ==> (r[k] - p[k]) % Q == 0 by {
      forall k | 0 <= k < |p| {
        ModShift(p[k], Q, -(p[k] / Q));
      }
    }
    r
  }

  /** Reducing mod 2^16 keeps the value mod q. */
  lemma WrapKeepsModQ(x: int)
    ensures (x % W16 - x) % Q == 0
  {
    assert x % W16 - x == Q * (-32 * (x / W16));
    DivModUnique(x % W16 - x, Q, -32 * (x / W16), 0);
  }

  /** Every coefficient stored in a uint16 word: the values are kept mod q. */
  function Wrap16(p: seq<int>): (w: seq<u16>)
    ensures EqMod(w, p, Q)
  {
    var w := seq(|p|, k requires 0 <= k < |p| => p[k] % W16);
    assert EqMod(w, p, Q) by {
      forall k | 0 <= k < |p|
        ensures (w[k] - p[k]) % Q == 0
      {
        WrapKeepsModQ(p[k]);
      }
    }
    w
  }

  /** Coefficients congruent to p and each reduced mod q are ReduceQ(p). */
  lemma ReduceCongruent(v: seq<int>, w: seq<int>, p: seq<int>)
    requires |v| == |w| && EqMod(w, p, Q)
    requires forall k :: 0 <= k < |v| ==> v[k] == w[k] % Q
    ensures v == ReduceQ(p)
  {
    forall k | 0 <= k < |v|
      ensures v[k] == ReduceQ(p)[k]
    {
      ModOfDvd(w[k], p[k], Q);
    }
  }

  /** poly_Rq_mul: r = a * b in Z_q[x]/(x^N - 1) on the first N coefficients,
      with the padding coefficients N..N+2 of b set to zero first.  Only the
      congruence mod q is promised; the padding of r is left unspecified. */
  method RqMul(r: array<u16>, a: array<u16>, b: array<u16>)
    requires r.Length == POLY_N && a.Length == POLY_N && b.Length == POLY_N
    modifies r, b
    ensures EqMod(r[..N], Conv(old(a[..N]), old(b[..N])), Q)
    ensures b[N..N + 3] == [0, 0, 0]
    ensures r != b ==> b[..N] == old(b[..N]) && b[N + 3..] == old(b[N + 3..])
  {
    var v := Wrap16(Conv(a[..N], b[..N]));
    b[N] := 0;
    b[N + 1] := 0;
    b[N + 2] := 0;
    forall k | 0 <= k < N {
      r[k] := v[k];
    }
    assert r[..N] == v;
  }

  /** poly_S3_mul: the ring product, every coefficient reduced mod q, then
      poly_mod_3_Phi_n (outside this model, given as mod3PhiN). */
  method S3Mul(r: array<u16>, a: array<u16>, b: array<u16>, mod3PhiN: seq<int> -> seq<u16>)
    requires r.Length == POLY_N && a.Length == POLY_N && b.Length == POLY_N
    requires |mod3PhiN(ReduceQ(Conv(a[..N], b[..N])))| == N
    modifies r, b
    ensures r[..N] == mod3PhiN(ReduceQ(Conv(old(a[..N]), old(b[..N]))))
    ensures b[N..N + 3] == [0, 0, 0]
  {
    ghost var p := Conv(a[..N], b[..N]);
    RqMul(r, a, b);
    ghost var w: seq<int> := r[..N];
    ReduceCoeffs(r);
    ReduceCongruent(r[..N], w, p);
    var v := mod3PhiN(r[..N]);
    forall k | 0 <= k < N {
      r[k] := v[k];
    }
    assert r[..N] == v;
  }

  /** The MODQ loop of poly_S3_mul. */
  method ReduceCoeffs(r: array<u16>)
    requires r.Length == POLY_N
    modifies r
    ensures forall k :: 0 <= k < N ==> r[k] == old(r[k]) % Q
    ensures r[N..] == old(r[N..])
  {
    ghost var R := r[..];
    var i := 0;
    while i < N
      invariant 0 <= i <= N
      invariant forall k :: 0 <= k < i ==> r[k] == R[k] % Q
      invariant forall k :: i <= k < POLY_N ==> r[k] == R[k]
    {
      assert And(r[i], Q - 1) == r[i] % Q by {
        Pow2Values();
        ModMask(r[i], Q, LOGQ);
      }
      r[i] := And(r[i], Q - 1);
      i := i + 1;
    }
  }

  // -------------------------------------------------------------------------
  // poly_R2_inv_to_Rq_inv and poly_Rq_inv.

  /** The four statements of one round: c = x * b; c[0] += 2; y = c * x. */
  method LiftRound(x: array<u16>, b: array<u16>, c: array<u16>, y: array<u16>, ghost a: seq<int>)
    requires x.Length == POLY_N && b.Length == POLY_N && c.Length == POLY_N && y.Length == POLY_N
    requires x != b && x != c && x != y && b != c && b != y && c != y
    requires |a| == N && EqMod(b[..N], Lin(-1, a, 0, a), Q)
    modifies b, c, x, y
    ensures EqMod(y[..N], Newton(a, old(x[..N])), Q)
    ensures b[..N] == old(b[..N]) && x[..N] == old(x[..N])
  {
    ghost var x0 := x[..N];
    RqMul(c, x, b);
    ghost var c0: seq<int> := c[..N];
    c[0] := (c[0] + 2) % W16;
    ghost var c1 := c[..N];
    forall k | 0 <= k < N
      ensures (c1[k] - Lin(1, c0, 2, One(N))[k]) % Q == 0
    {
      if k == 0 {
        WrapKeepsModQ(c0[0] + 2);
      }
    }
    RqMul(y, c, x);
    RoundCongruences(a, x0, b[..N], c0, c1, y[..N], Q);
  }

  /** The congruences of one round combine into y == Newton(a, x) (mod q). */
  lemma RoundCongruences(a: seq<int>, x: seq<int>, b: seq<int>, c0: seq<int>, c1: seq<int>, y: seq<int>, q: int)
    requires |a| == |x| == |b| == |c0| > 0
    requires EqMod(b, Lin(-1, a, 0, a), q)
    requires EqMod(c0, Conv(x, b), q)
    requires EqMod(c1, Lin(1, c0, 2, One(|a|)), q)
    requires EqMod(y, Conv(c1, x), q)
    ensures EqMod(y, Newton(a, x), q)
  {
    var n := |a|;
    var p := Conv(x, a);
    EqModRefl(x, q);
    EqModRefl(One(n), q);
    // c0 == x * (-a) == -p
    ConvCongr(x, x, b, Lin(-1, a, 0, a), q);
    ConvLinRight(-1, a, 0, a, x);
    EqModTrans(c0, Conv(x, b), Lin(-1, p, 0, p), q);
    // c1 == 2 - p
    LinCongr(1, c0, Lin(-1, p, 0, p), 2, One(n), One(n), q);
    assert Lin(1, Lin(-1, p, 0, p), 2, One(n)) == Lin(2, One(n), -1, p);
    EqModTrans(c1, Lin(1, c0, 2, One(n)), Lin(2, One(n), -1, p), q);
    // y == (2 - p) * x
    ConvCongr(c1, Lin(2, One(n), -1, p), x, x, q);
    EqModTrans(y, Conv(c1, x), Newton(a, x), q);
  }

  /** A round's result tracks the exact Newton iterate and doubles the
      precision of the inverse, from 2^k up to at most q, both in
      Z[x]/(x^N - 1) and in Z[x]/(Phi_N), where NTRU inverses live. */
  lemma RoundPrecision(a: seq<int>, x: seq<int>, y: seq<int>, ideal: seq<int>, k: nat, k': nat)
    requires |a| == |x| == N
    requires EqMod(x, ideal, Q) && EqMod(y, Newton(a, x), Q)
    requires k' <= k + k && k' <= LOGQ
    ensures EqMod(y, Newton(a, ideal), Q)
    ensures EqMod(Conv(x, a), One(N), Pow2(k)) ==> EqMod(Conv(y, a), One(N), Pow2(k'))
    ensures EqModPhi(Conv(x, a), One(N), Pow2(k)) ==> EqModPhi(Conv(y, a), One(N), Pow2(k'))
  {
    NewtonCongr(a, x, ideal, Q);
    EqModTrans(y, Newton(a, x), Newton(a, ideal), Q);
    PrecisionBounds(k, k');
    PowAdd(k, k);
    if EqMod(Conv(x, a), One(N), Pow2(k)) {
      NewtonStep(a, x, y, Pow2(k), Q, Pow2(k'));
    }
    if EqModPhi(Conv(x, a), One(N), Pow2(k)) {
      NewtonStepPhi(a, x, y, Pow2(k), Q, Pow2(k'));
    }
  }

  /** The moduli of one round: 2^k' divides both q and 2^(2k). */
  lemma PrecisionBounds(k: nat, k': nat)
    requires k' <= k + k && k' <= LOGQ
    ensures 0 < Pow2(k') <= Q && Q % Pow2(k') == 0
    ensures Pow2(k') <= Pow2(k + k) && Pow2(k + k) % Pow2(k') == 0
  {
    Pow2Values();
    PowDvd(k', LOGQ);
    PowDvd(k', k + k);
  }

  /** Four rounds compute the fourth Newton iterate mod q, and lift an
      inverse mod 2 through precisions 4, 16, 256 to q = 2^11; in particular
      an inverse modulo (2, Phi_N), as poly_R2_inv computes, becomes one
      modulo (q, Phi_N). */
  lemma LiftChain(a: seq<int>, x: seq<int>, y1: seq<int>, y2: seq<int>, y3: seq<int>, y4: seq<int>)
    requires |a| == |x| == N
    requires EqMod(y1, Newton(a, x), Q) && EqMod(y2, Newton(a, y1), Q)
    requires EqMod(y3, Newton(a, y2), Q) && EqMod(y4, Newton(a, y3), Q)
    ensures EqMod(y4, NewtonIter(a, x, 4), Q)
    ensures EqMod(Conv(x, a), One(N), 2) ==> EqMod(Conv(y4, a), One(N), Q)
    ensures EqModPhi(Conv(x, a), One(N), 2) ==> EqModPhi(Conv(y4, a), One(N), Q)
  {
    Pow2Values();
    EqModRefl(x, Q);
    RoundPrecision(a, x, y1, NewtonIter(a, x, 0), 1, 2);
    RoundPrecision(a, y1, y2, NewtonIter(a, x, 1), 2, 4);
    RoundPrecision(a, y2, y3, NewtonIter(a, x, 2), 4, 8);
    RoundPrecision(a, y3, y4, NewtonIter(a, x, 3), 8, 11);
  }

  /** b[i] = MODQ(-a[i]) makes b congruent to -a. */
  lemma NegModQ(b: seq<int>, a: seq<int>)
    requires |b| == |a|
    requires forall k :: 0 <= k < |a| ==> b[k] == (-a[k]) % Q
    ensures EqMod(b, Lin(-1, a, 0, a), Q)
  {
    forall k | 0 <= k < |a|
      ensures (b[k] - Lin(-1, a, 0, a)[k]) % Q == 0
    {
      DivModUnique(b[k] + a[k], Q, -((-a[k]) / Q), 0);
    }
  }

  /** poly_R2_inv_to_Rq_inv: four Newton rounds from ai, with b = -a mod q.
      An inverse of a modulo (2, Phi_N) in ai gives one modulo (q, Phi_N). */
  method R2InvToRqInv(r: array<u16>, ai: array<u16>, a: array<u16>)
    requires r.Length == POLY_N && ai.Length == POLY_N && a.Length == POLY_N
    modifies r
    ensures EqMod(r[..N], NewtonIter(old(a[..N]), old(ai[..N]), 4), Q)
    ensures EqMod(Conv(old(ai[..N]), old(a[..N])), One(N), 2) ==>
              EqMod(Conv(r[..N], old(a[..N])), One(N), Q)
    ensures EqModPhi(Conv(old(ai[..N]), old(a[..N])), One(N), 2) ==>
              EqModPhi(Conv(r[..N], old(a[..N])), One(N), Q)
  {
    ghost var A: seq<int>, X: seq<int> := a[..N], ai[..N];
    var b := new u16[POLY_N];
    var i := 0;
    while i < N
      invariant 0 <= i <= N
      invariant forall k :: 0 <= k < i ==> b[k] == (-A[k]) % Q
      invariant a[..N] == A && ai[..N] == X
    {
      b[i] := (-a[i]) % Q;
      i := i + 1;
    }
    NegModQ(b[..N], A);
    ghost var B := b[..N];
    i := 0;
    while i < N
      invariant 0 <= i <= N
      invariant b[..N] == B
      invariant forall k :: 0 <= k < i ==> r[k] == X[k]
      invariant forall k :: i <= k < N ==> ai[k] == X[k]
    {
      r[i] := ai[i];
      i := i + 1;
    }
    assert r[..N] == X;
    var c := new u16[POLY_N];
    var s := new u16[POLY_N];
    LiftRound(r, b, c, s, A);
    ghost var y1 := s[..N];
    LiftRound(s, b, c, r, A);
    ghost var y2 := r[..N];
    LiftRound(r, b, c, s, A);
    ghost var y3 := s[..N];
    LiftRound(s, b, c, r, A);
    LiftChain(A, X, y1, y2, y3, r[..N]);
  }

  /** poly_Rq_inv: the inverse modulo (2, Phi_N) from poly_R2_inv (outside
      this model, given as r2Inv), lifted to an inverse modulo (q, Phi_N). */
  method RqInv(r: array<u16>, a: array<u16>, r2Inv: seq<int> -> seq<u16>)
    requires r.Length == POLY_N && a.Length == POLY_N
    requires |r2Inv(a[..N])| == N
    modifies r
    ensures EqMod(r[..N], NewtonIter(old(a[..N]), r2Inv(old(a[..N])), 4), Q)
    ensures EqMod(Conv(r2Inv(old(a[..N])), old(a[..N])), One(N), 2) ==>
              EqMod(Conv(r[..N], old(a[..N])), One(N), Q)
    ensures EqModPhi(Conv(r2Inv(old(a[..N])), old(a[..N])), One(N), 2) ==>
              EqModPhi(Conv(r[..N], old(a[..N])), One(N), Q)
  {
    ghost var A: seq<int> := a[..N];
    var ai2 := new u16[POLY_N];
    var v := r2Inv(a[..N]);
    forall k | 0 <= k < N {
      ai2[k] := v[k];
    }
    assert ai2[..N] == v && a[..N] == A;
    R2InvToRqInv(r, ai2, a);
  }
}
