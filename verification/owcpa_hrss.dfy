// The OW-CPA layer of ntruhrss701 in the NEON build (owcpa.c), which is also
// the template that the hps builds of that tree compile with NTRU_HPS: the
// r check in its MODQ form, the m check in its p1/m1 form, the transform of
// g in key generation, and the failure flag of decryption.  The element-wise
// loops of encryption and decryption are Transforms.AddLift and
// Transforms.SubLift with n = N.

module OwcpaHrss {
  import opened Bits
  import opened Common
  import opened Ring
  import opened Transforms

  const N: int := 701
  const Q: int := 8192
  const LOGQ: int := 13
  /** Coefficients per poly: N rounded up to a multiple of 32. */
  const POLY_N: int := 704

  // -------------------------------------------------------------------------
  // owcpa_check_r

  /** r is a valid message polynomial: every coefficient is 0, 1 or -1 modulo
      q, and the last one is 0 modulo q. */
  predicate ValidR(r: seq<int>)
    requires |r| == N
  {
    (forall k :: 0 <= k < N ==> TrinaryMod(r[k], Q)) && r[N - 1] % Q == 0
  }

  /** `c = MODQ(x + 1)` lies in {0, 1, 2} exactly when x is 0, 1 or -1 modulo q. */
  lemma ShiftedTrinary(x: int)
    requires 0 <= x
    ensures (x + 1) % Q <= 2 <==> TrinaryMod(x, Q)
  {
    var h, l := x / Q, x % Q;
    if l == Q - 1 {
      DivModUnique(x + 1, Q, h + 1, 0);
    } else {
      DivModUnique(x + 1, Q, h, l + 1);
    }
  }

  /** For c in [0, q): `c & (q - 4)` is 0 exactly when c < 4. */
  lemma HighMask(c: int)
    requires 0 <= c < Q
    ensures And(c, Q - 4) < W16
    ensures And(c, Q - 4) == 0 <==> c < 4
  {
    var d := c / 4;
    DivModUnique(d, 2048, 0, d);
    Pow2Values();
    AndLowMask(d, 11);
    AndTimes4(c, 2047);
    assert And(c, Q - 4) == 4 * d;
    AndBound(c, Q - 4);
  }

  /** For c in [0, 4): `(c + 1) & 4` is 0 exactly when c != 3. */
  lemma LowMask(c: int)
    requires 0 <= c < 4
    ensures And(c + 1, 4) < W16
    ensures And(c + 1, 4) == 0 <==> c <= 2
  {
    assert And(1, 2) == 2 * And(0, 1);
    assert And(2, 4) == 2 * And(1, 2);
    assert And(3, 4) == 2 * And(1, 2);
    if c == 3 {
      assert And(1, 1) == 2 * And(0, 0) + 1;
      assert And(2, 2) == 2 * And(1, 1);
      assert And(4, 4) == 2 * And(2, 2);
    }
  }

  /** For c in [0, q): both masks of owcpa_check_r are 0 exactly when c <= 2. */
  lemma LaneMasks(c: int)
    requires 0 <= c < Q
    ensures And(c, Q - 4) < W16 && And(c + 1, 4) < W16
    ensures And(c, Q - 4) == 0 && And(c + 1, 4) == 0 <==> c <= 2
  {
    HighMask(c);
    AndBound(c + 1, 4);
    if c < 4 {
      LowMask(c);
    }
  }

  /** One iteration of the owcpa_check_r loop keeps t zero exactly while every
      coefficient seen is trinary modulo q. */
  lemma RStep(t: int, x: u16)
    requires 0 <= t < W16
    ensures var c := And(x + 1, Q - 1);
      var t' := Or(Or(t, And(c, Q - 4)), And(c + 1, 4));
      0 <= t' < W16 && (t' == 0 <==> t == 0 && TrinaryMod(x, Q))
  {
    assert And(x + 1, Q - 1) == (x + 1) % Q by {
      Pow2Values();
      ModMask(x + 1, Q, LOGQ);
    }
    var c := And(x + 1, Q - 1);
    ShiftedTrinary(x);
    LaneMasks(c);
    OrWords(t, And(c, Q - 4));
    OrWords(Or(t, And(c, Q - 4)), And(c + 1, 4));
  }

  /** The last step of owcpa_check_r: `t |= MODQ(r[N-1])`. */
  lemma RLast(t: int, x: u16)
    requires 0 <= t < W16
    ensures 0 <= Or(t, And(x, Q - 1)) < W16
    ensures Or(t, And(x, Q - 1)) == 0 <==> t == 0 && x % Q == 0
  {
    assert And(x, Q - 1) == x % Q by {
      Pow2Values();
      ModMask(x, Q, LOGQ);
    }
    OrWords(t, And(x, Q - 1));
  }

  /** owcpa_check_r: accepts any 16-bit coefficients; ORs the two masks of
      `MODQ(r[i] + 1)` for every i < N and `MODQ(r[N-1])` into the uint64_t t,
      and returns `(-t) >> 63`, the nonzero flag of t. */
  method CheckR(r: array<u16>) returns (fail: int)
    requires r.Length == POLY_N
    ensures fail == (if ValidR(r[..N]) then 0 else 1)
  {
    var t := RMasks(r);
    RLast(t, r[N - 1]);
    t := Or(t, And(r[N - 1], Q - 1));
    NonZeroFlag64(t);
    fail := Neg64(t) / 0x8000_0000_0000_0000;
    assert ValidR(r[..N]) <==> t == 0 by {
      assert forall k :: 0 <= k < N ==> r[..N][k] == r[k];
    }
  }

  /** The loop of owcpa_check_r: t is zero exactly when every coefficient is
      trinary modulo q. */
  method RMasks(r: array<u16>) returns (t: int)
    requires r.Length == POLY_N
    ensures 0 <= t < W16
    ensures t == 0 <==> forall k :: 0 <= k < N ==> TrinaryMod(r[k], Q)
  {
    t := 0;
    var i := 0;
    while i < N
      invariant 0 <= i <= N
      invariant 0 <= t < W16
      invariant t == 0 <==> forall k :: 0 <= k < i ==> TrinaryMod(r[k], Q)
    {
      var x: int := r[i];
      RStep(t, x);
      var c := And(x + 1, Q - 1);
      t := Or(t, And(c, Q - 4));
      t := Or(t, And(c + 1, 4));
      i := i + 1;
    }
  }

  // -------------------------------------------------------------------------
  // owcpa_check_m (compiled under NTRU_HPS)

  /** owcpa_check_m in its p1/m1 form: counts the 1s in p1 and the 2s in m1
      (uint16_t, they cannot wrap for n <= POLY_N) and returns 0 exactly when
      p1 == m1 and p1 + m1 == weight.  The specification is the same as that
      of the hps2048677 formulation, OwcpaHps.CheckM. */
  method CheckM(m: array<u16>, n: int, weight: int) returns (fail: int)
    requires m.Length == POLY_N && 0 <= n <= POLY_N
    requires Trinary(m[..n]) && 0 <= weight < W16
    ensures fail == (if MessageSpace(m[..n], weight) then 0 else 1)
  {
    var p1, m1 := CountCodes(m, n);
    MessageFlag(p1, m1, weight);
    var t: int := 0;
    t := Or(t, Xor(p1, m1));
    t := Or(t, Xor(p1 + m1, weight));
    NonZeroFlag64(t);
    fail := Neg64(t) / 0x8000_0000_0000_0000;
  }

  /** The two ORs of owcpa_check_m leave t zero exactly when p1 == m1 and
      p1 + m1 == weight. */
  lemma MessageFlag(p1: int, m1: int, weight: int)
    requires 0 <= p1 && 0 <= m1 && p1 + m1 < W16 && 0 <= weight < W16
    ensures var t := Or(Or(0, Xor(p1, m1)), Xor(p1 + m1, weight));
      0 <= t < W16 && (t == 0 <==> p1 == m1 && p1 + m1 == weight)
  {
    XorWords(p1, m1);
    XorWords(p1 + m1, weight);
    OrWords(0, Xor(p1, m1));
    OrWords(Or(0, Xor(p1, m1)), Xor(p1 + m1, weight));
  }

  /** The counting loop of owcpa_check_m: p1 counts the 1s, m1 the 2s. */
  method CountCodes(m: array<u16>, n: int) returns (p1: u16, m1: u16)
    requires m.Length == POLY_N && 0 <= n <= POLY_N
    requires Trinary(m[..n])
    ensures p1 == Count(m[..n], 1) && m1 == Count(m[..n], 2)
    ensures p1 + m1 <= n
  {
    p1, m1 := 0, 0;
    var i := 0;
    while i < n
      invariant 0 <= i <= n
      invariant p1 == Count(m[..i], 1) && m1 == Count(m[..i], 2)
      invariant p1 + m1 <= i
    {
      assert m[..n][i] == m[i];
      TrinaryBits(m[i]);
      assert m[..i + 1] == m[..i] + [m[i]];
      CountSnoc(m[..i], m[i], 1);
      CountSnoc(m[..i], m[i], 2);
      p1 := p1 + And(m[i], 1);
      m1 := m1 + And(m[i], 2) / 2;
      i := i + 1;
    }
    assert m[..i] == m[..n];
  }

  // -------------------------------------------------------------------------
  // owcpa_keypair: the transform of g, and owcpa_dec: the failure flag.

  /** The two `#ifdef` branches of owcpa_keypair that turn the lifted g into
      3*(x-1)*g (hrss) or 3*g (hps). */
  method TransformG(g: array<u16>, hps: bool)
    requires g.Length == POLY_N
    modifies g
    ensures g[..N] == (if hps then Scale3(old(g[..N])) else Times3XMinus1(old(g[..N])))
    ensures g[N..] == old(g[N..])
    ensures hps ==> EqMod(g[..N], Conv(Lin(3, One(N), 0, One(N)), old(g[..N])), Q)
    ensures !hps && old(g[N - 1]) == 0 ==>
      EqMod(g[..N], Conv(Lin(3, X(N), -3, One(N)), old(g[..N])), Q)
  {
    ghost var G: seq<int> := g[..N];
    if hps {
      Mul3(g, N);
      Scale3IsProduct(G);
      EqModWeaken(g[..N], Conv(Lin(3, One(N), 0, One(N)), G), W16, Q);
    } else {
      Mul3XMinus1(g, N);
      if G[N - 1] == 0 {
        Times3XMinus1IsProduct(G);
        EqModWeaken(g[..N], Conv(Lin(3, X(N), -3, One(N)), G), W16, Q);
      }
    }
  }

  /** The failure flag of owcpa_dec: `fail = 0`, `fail |= owcpa_check_m(m)`
      when compiled for hps, then `fail |= owcpa_check_r(r)`; no check is
      skipped because of an earlier one. */
  method DecFail(m: array<u16>, r: array<u16>, hps: bool, weight: int) returns (fail: int)
    requires m.Length == POLY_N && r.Length == POLY_N
    requires hps ==> Trinary(m[..N]) && 0 <= weight < W16
    ensures fail == (if (!hps || MessageSpace(m[..N], weight)) && ValidR(r[..N]) then 0 else 1)
  {
    fail := 0;
    if hps {
      var failM := CheckM(m, N, weight);
      OrFlags(fail, failM);
      fail := Or(fail, failM);
    }
    var failR := CheckR(r);
    OrFlags(fail, failR);
    fail := Or(fail, failR);
  }
}
