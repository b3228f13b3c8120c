// Portable fixed-weight sampler of ntruhps4096821 (shuffling/ref): the
// rejection sampling of shuffle indices, the isochronous and branching
// assignment of coefficients, the sample_fg / sample_rm dispatch, and the
// HRSS sign-fixing `sample_iid_plus`.

module SampleRef {
  import opened Bits
  import opened Common

  const N: int := 821
  const Q: int := 4096
  /** NTRU_WEIGHT = q/8 - 2. */
  const WEIGHT: int := 510
  /** NTRU_SAMPLE_IID_BYTES = N - 1. */
  const IID_BYTES: int := N - 1

  /** The byte buffer read as little-endian 16-bit words (the `(const uint16_t *)u` cast). */
  function Words(b: seq<u8>): (w: seq<u16>)
    ensures |w| == |b| / 2
    ensures forall k :: 0 <= k < |w| ==> w[k] == b[2 * k] as int + 0x100 * (b[2 * k + 1] as int)
  {
    if |b| < 2 then [] else [b[0] as int + 0x100 * (b[1] as int)] + Words(b[2..])
  }

  // -------------------------------------------------------------------------
  // Rejection sampling of the shuffle indices

  /** Rejection threshold for the range [0, s): 2^16 mod s. */
  function Threshold(s: int): (r: int)
    requires s > 0
  {
    W16 % s
  }

  /** A word w is rejected for the range [0, s) when the low half of w*s is below the threshold. */
  predicate Rejected(w: int, s: int)
    requires s > 0
  {
    (w * s) % W16 < Threshold(s)
  }

  /** The high half of w*s: an index in [0, s). */
  function Scaled(w: int, s: int): (r: int)
  {
    (w * s) / W16
  }

  lemma ScaledBound(w: u16, s: int)
    requires s > 0
    ensures 0 <= Scaled(w, s) < s
  {
    assert w * s <= 0xFFFF * s;
    assert 0xFFFF * s < W16 * s;
  }

  /** Replacement draws for the range [0, s), taken in order from u[j..]: the
      accepted index and the cursor after it, or None when u runs out. */
  function Redraw(u: seq<u16>, s: int, j: nat): (r: Option<(int, nat)>)
    requires s > 0
    decreases |u| - j
  {
    if j >= |u| then None
    else if Rejected(u[j], s) then Redraw(u, s, j + 1)
    else Some((Scaled(u[j], s), j + 1))
  }

  /** The index for position i: the first draw is u[i]; on rejection the
      replacements come from the shared cursor j. */
  function DrawIndex(u: seq<u16>, i: nat, j: nat): (r: Option<(int, nat)>)
    requires i < N - 1 && i < |u|
  {
    var s := N - 1 - i;
    if Rejected(u[i], s) then Redraw(u, s, j) else Some((Scaled(u[i], s), j))
  }

  /** The first k shuffle indices and the replacement cursor after them; the
      cursor starts at N - 1, just past the words of the first draws. */
  function Indices(u: seq<u16>, k: nat): (r: Option<(seq<int>, nat)>)
    requires k <= N - 1 <= |u|
    ensures r.Some? ==> |r.value.0| == k
  {
    if k == 0 then Some(([], N - 1))
    else
      match Indices(u, k - 1)
      case None => None
      case Some(p) =>
        match DrawIndex(u, k - 1, p.1)
        case None => None
        case Some(d) => Some((p.0 + [d.0], d.1))
  }

  /** A replacement run consumes u[j..j'), rejects all but its last word, and
      yields the index of that last word. */
  lemma {:induction false} RedrawSpec(u: seq<u16>, s: int, j: nat)
    requires s > 0
    requires Redraw(u, s, j).Some?
    ensures var (x, j') := Redraw(u, s, j).value;
      j < j' <= |u| && 0 <= x < s &&
      !Rejected(u[j' - 1], s) && x == Scaled(u[j' - 1], s) &&
      forall k :: j <= k < j' - 1 ==> Rejected(u[k], s)
    decreases |u| - j
  {
    if Rejected(u[j], s) {
      RedrawSpec(u, s, j + 1);
    } else {
      ScaledBound(u[j], s);
    }
  }

  /** Every index satisfies 0 <= idx[i] < N-1-i, and the cursor never moves back. */
  lemma {:induction false} IndicesSpec(u: seq<u16>, k: nat)
    requires k <= N - 1 <= |u|
    requires Indices(u, k).Some?
    ensures var (ix, j) := Indices(u, k).value;
      |ix| == k && N - 1 <= j <= |u| &&
      forall i :: 0 <= i < k ==> 0 <= ix[i] < N - 1 - i
  {
    if k > 0 {
      IndicesSpec(u, k - 1);
      var (ix, j) := Indices(u, k - 1).value;
      var s := N - 1 - (k - 1);
      if Rejected(u[k - 1], s) {
        RedrawSpec(u, s, j);
      } else {
        ScaledBound(u[k - 1], s);
      }
    }
  }

  /** Indices are produced front to back: a successful run of k draws extends a successful run of k - 1. */
  lemma IndicesPrefix(u: seq<u16>, k: nat)
    requires 0 < k <= N - 1 <= |u|
    requires Indices(u, k).Some?
    ensures Indices(u, k - 1).Some?
    ensures DrawIndex(u, k - 1, Indices(u, k - 1).value.1).Some?
    ensures Indices(u, k).value.0 == Indices(u, k - 1).value.0 + [DrawIndex(u, k - 1, Indices(u, k - 1).value.1).value.0]
  {
  }

  lemma {:induction false} IndicesDown(u: seq<u16>, k: nat, m: nat)
    requires m <= k <= N - 1 <= |u|
    requires Indices(u, k).Some?
    ensures Indices(u, m).Some?
    decreases k - m
  {
    if m < k {
      IndicesPrefix(u, k);
      IndicesDown(u, k - 1, m);
    }
  }

  /** The N - 1 shuffle indices rejsamplingmod produces from u. */
  function ShuffleIndices(u: seq<u16>): (ix: seq<int>)
    requires N - 1 <= |u| && Indices(u, N - 1).Some?
    ensures |ix| == N - 1 && ValidIndices(ix, N - 1)
  {
    IndicesSpec(u, N - 1);
    Indices(u, N - 1).value.0
  }

  /** The first k indices are a prefix of the full list of N - 1 indices. */
  lemma {:induction false} IndicesPrefixOf(u: seq<u16>, k: nat)
    requires k <= N - 1 <= |u|
    requires Indices(u, N - 1).Some?
    ensures Indices(u, k).Some?
    ensures Indices(u, k).value.0 == Indices(u, N - 1).value.0[..k]
    decreases N - 1 - k
  {
    IndicesSpec(u, N - 1);
    if k < N - 1 {
      IndicesPrefixOf(u, k + 1);
      IndicesPrefix(u, k + 1);
      var ix := Indices(u, N - 1).value.0;
      assert ix[..k + 1][..k] == ix[..k];
    }
  }

  /** Position p takes the p-th index, drawn from the cursor left by positions 0..p-1. */
  lemma DrawAt(u: seq<u16>, p: nat)
    requires p < N - 1 <= |u|
    requires Indices(u, N - 1).Some?
    ensures Indices(u, p).Some? && Indices(u, p + 1).Some?
    ensures DrawIndex(u, p, Indices(u, p).value.1) ==
      Some((Indices(u, N - 1).value.0[p], Indices(u, p + 1).value.1))
  {
    IndicesPrefixOf(u, p + 1);
    IndicesPrefix(u, p + 1);
    IndicesSpec(u, p + 1);
  }

  /** Positions whose first draw is accepted do not move the replacement cursor. */
  lemma {:induction false} CursorSkip(u: seq<u16>, a: nat, b: nat)
    requires a <= b <= N - 1 <= |u|
    requires Indices(u, N - 1).Some?
    requires forall p :: a <= p < b ==> !Rejected(u[p], N - 1 - p)
    ensures Indices(u, a).Some? && Indices(u, b).Some?
    ensures Indices(u, b).value.1 == Indices(u, a).value.1
    decreases b - a
  {
    IndicesDown(u, N - 1, a);
    IndicesDown(u, N - 1, b);
    if a < b {
      CursorSkip(u, a, b - 1);
      DrawAt(u, b - 1);
    }
  }

  /** rejsamplingmod: fills shuffle_indices from u, replacing rejected draws
      with words taken in order from u[N-1] onward.  Running out of words is
      excluded by the precondition. */
  method RejSamplingMod(shuffle: array<int>, u: seq<u16>)
    requires shuffle.Length == N - 1 && N - 1 <= |u|
    requires Indices(u, N - 1).Some?
    modifies shuffle
    ensures shuffle[..] == Indices(u, N - 1).value.0
  {
    var i := 0;
    var j := N - 1;
    while i < N - 1
      invariant 0 <= i <= N - 1
      invariant Indices(u, i) == Some((shuffle[..i], j))
    {
      var s := N - 1 - i;
      var t := W16 % s;
      var m := u[i] * s;
      var l := m % W16;
      IndicesDown(u, N - 1, i + 1);
      IndicesSpec(u, i);
      ghost var j0 := j;
      while l < t
        invariant j <= |u|
        invariant DrawIndex(u, i, j0) == (if l < t then Redraw(u, s, j) else Some((m / W16, j)))
        decreases |u| - j
      {
        m := u[j] * s;
        j := j + 1;
        l := m % W16;
      }
      shuffle[i] := m / W16;
      assert shuffle[..i + 1] == shuffle[..i] + [m / W16];
      i := i + 1;
    }
    assert shuffle[..] == shuffle[..N - 1];
  }

  // -------------------------------------------------------------------------
  // Assignment of coefficients from the shuffle indices

  /** Coefficients assigned so far and the two running counters. */
  datatype Counters = Counters(coeffs: seq<int>, c0: int, c01: int)

  /** Isochronous assignment: index p gets 2 - [p < c0] - [p < c01], and each
      counter drops by one exactly when it was above p. */
  function AssignIso(p: seq<int>, c0: int, c01: int): (r: Counters)
  {
    if p == [] then Counters([], c0, c01)
    else
      var st := AssignIso(p[..|p| - 1], c0, c01);
      var x := p[|p| - 1];
      var t0 := if x < st.c0 then -1 else 0;
      var t1 := if x < st.c01 then -1 else 0;
      Counters(st.coeffs + [2 + t0 + t1], st.c0 + t0, st.c01 + t1)
  }

  /** Branching assignment of the `#else` variant, with counters c0 and c1. */
  function AssignBranching(p: seq<int>, c0: int, c1: int): (r: Counters)
  {
    if p == [] then Counters([], c0, c1)
    else
      var st := AssignBranching(p[..|p| - 1], c0, c1);
      var x := p[|p| - 1];
      if x < st.c0 then Counters(st.coeffs + [0], st.c0 - 1, st.c01)
      else if x < st.c0 + st.c01 then Counters(st.coeffs + [1], st.c0, st.c01 - 1)
      else Counters(st.coeffs + [2], st.c0, st.c01)
  }

  /** Shuffle indices for n positions: position i draws from [0, n - i). */
  predicate ValidIndices(p: seq<int>, n: int)
  {
    |p| <= n && forall i :: 0 <= i < |p| ==> 0 <= p[i] < n - i
  }

  /** Counter invariant: before position k, c0 zeros, c01 - c0 ones and
      (n - k) - c01 twos remain to be placed, all three non-negative. */
  lemma {:induction false} AssignIsoCounts(p: seq<int>, n: int, c0: int, c01: int)
    requires ValidIndices(p, n)
    requires 0 <= c0 <= c01 <= n
    ensures var st := AssignIso(p, c0, c01);
      |st.coeffs| == |p| && Trinary(st.coeffs) &&
      0 <= st.c0 <= st.c01 <= n - |p| &&
      Count(st.coeffs, 0) == c0 - st.c0 &&
      Count(st.coeffs, 1) == (c01 - c0) - (st.c01 - st.c0) &&
      Count(st.coeffs, 2) == (n - c01) - ((n - |p|) - st.c01)
  {
    if p != [] {
      var q := p[..|p| - 1];
      assert ValidIndices(q, n);
      AssignIsoCounts(q, n, c0, c01);
      var st := AssignIso(q, c0, c01);
      var x := p[|p| - 1];
      var v := if x < st.c0 then 0 else if x < st.c01 then 1 else 2;
      var cs := AssignIso(p, c0, c01).coeffs;
      assert cs == st.coeffs + [v];
      assert Trinary(cs) by {
        forall i | 0 <= i < |cs|
          ensures 0 <= cs[i] <= 2
        {
          if i < |q| {
            assert cs[i] == st.coeffs[i];
          }
        }
      }
      CountSnoc(st.coeffs, v, 0);
      CountSnoc(st.coeffs, v, 1);
      CountSnoc(st.coeffs, v, 2);
    }
  }

  lemma AssignIsoStep(p: seq<int>, k: nat, c0: int, c01: int)
    requires k < |p|
    ensures var st := AssignIso(p[..k], c0, c01);
      var x := p[k];
      AssignIso(p[..k + 1], c0, c01) ==
        Counters(st.coeffs + [2 + (if x < st.c0 then -1 else 0) + (if x < st.c01 then -1 else 0)],
                 st.c0 + (if x < st.c0 then -1 else 0), st.c01 + (if x < st.c01 then -1 else 0))
  {
    assert p[..k + 1][..k] == p[..k];
  }

  lemma AssignBranchingStep(p: seq<int>, k: nat, c0: int, c1: int)
    requires k < |p|
    ensures var st := AssignBranching(p[..k], c0, c1);
      var x := p[k];
      AssignBranching(p[..k + 1], c0, c1) ==
        if x < st.c0 then Counters(st.coeffs + [0], st.c0 - 1, st.c01)
        else if x < st.c0 + st.c01 then Counters(st.coeffs + [1], st.c0, st.c01 - 1)
        else Counters(st.coeffs + [2], st.c0, st.c01)
  {
    assert p[..k + 1][..k] == p[..k];
  }

  /** The branch-free and the branching assignments agree, because
      c01 == c0 + c1 holds throughout. */
  lemma {:induction false} IsoBranching(p: seq<int>, c0: int, c1: int)
    requires c1 >= 0
    ensures var b := AssignBranching(p, c0, c1);
      var s := AssignIso(p, c0, c0 + c1);
      b.coeffs == s.coeffs && b.c0 == s.c0 && b.c0 + b.c01 == s.c01 && b.c01 >= 0
  {
    if p != [] {
      IsoBranching(p[..|p| - 1], c0, c1);
    }
  }

  /** The coefficients sample_fixed_type produces from the words u. */
  function FixedType(u: seq<u16>): (r: seq<int>)
    requires N - 1 <= |u| && Indices(u, N - 1).Some?
  {
    AssignIso(Indices(u, N - 1).value.0, N - 1 - WEIGHT, N - 1 - WEIGHT / 2).coeffs + [0]
  }

  /** N coefficients in {0,1,2}: N-1-WEIGHT zeros, WEIGHT/2 ones and
      WEIGHT/2 twos among the first N-1, and a zero last coefficient. */
  predicate FixedWeight(r: seq<int>)
  {
    |r| == N && Trinary(r) && r[N - 1] == 0 &&
    Count(r[..N - 1], 0) == N - 1 - WEIGHT &&
    Count(r[..N - 1], 1) == WEIGHT / 2 &&
    Count(r[..N - 1], 2) == WEIGHT / 2
  }

  lemma FixedTypeWeight(u: seq<u16>)
    requires N - 1 <= |u| && Indices(u, N - 1).Some?
    ensures FixedWeight(FixedType(u))
  {
    var ix := Indices(u, N - 1).value.0;
    IndicesSpec(u, N - 1);
    assert ValidIndices(ix, N - 1);
    AssignIsoCounts(ix, N - 1, N - 1 - WEIGHT, N - 1 - WEIGHT / 2);
    var r := FixedType(u);
    assert r[..N - 1] == AssignIso(ix, N - 1 - WEIGHT, N - 1 - WEIGHT / 2).coeffs;
  }

  /** `(x) >> 31` of a 32-bit signed value is -1 when negative, 0 otherwise. */
  lemma SarSign(x: int)
    requires -0x8000_0000 <= x < 0x8000_0000
    ensures Sar(x, 31) == if x < 0 then -1 else 0
  {
    Pow2Values();
  }

  /** Before position i of the isochronous loop the counters satisfy 0 <= c0 <= c01 <= N-1-i. */
  lemma IsoCountersBound(ix: seq<int>, i: nat, done: seq<int>, c0: int, c01: int)
    requires ValidIndices(ix, N - 1) && i < |ix| == N - 1
    requires AssignIso(ix[..i], N - 1 - WEIGHT, N - 1 - WEIGHT / 2) == Counters(done, c0, c01)
    ensures 0 <= c0 <= c01 <= N - 1 - i
  {
    assert ValidIndices(ix[..i], N - 1);
    AssignIsoCounts(ix[..i], N - 1, N - 1 - WEIGHT, N - 1 - WEIGHT / 2);
  }

  /** One iteration of the isochronous loop, with the shifts of the source. */
  lemma IsoLoopStep(ix: seq<int>, i: nat, done: seq<int>, c0: int, c01: int)
    requires ValidIndices(ix, N - 1) && i < |ix| == N - 1
    requires AssignIso(ix[..i], N - 1 - WEIGHT, N - 1 - WEIGHT / 2) == Counters(done, c0, c01)
    requires 0 <= c0 <= c01 <= N - 1 - i
    ensures var t0 := Sar(ix[i] - c0, 31);
      var t1 := Sar(ix[i] - c01, 31);
      0 <= 2 + t0 + t1 <= 2 &&
      AssignIso(ix[..i + 1], N - 1 - WEIGHT, N - 1 - WEIGHT / 2) == Counters(done + [2 + t0 + t1], c0 + t0, c01 + t1)
  {
    AssignIsoStep(ix, i, N - 1 - WEIGHT, N - 1 - WEIGHT / 2);
    SarSign(ix[i] - c0);
    SarSign(ix[i] - c01);
  }

  /** sample_fixed_type, isochronous variant. */
  method SampleFixedType(r: array<u16>, u: seq<u8>)
    requires r.Length >= N
    requires N - 1 <= |Words(u)| && Indices(Words(u), N - 1).Some?
    modifies r
    ensures r[..N] == FixedType(Words(u))
    ensures FixedWeight(r[..N])
    ensures r[N..] == old(r[N..])
  {
    var w := Words(u);
    var shuffle := new int[N - 1];
    RejSamplingMod(shuffle, w);
    IndicesSpec(w, N - 1);
    AssignLoop(r, shuffle);
    r[N - 1] := 0;
    assert r[..N] == r[..N - 1] + [0];
    FixedTypeWeight(w);
  }

  /** The isochronous assignment loop of sample_fixed_type over the shuffle
      indices, with the shifts of the source. */
  method AssignLoop(r: array<u16>, shuffle: array<int>)
    requires r.Length >= N && shuffle.Length == N - 1
    requires ValidIndices(shuffle[..], N - 1)
    modifies r
    ensures r[..N - 1] == AssignIso(shuffle[..], N - 1 - WEIGHT, N - 1 - WEIGHT / 2).coeffs
    ensures r[N - 1..] == old(r[N - 1..])
  {
    ghost var ix := shuffle[..];
    ghost var R := r[..];
    var c0 := N - 1 - WEIGHT;
    var c01 := N - 1 - WEIGHT / 2;
    var i := 0;
    while i < N - 1
      invariant 0 <= i <= N - 1
      invariant AssignIso(ix[..i], N - 1 - WEIGHT, N - 1 - WEIGHT / 2) == Counters(r[..i], c0, c01)
      invariant r[N - 1..] == R[N - 1..]
    {
      var p := shuffle[i];
      IsoCountersBound(ix, i, r[..i], c0, c01);
      IsoLoopStep(ix, i, r[..i], c0, c01);
      var t0 := Sar(p - c0, 31);
      var t1 := Sar(p - c01, 31);
      c0 := c0 + t0;
      c01 := c01 + t1;
      r[i] := 2 + t0 + t1;
      assert r[..i + 1] == r[..i] + [r[i]];
      i := i + 1;
    }
    assert ix[..N - 1] == ix;
  }

  /** sample_fixed_type, branching (`#else`) variant: the same coefficients. */
  method SampleFixedTypeBranching(r: array<u16>, u: seq<u8>)
    requires r.Length >= N
    requires N - 1 <= |Words(u)| && Indices(Words(u), N - 1).Some?
    modifies r
    ensures r[..N] == FixedType(Words(u))
    ensures r[N..] == old(r[N..])
  {
    var w := Words(u);
    var shuffle := new int[N - 1];
    RejSamplingMod(shuffle, w);
    AssignLoopBranching(r, shuffle);
    IsoBranching(shuffle[..], N - 1 - WEIGHT, WEIGHT / 2);
    r[N - 1] := 0;
    assert r[..N] == r[..N - 1] + [0];
  }

  /** The branching assignment loop of the `#else` variant, with counters c0
      and c1. */
  method AssignLoopBranching(r: array<u16>, shuffle: array<int>)
    requires r.Length >= N && shuffle.Length == N - 1
    modifies r
    ensures r[..N - 1] == AssignBranching(shuffle[..], N - 1 - WEIGHT, WEIGHT / 2).coeffs
    ensures r[N - 1..] == old(r[N - 1..])
  {
    ghost var ix := shuffle[..];
    ghost var R := r[..];
    var c0 := N - 1 - WEIGHT;
    var c1 := WEIGHT / 2;
    var i := 0;
    while i < N - 1
      invariant 0 <= i <= N - 1
      invariant AssignBranching(ix[..i], N - 1 - WEIGHT, WEIGHT / 2) == Counters(r[..i], c0, c1)
      invariant r[N - 1..] == R[N - 1..]
    {
      var p := shuffle[i];
      IsoBranching(ix[..i], N - 1 - WEIGHT, WEIGHT / 2);
      AssignBranchingStep(ix, i, N - 1 - WEIGHT, WEIGHT / 2);
      if p < c0 {
        r[i] := 0;
        c0 := c0 - 1;
      } else if p < c0 + c1 {
        r[i] := 1;
        c1 := c1 - 1;
      } else {
        r[i] := 2;
      }
      assert r[..i + 1] == r[..i] + [r[i]];
      i := i + 1;
    }
    assert ix[..N - 1] == ix;
  }

  // -------------------------------------------------------------------------
  // Key and message sampling dispatch (NTRU_HPS build of this file)

  /** sample_fg: f from sample_iid on the first N-1 bytes, g of fixed type from the rest. */
  method SampleFg(f: array<u16>, g: array<u16>, bytes: seq<u8>, iid: seq<u8> -> seq<u16>)
    requires f != g && f.Length >= N && g.Length >= N
    requires IID_BYTES <= |bytes| && |iid(bytes[..IID_BYTES])| == N
    requires N - 1 <= |Words(bytes[IID_BYTES..])| && Indices(Words(bytes[IID_BYTES..]), N - 1).Some?
    modifies f, g
    ensures f[..N] == iid(bytes[..IID_BYTES])
    ensures g[..N] == FixedType(Words(bytes[IID_BYTES..])) && FixedWeight(g[..N])
  {
    CopyIid(f, iid(bytes[..IID_BYTES]));
    SampleFixedType(g, bytes[IID_BYTES..]);
  }

  /** sample_rm: r from sample_iid, m of fixed type; the same layout as sample_fg. */
  method SampleRm(r: array<u16>, m: array<u16>, bytes: seq<u8>, iid: seq<u8> -> seq<u16>)
    requires r != m && r.Length >= N && m.Length >= N
    requires IID_BYTES <= |bytes| && |iid(bytes[..IID_BYTES])| == N
    requires N - 1 <= |Words(bytes[IID_BYTES..])| && Indices(Words(bytes[IID_BYTES..]), N - 1).Some?
    modifies r, m
    ensures r[..N] == iid(bytes[..IID_BYTES])
    ensures m[..N] == FixedType(Words(bytes[IID_BYTES..])) && FixedWeight(m[..N])
  {
    CopyIid(r, iid(bytes[..IID_BYTES]));
    SampleFixedType(m, bytes[IID_BYTES..]);
  }

  /** The coefficients returned by sample_iid (outside this model) stored into a poly. */
  method CopyIid(r: array<u16>, v: seq<u16>)
    requires |v| <= r.Length
    modifies r
    ensures r[..|v|] == v && r[|v|..] == old(r[|v|..])
  {
    var i := 0;
    while i < |v|
      invariant 0 <= i <= |v|
      invariant r[..i] == v[..i] && r[|v|..] == old(r[|v|..])
    {
      r[i] := v[i];
      i := i + 1;
    }
  }

  // -------------------------------------------------------------------------
  // sample_iid_plus (NTRU_HRSS build)

  /** Signed value of a trinary code: 0, 1, -1 for 0, 1, 2. */
  function Sigma(c: int): (r: int)
  {
    if c == 2 then -1 else c
  }

  /** The same value as a uint16: 0, 1, 2^16 - 1. */
  function Signed16(c: int): (r: u16)
    requires 0 <= c <= 2
  {
    if c == 2 then 0xFFFF else c
  }

  /** Negation of a trinary code: swaps 1 and 2. */
  function Swap12(c: int): (r: int)
  {
    if c == 1 then 2 else if c == 2 then 1 else c
  }

  /** Lag-1 correlation sum_{i < k} sigma(v[i+1]) * sigma(v[i]). */
  function Corr(v: seq<int>, k: nat): (r: int)
    requires k < |v|
  {
    if k == 0 then 0 else Corr(v, k - 1) + Sigma(v[k]) * Sigma(v[k - 1])
  }

  /** v with 1 and 2 swapped at every even index. */
  function FlipEven(v: seq<int>): (w: seq<int>)
    ensures |w| == |v|
  {
    seq(|v|, i requires 0 <= i < |v| => if i % 2 == 0 then Swap12(v[i]) else v[i])
  }

  /** sample_iid_plus on sample_iid's output v: the even-index coefficients
      are negated (1 <-> 2) exactly when the lag-1 correlation of v is negative. */
  function IidPlus(v: seq<int>): (r: seq<int>)
    requires |v| >= 1
  {
    if Corr(v, |v| - 1) < 0 then FlipEven(v) else v
  }

  lemma {:induction false} CorrBound(v: seq<int>, k: nat)
    requires k < |v| && Trinary(v)
    ensures -(k as int) <= Corr(v, k) <= k
  {
    if k > 0 {
      CorrBound(v, k - 1);
    }
  }

  /** Every adjacent pair has exactly one even index, so flipping the even
      coefficients negates the correlation. */
  lemma {:induction false} CorrFlipEven(v: seq<int>, k: nat)
    requires k < |v| && Trinary(v)
    ensures Corr(FlipEven(v), k) == -Corr(v, k)
  {
    if k > 0 {
      CorrFlipEven(v, k - 1);
      var w := FlipEven(v);
      assert Sigma(Swap12(v[k])) == -Sigma(v[k]);
      assert Sigma(Swap12(v[k - 1])) == -Sigma(v[k - 1]);
      if k % 2 == 0 {
        assert w[k] == Swap12(v[k]) && w[k - 1] == v[k - 1];
      } else {
        assert w[k] == v[k] && w[k - 1] == Swap12(v[k - 1]);
      }
    }
  }

  /** After sample_iid_plus the correlation <x*r, r> is non-negative; odd
      coefficients are unchanged, and the even ones are all kept or all
      negated, staying in {0,1,2}. */
  lemma IidPlusSpec(v: seq<int>)
    requires |v| >= 1 && Trinary(v)
    ensures var w := IidPlus(v);
      |w| == |v| && Trinary(w) && Corr(w, |v| - 1) >= 0 &&
      (forall i :: 0 <= i < |v| && i % 2 == 1 ==> w[i] == v[i]) &&
      ((forall i :: 0 <= i < |v| ==> w[i] == v[i]) <==> Corr(v, |v| - 1) >= 0 || forall i :: 0 <= i < |v| && i % 2 == 0 ==> v[i] == 0) &&
      (Corr(v, |v| - 1) < 0 ==> forall i :: 0 <= i < |v| && i % 2 == 0 ==> w[i] == Swap12(v[i]))
  {
    CorrFlipEven(v, |v| - 1);
    if Corr(v, |v| - 1) < 0 {
      var w := FlipEven(v);
      if forall i :: 0 <= i < |v| ==> w[i] == v[i] {
        forall i | 0 <= i < |v| && i % 2 == 0 ensures v[i] == 0 {
          assert w[i] == Swap12(v[i]);
        }
      }
    }
  }

  lemma SignedMapLane(c: int)
    requires 0 <= c <= 2
    ensures 0 <= c / 2 < Pow2(16)
    ensures Or(c, Neg16(c / 2)) == Signed16(c)
  {
    Pow2Values();
    if c == 2 {
      assert Or(2, 0xFFFF) == 2 * Or(1, 0x7FFF) + 1;
      assert Or(1, 0x7FFF) == 2 * Or(0, 0x3FFF) + 1;
    }
  }

  lemma UnsignedMapLane(c: int)
    requires 0 <= c <= 2
    ensures And(3, Xor(Signed16(c), Signed16(c) / 0x8000)) == c
  {
    if c == 2 {
      assert Xor(0xFFFF, 1) == 2 * Xor(0x7FFF, 0) + 0;
      assert And(3, 0xFFFE) == 2 * And(1, 0x7FFF) + 0;
      assert And(1, 0x7FFF) == 2 * And(0, 0x3FFF) + 1;
    } else if c == 1 {
      assert Xor(1, 0) == 1;
      assert And(3, 1) == 2 * And(1, 0) + 1;
    }
  }

  /** Adding the uint16 product of two signed codes accumulates the correlation mod 2^16. */
  lemma ProductStep(s: int, acc: int, a: int, b: int)
    requires 0 <= a <= 2 && 0 <= b <= 2 && s == acc % W16
    ensures (s + (Signed16(a) * Signed16(b)) % W16) % W16 == (acc + Sigma(a) * Sigma(b)) % W16
  {
    ProductCode(a, b);
    var y := Sigma(a) * Sigma(b);
    var t := s + y % W16;
    DivModUnique(acc + y, W16, acc / W16 + y / W16 + t / W16, t % W16);
  }

  /** The uint16 product of two signed codes is the product of the signs mod 2^16. */
  lemma ProductCode(a: int, b: int)
    requires 0 <= a <= 2 && 0 <= b <= 2
    ensures (Signed16(a) * Signed16(b)) % W16 == (Sigma(a) * Sigma(b)) % W16
  {
    if a == 2 && b == 2 {
      assert Signed16(a) * Signed16(b) == 0xFFFE_0001;
    } else if a == 2 && b == 1 {
      assert Signed16(a) * Signed16(b) == 0xFFFF;
    } else if a == 1 && b == 2 {
      assert Signed16(a) * Signed16(b) == 0xFFFF;
    } else if a == 0 || b == 0 {
      assert Signed16(a) * Signed16(b) == 0;
    }
  }

  /** `1 | -(s >> 15)` is 1 for a non-negative and 2^16 - 1 for a negative 16-bit sum. */
  lemma SignWord(acc: int)
    requires -0x8000 <= acc < 0x8000
    ensures 0 <= (acc % W16) / 0x8000 < Pow2(16)
    ensures Or(1, Neg16((acc % W16) / 0x8000)) == if acc < 0 then 0xFFFF else 1
  {
    Pow2Values();
    if acc < 0 {
      assert (acc % W16) / 0x8000 == 1;
      assert Or(1, 0xFFFF) == 2 * Or(0, 0x7FFF) + 1;
    } else {
      assert (acc % W16) / 0x8000 == 0;
    }
  }

  /** Multiplying a signed code by the uint16 sign word keeps it or negates it. */
  lemma SignTimes(s: int, c: int, flip: bool)
    requires 0 <= c <= 2 && s == (if flip then 0xFFFF else 1)
    ensures (s * Signed16(c)) % W16 == Signed16(if flip then Swap12(c) else c)
  {
  }

  /** sample_iid_plus, from the point where sample_iid (outside this model) has
      filled r[0..n-2] with {0,1,2} and set r[n-1] = 0; n is NTRU_N.  The four
      passes of the source are the four helper methods below. */
  method SampleIidPlus(r: array<u16>, n: int)
    requires 2 <= n <= r.Length && n <= 0x8000
    requires Trinary(r[..n]) && r[n - 1] == 0
    modifies r
    ensures r[..n] == IidPlus(old(r[..n]))
    ensures r[n..] == old(r[n..])
  {
    ghost var v := r[..n];
    ToSignedCodes(r, n);
    var s := CorrelationSign(r, n, v);
    NegateEven(r, n, s, v);
    ToTrinaryCodes(r, n, IidPlus(v));
  }

  /** Map {0,1,2} -> {0, 1, 2^16 - 1} on r[0..n-2]; r[n-1] = 0 needs no mapping. */
  method ToSignedCodes(r: array<u16>, n: int)
    requires 2 <= n <= r.Length
    requires Trinary(r[..n]) && r[n - 1] == 0
    modifies r
    ensures forall k :: 0 <= k < n ==> r[k] == Signed16(old(r[k]))
    ensures r[n..] == old(r[n..])
  {
    ghost var R := r[..];
    var i := 0;
    while i < n - 1
      invariant 0 <= i <= n - 1
      invariant forall k :: 0 <= k < i ==> r[k] == Signed16(R[k])
      invariant forall k :: i <= k < r.Length ==> r[k] == R[k]
    {
      SignedMapLane(r[i]);
      r[i] := Or(r[i], Neg16(r[i] / 2));
      i := i + 1;
    }
  }

  /** s = <x*r, r> accumulated in 16 bits, then s = 1 | -(s >> 15): the
      uint16 form of the sign of the correlation (sign(0) = 1). */
  method CorrelationSign(r: array<u16>, n: int, ghost v: seq<int>) returns (s: u16)
    requires 2 <= n <= r.Length && n <= 0x8000
    requires |v| == n && Trinary(v)
    requires forall k :: 0 <= k < n ==> r[k] == Signed16(v[k])
    ensures s == if Corr(v, n - 1) < 0 then 0xFFFF else 1
  {
    s := CorrelationSum(r, n, v);
    CorrBound(v, n - 1);
    SignWord(Corr(v, n - 1));
    s := Or(1, Neg16(s / 0x8000));
  }

  /** The accumulation loop: s = sum of r[i+1] * r[i] over i < n - 1, in uint16. */
  method CorrelationSum(r: array<u16>, n: int, ghost v: seq<int>) returns (s: u16)
    requires 2 <= n <= r.Length
    requires |v| == n && Trinary(v)
    requires forall k :: 0 <= k < n ==> r[k] == Signed16(v[k])
    ensures s == Corr(v, n - 1) % W16
  {
    s := 0;
    var i := 0;
    while i < n - 1
      invariant 0 <= i <= n - 1
      invariant s == Corr(v, i) % W16
    {
      ProductStep(s, Corr(v, i), v[i + 1], v[i]);
      assert (r[i + 1] as int) * r[i] == Signed16(v[i + 1]) * Signed16(v[i]);
      s := (s + (r[i + 1] * r[i]) % W16) % W16;
      i := i + 1;
    }
  }

  /** r[i] = s * r[i] (mod 2^16) for every even i < n. */
  method NegateEven(r: array<u16>, n: int, s: u16, ghost v: seq<int>)
    requires 2 <= n <= r.Length
    requires |v| == n && Trinary(v)
    requires forall k :: 0 <= k < n ==> r[k] == Signed16(v[k])
    requires s == if Corr(v, n - 1) < 0 then 0xFFFF else 1
    modifies r
    ensures forall k :: 0 <= k < n ==> r[k] == Signed16(IidPlus(v)[k])
    ensures r[n..] == old(r[n..])
  {
    ghost var flip := Corr(v, n - 1) < 0;
    var i := 0;
    while i < n
      invariant 0 <= i <= n + 1 && i % 2 == 0
      invariant forall k :: 0 <= k < n ==>
        r[k] == Signed16(if k < i && k % 2 == 0 && flip then Swap12(v[k]) else v[k])
      invariant r[n..] == old(r[n..])
    {
      SignTimes(s, v[i], flip);
      r[i] := (s * r[i]) % W16;
      i := i + 2;
    }
  }

  /** Map {0, 1, 2^16 - 1} -> {0, 1, 2}: r[i] = 3 & (r[i] ^ (r[i] >> 15)) for all i < n. */
  method ToTrinaryCodes(r: array<u16>, n: int, ghost w: seq<int>)
    requires 0 <= n <= r.Length
    requires |w| == n && Trinary(w)
    requires forall k :: 0 <= k < n ==> r[k] == Signed16(w[k])
    modifies r
    ensures r[..n] == w
    ensures r[n..] == old(r[n..])
  {
    var i := 0;
    while i < n
      invariant 0 <= i <= n
      invariant forall k :: 0 <= k < i ==> r[k] == w[k]
      invariant forall k :: i <= k < n ==> r[k] == Signed16(w[k])
      invariant r[n..] == old(r[n..])
    {
      UnsignedMapLane(w[i]);
      r[i] := And(3, Xor(r[i], r[i] / 0x8000));
      i := i + 1;
    }
  }
}
