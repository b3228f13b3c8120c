// The element-wise in-place loops of the OW-CPA layer (owcpa.c of the
// hrss701 build, which is also the template of the hps builds): g = 3*g,
// g = 3*(x-1)*g, ct += Lift(m) and b = c - Lift(m), all on uint16_t
// coefficients, so every result is taken mod 2^16.  n is the number of
// coefficients the loop visits (NTRU_N of the build).

module Transforms {
  import opened Bits
  import opened Ring

  /** A C `uint16_t` store of an int expression. */
  function Word16(x: int): (w: u16)
    ensures (w - x) % W16 == 0
  {
    ModShift(0, W16, -(x / W16));
    x % W16
  }

  // -------------------------------------------------------------------------
  // Specifications of the four loops, coefficient by coefficient.

  /** 3*g on every coefficient. */
  function Scale3(g: seq<int>): (r: seq<u16>)
    ensures |r| == |g|
  {
    seq(|g|, k requires 0 <= k < |g| => Word16(3 * g[k]))
  }

  /** 3*(g[i-1] - g[i]) at i >= 1 and -3*g[0] at 0. */
  function Times3XMinus1(g: seq<int>): (r: seq<u16>)
    ensures |r| == |g|
  {
    seq(|g|, k requires 0 <= k < |g| => Times3XMinus1Coeff(g, k))
  }

  function Times3XMinus1Coeff(g: seq<int>, k: int): (r: u16)
    requires 0 <= k < |g|
  {
    if k == 0 then Word16(-(3 * g[0])) else Word16(3 * (g[k - 1] - g[k]))
  }

  /** Coefficient-wise sum. */
  function AddWords(a: seq<int>, b: seq<int>): (r: seq<u16>)
    requires |a| == |b|
    ensures |r| == |a|
  {
    seq(|a|, k requires 0 <= k < |a| => Word16(a[k] + b[k]))
  }

  /** Coefficient-wise difference. */
  function SubWords(a: seq<int>, b: seq<int>): (r: seq<u16>)
    requires |a| == |b|
    ensures |r| == |a|
  {
    seq(|a|, k requires 0 <= k < |a| => Word16(a[k] - b[k]))
  }

  // -------------------------------------------------------------------------
  // The loops.

  /** The hps form: `for (i = 0; i < n; i++) g[i] = 3 * g[i];`. */
  method Mul3(g: array<u16>, n: int)
    requires 0 <= n <= g.Length
    modifies g
    ensures g[..n] == Scale3(old(g[..n])) && g[n..] == old(g[n..])
  {
    ghost var G: seq<int> := g[..];
    var i := 0;
    while i < n
      invariant 0 <= i <= n
      invariant forall k :: 0 <= k < i ==> g[k] == Word16(3 * G[k])
      invariant forall k :: i <= k < g.Length ==> g[k] == G[k]
    {
      var c: int := g[i];
      g[i] := Word16(3 * c);
      i := i + 1;
    }
    assert g[..n] == Scale3(G[..n]);
  }

  /** The hrss form: a descending loop `g[i] = 3 * (g[i-1] - g[i])` for
      i = n-1 .. 1, which reads g[i-1] before it is overwritten, then
      `g[0] = -(3 * g[0])`. */
  method Mul3XMinus1(g: array<u16>, n: int)
    requires 1 <= n <= g.Length
    modifies g
    ensures g[..n] == Times3XMinus1(old(g[..n])) && g[n..] == old(g[n..])
  {
    ghost var G: seq<int> := g[..];
    var i := n - 1;
    while i > 0
      invariant 0 <= i <= n - 1
      invariant forall k :: i < k < n ==> g[k] == Times3XMinus1Coeff(G[..n], k)
      invariant forall k :: 0 <= k <= i || n <= k < g.Length ==> g[k] == G[k]
    {
      var prev: int := g[i - 1];
      var cur: int := g[i];
      assert G[..n][i - 1] == prev && G[..n][i] == cur;
      g[i] := Word16(3 * (prev - cur));
      i := i - 1;
    }
    var c: int := g[0];
    assert G[..n][0] == c;
    g[0] := Word16(-(3 * c));
    assert g[..n] == Times3XMinus1(G[..n]);
  }

  /** `for (i = 0; i < n; i++) ct[i] = ct[i] + liftm[i];` */
  method AddLift(ct: array<u16>, liftm: array<u16>, n: int)
    requires 0 <= n <= ct.Length && n <= liftm.Length && ct != liftm
    modifies ct
    ensures ct[..n] == AddWords(old(ct[..n]), liftm[..n]) && ct[n..] == old(ct[n..])
  {
    ghost var C: seq<int> := ct[..];
    var i := 0;
    while i < n
      invariant 0 <= i <= n
      invariant forall k :: 0 <= k < i ==> ct[k] == Word16(C[k] + liftm[k] as int)
      invariant forall k :: i <= k < ct.Length ==> ct[k] == C[k]
    {
      var a: int := ct[i];
      var b: int := liftm[i];
      ct[i] := Word16(a + b);
      i := i + 1;
    }
    assert ct[..n] == AddWords(C[..n], liftm[..n]);
  }

  /** `for (i = 0; i < n; i++) b[i] = c[i] - liftm[i];` */
  method SubLift(b: array<u16>, c: array<u16>, liftm: array<u16>, n: int)
    requires 0 <= n <= b.Length && n <= c.Length && n <= liftm.Length
    requires b != c && b != liftm
    modifies b
    ensures b[..n] == SubWords(c[..n], liftm[..n]) && b[n..] == old(b[n..])
  {
    var i := 0;
    while i < n
      invariant 0 <= i <= n
      invariant forall k :: 0 <= k < i ==> b[k] == Word16(c[k] as int - liftm[k] as int)
      invariant forall k :: i <= k < b.Length ==> b[k] == old(b[k])
    {
      var x: int := c[i];
      var y: int := liftm[i];
      b[i] := Word16(x - y);
      i := i + 1;
    }
    assert b[..n] == SubWords(c[..n], liftm[..n]);
  }

  // -------------------------------------------------------------------------
  // What the loops compute in the ring Z_{2^16}[x]/(x^n - 1).

  /** The polynomial x. */
  function X(n: nat): (x: seq<int>)
    requires n >= 2
    ensures |x| == n
  {
    seq(n, i => if i == 1 then 1 else 0)
  }

  /** Multiplying by x rotates the coefficients up by one. */
  lemma ConvX(g: seq<int>, i: int)
    requires |g| >= 2 && 0 <= i < |g|
    ensures Conv(X(|g|), g)[i] == g[(i - 1) % |g|]
  {
    var t := Terms(X(|g|), g, i);
    assert forall j :: 0 <= j < |g| && j != 1 ==> t[j] == 0;
    SumSingle(t, 1);
  }

  /** Coefficient i of (3x - 3) * g is 3 * g[i-1 mod n] - 3 * g[i]. */
  lemma Times3XMinus1Coeffs(g: seq<int>)
    requires |g| >= 2
    ensures Conv(Lin(3, X(|g|), -3, One(|g|)), g)[0] == 3 * g[|g| - 1] - 3 * g[0]
    ensures forall i :: 1 <= i < |g| ==>
      Conv(Lin(3, X(|g|), -3, One(|g|)), g)[i] == 3 * g[i - 1] - 3 * g[i]
  {
    forall i | 0 <= i < |g|
      ensures Conv(Lin(3, X(|g|), -3, One(|g|)), g)[i] == 3 * g[if i == 0 then |g| - 1 else i - 1] - 3 * g[i]
    {
      ProductCoeff(g, i);
    }
  }

  /** One coefficient of (3x - 3) * g. */
  lemma ProductCoeff(g: seq<int>, i: int)
    requires |g| >= 2 && 0 <= i < |g|
    ensures Conv(Lin(3, X(|g|), -3, One(|g|)), g)[i] == 3 * g[if i == 0 then |g| - 1 else i - 1] - 3 * g[i]
  {
    var n := |g|;
    var j := if i == 0 then n - 1 else i - 1;
    ConvX(g, i);
    ModRange(i - 1, n);
    assert Conv(X(n), g)[i] == g[j];
    ConvOneLeft(g);
    assert Conv(One(n), g)[i] == g[i];
    ConvLinLeftAt(3, X(n), -3, One(n), g, i);
  }

  /** The hrss loop multiplies g by 3x - 3, provided its top coefficient is
      zero (the loop drops the wrap-around term 3 * g[n-1] of coefficient 0). */
  lemma Times3XMinus1IsProduct(g: seq<int>)
    requires |g| >= 2 && g[|g| - 1] == 0
    ensures EqMod(Times3XMinus1(g), Conv(Lin(3, X(|g|), -3, One(|g|)), g), W16)
  {
    var n := |g|;
    var p := Conv(Lin(3, X(n), -3, One(n)), g);
    var t := Times3XMinus1(g);
    forall i | 0 <= i < n
      ensures (t[i] - p[i]) % W16 == 0
    {
      Times3XMinus1At(g, i);
    }
    assert |t| == n && |p| == n;
  }

  lemma Times3XMinus1At(g: seq<int>, i: int)
    requires |g| >= 2 && g[|g| - 1] == 0 && 0 <= i < |g|
    ensures (Times3XMinus1(g)[i] - Conv(Lin(3, X(|g|), -3, One(|g|)), g)[i]) % W16 == 0
  {
    ProductCoeff(g, i);
    var x := if i == 0 then -(3 * g[0]) else 3 * (g[i - 1] - g[i]);
    assert Times3XMinus1(g)[i] == Times3XMinus1Coeff(g, i) == Word16(x);
  }

  /** The hps loop multiplies g by the constant 3. */
  lemma Scale3IsProduct(g: seq<int>)
    requires |g| >= 1
    ensures EqMod(Scale3(g), Conv(Lin(3, One(|g|), 0, One(|g|)), g), W16)
  {
    var n := |g|;
    var p := Conv(Lin(3, One(n), 0, One(n)), g);
    forall i | 0 <= i < n
      ensures (Scale3(g)[i] - p[i]) % W16 == 0
    {
      Scale3At(g, i);
    }
  }

  lemma Scale3At(g: seq<int>, i: int)
    requires 0 <= i < |g|
    ensures Conv(Lin(3, One(|g|), 0, One(|g|)), g)[i] == 3 * g[i]
  {
    ConvOneLeft(g);
    assert Conv(One(|g|), g)[i] == g[i];
    ConvLinLeftAt(3, One(|g|), 0, One(|g|), g, i);
  }

  /** Adding is the ring sum and subtracting the ring difference, mod 2^16. */
  lemma AddSubAreRing(a: seq<int>, b: seq<int>)
    requires |a| == |b|
    ensures EqMod(AddWords(a, b), Lin(1, a, 1, b), W16)
    ensures EqMod(SubWords(a, b), Lin(1, a, -1, b), W16)
  {
  }

  /** Decryption's b = c - Lift(m) undoes encryption's ct + Lift(m) on 16-bit
      coefficients. */
  lemma {:induction false} SubUndoesAdd(ct: seq<u16>, liftm: seq<int>)
    requires |ct| == |liftm|
    ensures SubWords(AddWords(ct, liftm), liftm) == ct
  {
    var s := AddWords(ct, liftm);
    forall k | 0 <= k < |ct|
      ensures SubWords(s, liftm)[k] == ct[k]
    {
      var x := ct[k] + liftm[k];
      assert s[k] == x - W16 * (x / W16);
      assert s[k] - liftm[k] == ct[k] + W16 * (-(x / W16));
      ModShift(ct[k], W16, -(x / W16));
    }
  }
}
