// Polynomials of Z[x]/(x^n - 1) as coefficient sequences of length n, the
// cyclic product (the contract of the ring multiplier) and the facts the
// Newton lift of the inverse needs: linearity, units, associativity, and
// compatibility with congruences modulo m and modulo (m, Phi_n).

module Ring {
  import opened Bits

  // ---------------------------------------------------------------------
  // Integer helpers on divisibility and Euclidean remainders.

  /** x lies in one of the two periods around 0, so its remainder is known. */
  lemma ModRange(x: int, n: int)
    requires 0 < n && -n <= x < n
    ensures x % n == (if x < 0 then x + n else x)
  {
    if x < 0 {
      DivModUnique(x, n, -1, x + n);
    } else {
      DivModUnique(x, n, 0, x);
    }
  }

  /** Adding a multiple of n does not change the remainder. */
  lemma ModShift(x: int, n: int, t: int)
    requires 0 < n
    ensures (x + n * t) % n == x % n
  {
    assert x + n * t == n * (x / n + t) + x % n;
    DivModUnique(x + n * t, n, x / n + t, x % n);
  }

  lemma DvdLin(x: int, y: int, u: int, v: int, m: int)
    requires 0 < m && x % m == 0 && y % m == 0
    ensures (u * x + v * y) % m == 0
  {
    var a, b := x / m, y / m;
    assert x == m * a && y == m * b;
    assert u * x + v * y == m * (u * a + v * b);
    DivModUnique(u * x + v * y, m, u * a + v * b, 0);
  }

  lemma DvdMul(x: int, y: int, m1: int, m2: int)
    requires 0 < m1 && 0 < m2 && x % m1 == 0 && y % m2 == 0
    ensures 0 < m1 * m2 && (x * y) % (m1 * m2) == 0
  {
    var a, b := x / m1, y / m2;
    assert x == m1 * a && y == m2 * b;
    assert x * y == (m1 * m2) * (a * b);
    MulAtLeast(m1, m2);
    DivModUnique(x * y, m1 * m2, a * b, 0);
  }

  lemma DvdWeaken(x: int, m: int, d: int)
    requires 0 < d < m || 0 < d == m
    requires x % m == 0 && m % d == 0
    ensures x % d == 0
  {
    var a, b := x / m, m / d;
    assert x == m * a && m == d * b;
    assert x == d * (b * a);
    DivModUnique(x, d, b * a, 0);
  }

  // ---------------------------------------------------------------------
  // Sums of integer sequences.

  function Sum(s: seq<int>): (r: int)
  {
    if s == [] then 0 else s[0] + Sum(s[1..])
  }

  /** Coefficient-wise u*a + v*b. */
  function Lin(u: int, a: seq<int>, v: int, b: seq<int>): (c: seq<int>)
    requires |a| == |b|
    ensures |c| == |a|
  {
    seq(|a|, i requires 0 <= i < |a| => u * a[i] + v * b[i])
  }

  lemma {:induction false} SumAppend(s: seq<int>, t: seq<int>)
    ensures Sum(s + t) == Sum(s) + Sum(t)
  {
    if s == [] {
      assert s + t == t;
    } else {
      assert (s + t)[0] == s[0];
      assert (s + t)[1..] == s[1..] + t;
      SumAppend(s[1..], t);
    }
  }

  lemma {:induction false} SumLin(u: int, s: seq<int>, v: int, t: seq<int>)
    requires |s| == |t|
    ensures Sum(Lin(u, s, v, t)) == u * Sum(s) + v * Sum(t)
  {
    if s != [] {
      assert Lin(u, s, v, t)[1..] == Lin(u, s[1..], v, t[1..]);
      SumLin(u, s[1..], v, t[1..]);
      assert u * Sum(s) == u * s[0] + u * Sum(s[1..]);
      assert v * Sum(t) == v * t[0] + v * Sum(t[1..]);
    }
  }

  lemma {:induction false} SumDvd(s: seq<int>, m: int)
    requires 0 < m && forall i :: 0 <= i < |s| ==> s[i] % m == 0
    ensures Sum(s) % m == 0
  {
    if s != [] {
      SumDvd(s[1..], m);
      DvdLin(s[0], Sum(s[1..]), 1, 1, m);
    }
  }

  /** A sum whose terms vanish outside position k is its k-th term. */
  lemma {:induction false} SumSingle(s: seq<int>, k: int)
    requires 0 <= k < |s| && forall i :: 0 <= i < |s| && i != k ==> s[i] == 0
    ensures Sum(s) == s[k]
  {
    if k == 0 {
      SumZero(s[1..]);
    } else {
      SumSingle(s[1..], k - 1);
    }
  }

  lemma {:induction false} SumZero(s: seq<int>)
    requires forall i :: 0 <= i < |s| ==> s[i] == 0
    ensures Sum(s) == 0
  {
    if s != [] {
      SumZero(s[1..]);
    }
  }

  /** Rotating the terms does not change the sum. */
  lemma SumRotate(s: seq<int>, k: int)
    requires 0 <= k <= |s|
    ensures Sum(s[k..] + s[..k]) == Sum(s)
  {
    SumAppend(s[k..], s[..k]);
    SumAppend(s[..k], s[k..]);
    assert s[..k] + s[k..] == s;
  }

  /** Column j of a matrix given as a sequence of rows. */
  function Column(rows: seq<seq<int>>, j: int): (c: seq<int>)
    requires 0 <= j && forall r :: 0 <= r < |rows| ==> j < |rows[r]|
    ensures |c| == |rows|
  {
    seq(|rows|, r requires 0 <= r < |rows| => assert j < |rows[r]|; rows[r][j])
  }

  function RowSums(rows: seq<seq<int>>): (c: seq<int>)
    ensures |c| == |rows|
  {
    seq(|rows|, r requires 0 <= r < |rows| => Sum(rows[r]))
  }

  function ColumnSums(rows: seq<seq<int>>, m: nat): (c: seq<int>)
    requires forall r :: 0 <= r < |rows| ==> |rows[r]| == m
    ensures |c| == m
  {
    seq(m, j requires 0 <= j < m => Sum(Column(rows, j)))
  }

  /** Summing a matrix by rows or by columns gives the same total. */
  lemma {:induction false} SumSwap(rows: seq<seq<int>>, m: nat)
    requires forall r :: 0 <= r < |rows| ==> |rows[r]| == m
    ensures Sum(RowSums(rows)) == Sum(ColumnSums(rows, m))
  {
    if rows == [] {
      SumZero(ColumnSums(rows, m));
    } else {
      var rest := rows[1..];
      SumSwap(rest, m);
      assert RowSums(rows)[1..] == RowSums(rest);
      forall j | 0 <= j < m
        ensures ColumnSums(rows, m)[j] == rows[0][j] + ColumnSums(rest, m)[j]
      {
        assert Column(rows, j)[1..] == Column(rest, j);
      }
      assert ColumnSums(rows, m) == Lin(1, rows[0], 1, ColumnSums(rest, m));
      SumLin(1, rows[0], 1, ColumnSums(rest, m));
    }
  }

  // ---------------------------------------------------------------------
  // The cyclic product.

  /** The unit polynomial 1 with n coefficients. */
  function One(n: nat): (c: seq<int>)
    ensures |c| == n
  {
    seq(n, i => if i == 0 then 1 else 0)
  }

  /** The terms a[j] * b[i - j mod n] of coefficient i of a * b. */
  function Terms(a: seq<int>, b: seq<int>, i: int): (t: seq<int>)
    requires |a| == |b| > 0
    ensures |t| == |a|
  {
    seq(|a|, j requires 0 <= j < |a| => a[j] * b[(i - j) % |a|])
  }

  /** The product a * b in Z[x]/(x^n - 1), n = |a| = |b|. */
  function Conv(a: seq<int>, b: seq<int>): (c: seq<int>)
    requires |a| == |b| > 0
    ensures |c| == |a|
  {
    seq(|a|, i => Sum(Terms(a, b, i)))
  }

  lemma ConvLinLeft(u: int, a: seq<int>, v: int, b: seq<int>, c: seq<int>)
    requires |a| == |b| == |c| > 0
    ensures Conv(Lin(u, a, v, b), c) == Lin(u, Conv(a, c), v, Conv(b, c))
  {
    forall i | 0 <= i < |a|
      ensures Conv(Lin(u, a, v, b), c)[i] == Lin(u, Conv(a, c), v, Conv(b, c))[i]
    {
      ConvLinLeftAt(u, a, v, b, c, i);
    }
  }

  /** Coefficient i of (u*a + v*b) * c. */
  lemma ConvLinLeftAt(u: int, a: seq<int>, v: int, b: seq<int>, c: seq<int>, i: int)
    requires |a| == |b| == |c| > 0 && 0 <= i < |a|
    ensures Conv(Lin(u, a, v, b), c)[i] == u * Conv(a, c)[i] + v * Conv(b, c)[i]
  {
    var n := |a|;
    forall j | 0 <= j < n
      ensures Terms(Lin(u, a, v, b), c, i)[j] == Lin(u, Terms(a, c, i), v, Terms(b, c, i))[j]
    {
      var w := c[(i - j) % n];
      assert (u * a[j] + v * b[j]) * w == u * (a[j] * w) + v * (b[j] * w);
    }
    assert Terms(Lin(u, a, v, b), c, i) == Lin(u, Terms(a, c, i), v, Terms(b, c, i));
    SumLin(u, Terms(a, c, i), v, Terms(b, c, i));
  }

  lemma ConvLinRight(u: int, a: seq<int>, v: int, b: seq<int>, c: seq<int>)
    requires |a| == |b| == |c| > 0
    ensures Conv(c, Lin(u, a, v, b)) == Lin(u, Conv(c, a), v, Conv(c, b))
  {
    forall i | 0 <= i < |a|
      ensures Conv(c, Lin(u, a, v, b))[i] == Lin(u, Conv(c, a), v, Conv(c, b))[i]
    {
      ConvLinRightAt(u, a, v, b, c, i);
    }
  }

  /** Coefficient i of c * (u*a + v*b). */
  lemma ConvLinRightAt(u: int, a: seq<int>, v: int, b: seq<int>, c: seq<int>, i: int)
    requires |a| == |b| == |c| > 0 && 0 <= i < |a|
    ensures Conv(c, Lin(u, a, v, b))[i] == u * Conv(c, a)[i] + v * Conv(c, b)[i]
  {
    var n := |a|;
    forall j | 0 <= j < n
      ensures Terms(c, Lin(u, a, v, b), i)[j] == Lin(u, Terms(c, a, i), v, Terms(c, b, i))[j]
    {
      var k := (i - j) % n;
      assert c[j] * (u * a[k] + v * b[k]) == u * (c[j] * a[k]) + v * (c[j] * b[k]);
    }
    assert Terms(c, Lin(u, a, v, b), i) == Lin(u, Terms(c, a, i), v, Terms(c, b, i));
    SumLin(u, Terms(c, a, i), v, Terms(c, b, i));
  }

  lemma ConvOneLeft(p: seq<int>)
    requires |p| > 0
    ensures Conv(One(|p|), p) == p
  {
    var n := |p|;
    forall i | 0 <= i < n
      ensures Conv(One(n), p)[i] == p[i]
    {
      ModRange(i, n);
      SumSingle(Terms(One(n), p, i), 0);
    }
  }

  lemma ConvOneRight(p: seq<int>)
    requires |p| > 0
    ensures Conv(p, One(|p|)) == p
  {
    var n := |p|;
    forall i | 0 <= i < n
      ensures Conv(p, One(n))[i] == p[i]
    {
      forall j | 0 <= j < n && j != i
        ensures Terms(p, One(n), i)[j] == 0
      {
        ModRange(i - j, n);
      }
      ModRange(0, n);
      SumSingle(Terms(p, One(n), i), i);
    }
  }

  /** The inner sum of a triple product, rotated by j, is a coefficient of b * c. */
  lemma ConvShift(b: seq<int>, c: seq<int>, i: int, j: int)
    requires |b| == |c| > 0 && 0 <= j < |b|
    ensures Sum(seq(|b|, k requires 0 <= k < |b| => b[(k - j) % |b|] * c[(i - k) % |b|]))
         == Conv(b, c)[(i - j) % |b|]
  {
    var n := |b|;
    var t := seq(n, k requires 0 <= k < n => b[(k - j) % n] * c[(i - k) % n]);
    var ij := (i - j) % n;
    SumRotate(t, j);
    forall k | 0 <= k < n
      ensures (t[j..] + t[..j])[k] == Terms(b, c, ij)[k]
    {
      var k' := if k < n - j then k + j else k + j - n;
      assert (t[j..] + t[..j])[k] == t[k'];
      ShiftIndex(n, i, j, k);
    }
    assert t[j..] + t[..j] == Terms(b, c, ij);
  }

  /** Index arithmetic of ConvShift: position k of the rotated terms is k' = k + j mod n. */
  lemma ShiftIndex(n: int, i: int, j: int, k: int)
    requires 0 <= j < n && 0 <= k < n
    ensures var k' := if k < n - j then k + j else k + j - n;
      (k' - j) % n == k && (i - k') % n == ((i - j) % n - k) % n
  {
    var k' := if k < n - j then k + j else k + j - n;
    ModRange(k' - j, n);
    var t := (i - j) / n + (if k < n - j then 0 else 1);
    assert i - k' == ((i - j) % n - k) + n * t;
    ModShift((i - j) % n - k, n, t);
  }

  lemma ConvAssoc(a: seq<int>, b: seq<int>, c: seq<int>)
    requires |a| == |b| == |c| > 0
    ensures Conv(Conv(a, b), c) == Conv(a, Conv(b, c))
  {
    var n := |a|;
    forall i | 0 <= i < n
      ensures Conv(Conv(a, b), c)[i] == Conv(a, Conv(b, c))[i]
    {
      AssocAt(a, b, c, i);
    }
  }

  lemma AssocAt(a: seq<int>, b: seq<int>, c: seq<int>, i: int)
    requires |a| == |b| == |c| > 0 && 0 <= i < |a|
    ensures Conv(Conv(a, b), c)[i] == Conv(a, Conv(b, c))[i]
  {
    var rows := TripleRows(a, b, c, i);
    TripleRowSums(a, b, c, i);
    SumSwap(rows, |a|);
    TripleColumnSums(a, b, c, i);
  }

  /** rows[k][j] = a[j] * (b[k - j] * c[i - k]): the terms of coefficient i of (a * b) * c. */
  function TripleRows(a: seq<int>, b: seq<int>, c: seq<int>, i: int): (rows: seq<seq<int>>)
    requires |a| == |b| == |c| > 0
    ensures |rows| == |a| && forall k :: 0 <= k < |a| ==> |rows[k]| == |a|
  {
    var n := |a|;
    seq(n, k requires 0 <= k < n =>
      seq(n, j requires 0 <= j < n => a[j] * (b[(k - j) % n] * c[(i - k) % n])))
  }

  lemma TripleRowSums(a: seq<int>, b: seq<int>, c: seq<int>, i: int)
    requires |a| == |b| == |c| > 0
    ensures Terms(Conv(a, b), c, i) == RowSums(TripleRows(a, b, c, i))
  {
    var n := |a|;
    var rows := TripleRows(a, b, c, i);
    forall k | 0 <= k < n
      ensures Terms(Conv(a, b), c, i)[k] == RowSums(rows)[k]
    {
      var w := c[(i - k) % n];
      forall j | 0 <= j < n
        ensures rows[k][j] == Lin(w, Terms(a, b, k), 0, Terms(a, b, k))[j]
      {
        var x, y := a[j], b[(k - j) % n];
        assert x * (y * w) == w * (x * y) + 0 * (x * y);
      }
      assert rows[k] == Lin(w, Terms(a, b, k), 0, Terms(a, b, k));
      SumLin(w, Terms(a, b, k), 0, Terms(a, b, k));
    }
  }

  lemma TripleColumnSums(a: seq<int>, b: seq<int>, c: seq<int>, i: int)
    requires |a| == |b| == |c| > 0
    ensures ColumnSums(TripleRows(a, b, c, i), |a|) == Terms(a, Conv(b, c), i)
  {
    var n := |a|;
    var rows := TripleRows(a, b, c, i);
    forall j | 0 <= j < n
      ensures ColumnSums(rows, n)[j] == Terms(a, Conv(b, c), i)[j]
    {
      var inner := seq(n, k requires 0 <= k < n => b[(k - j) % n] * c[(i - k) % n]);
      assert Column(rows, j) == Lin(a[j], inner, 0, inner);
      SumLin(a[j], inner, 0, inner);
      ConvShift(b, c, i, j);
    }
  }

  /** A product of a multiple of m1 and a multiple of m2 is a multiple of m1 * m2. */
  lemma ConvDvd(a: seq<int>, b: seq<int>, m1: int, m2: int)
    requires |a| == |b| > 0 && 0 < m1 && 0 < m2
    requires forall j :: 0 <= j < |a| ==> a[j] % m1 == 0
    requires forall j :: 0 <= j < |b| ==> b[j] % m2 == 0
    ensures 0 < m1 * m2
    ensures forall i :: 0 <= i < |a| ==> Conv(a, b)[i] % (m1 * m2) == 0
  {
    var n := |a|;
    MulAtLeast(m1, m2);
    forall i | 0 <= i < n
      ensures Conv(a, b)[i] % (m1 * m2) == 0
    {
      forall j | 0 <= j < n
        ensures Terms(a, b, i)[j] % (m1 * m2) == 0
      {
        DvdMul(a[j], b[(i - j) % n], m1, m2);
      }
      SumDvd(Terms(a, b, i), m1 * m2);
    }
  }

  // ---------------------------------------------------------------------
  // Congruence of polynomials modulo m.

  /** x and y agree coefficient by coefficient modulo m. */
  ghost predicate EqMod(x: seq<int>, y: seq<int>, m: int)
  {
    0 < m && |x| == |y| && forall i :: 0 <= i < |x| ==> (x[i] - y[i]) % m == 0
  }

  lemma EqModTrans(x: seq<int>, y: seq<int>, z: seq<int>, m: int)
    requires EqMod(x, y, m) && EqMod(y, z, m)
    ensures EqMod(x, z, m)
  {
    forall i | 0 <= i < |x|
      ensures (x[i] - z[i]) % m == 0
    {
      DvdLin(x[i] - y[i], y[i] - z[i], 1, 1, m);
    }
  }

  lemma EqModSym(x: seq<int>, y: seq<int>, m: int)
    requires EqMod(x, y, m)
    ensures EqMod(y, x, m)
  {
    forall i | 0 <= i < |x|
      ensures (y[i] - x[i]) % m == 0
    {
      DvdLin(x[i] - y[i], 0, -1, 0, m);
    }
  }

  /** A congruence modulo m holds modulo every divisor d of m. */
  lemma EqModWeaken(x: seq<int>, y: seq<int>, m: int, d: int)
    requires EqMod(x, y, m) && 0 < d <= m && m % d == 0
    ensures EqMod(x, y, d)
  {
    forall i | 0 <= i < |x|
      ensures (x[i] - y[i]) % d == 0
    {
      DvdWeaken(x[i] - y[i], m, d);
    }
  }

  /** Multiplication respects congruence modulo m. */
  lemma ConvCongr(a: seq<int>, a': seq<int>, b: seq<int>, b': seq<int>, m: int)
    requires |a| > 0 && EqMod(a, a', m) && EqMod(b, b', m) && |b| == |a|
    ensures EqMod(Conv(a, b), Conv(a', b'), m)
  {
    // a*b - a'*b' == (a - a')*b + a'*(b - b')
    var da := Lin(1, a, -1, a');
    var db := Lin(1, b, -1, b');
    ConvDvd(da, b, m, 1);
    ConvDvd(a', db, 1, m);
    ConvLinLeft(1, a, -1, a', b);
    ConvLinRight(1, b, -1, b', a');
    forall i | 0 <= i < |a|
      ensures (Conv(a, b)[i] - Conv(a', b')[i]) % m == 0
    {
      assert Conv(a, b)[i] - Conv(a', b')[i] == Conv(da, b)[i] + Conv(a', db)[i];
      DvdLin(Conv(da, b)[i], Conv(a', db)[i], 1, 1, m);
    }
  }

  /** Remainders agree when the difference is a multiple of m. */
  lemma ModOfDvd(x: int, y: int, m: int)
    requires 0 < m && (x - y) % m == 0
    ensures x % m == y % m
  {
    var t := (x - y) / m;
    assert x == y + m * t;
    ModShift(y, m, t);
  }

  lemma LinCongr(u: int, x: seq<int>, x': seq<int>, v: int, y: seq<int>, y': seq<int>, m: int)
    requires EqMod(x, x', m) && EqMod(y, y', m) && |x| == |y|
    ensures EqMod(Lin(u, x, v, y), Lin(u, x', v, y'), m)
  {
    forall i | 0 <= i < |x|
      ensures (Lin(u, x, v, y)[i] - Lin(u, x', v, y')[i]) % m == 0
    {
      assert Lin(u, x, v, y)[i] - Lin(u, x', v, y')[i] == u * (x[i] - x'[i]) + v * (y[i] - y'[i]);
      DvdLin(x[i] - x'[i], y[i] - y'[i], u, v, m);
    }
  }

  // ---------------------------------------------------------------------
  // The Newton step for inverses.

  /** One Newton step towards an inverse of a: (2 - x * a) * x. */
  function Newton(a: seq<int>, x: seq<int>): (y: seq<int>)
    requires |a| == |x| > 0
    ensures |y| == |a|
  {
    Conv(Lin(2, One(|a|), -1, Conv(x, a)), x)
  }

  /** k Newton steps from x. */
  function NewtonIter(a: seq<int>, x: seq<int>, k: nat): (y: seq<int>)
    requires |a| == |x| > 0
    ensures |y| == |a|
  {
    if k == 0 then x else Newton(a, NewtonIter(a, x, k - 1))
  }

  /** A Newton step maps congruent approximations to congruent results. */
  lemma NewtonCongr(a: seq<int>, x: seq<int>, x': seq<int>, q: int)
    requires |a| == |x| > 0 && EqMod(x, x', q)
    ensures EqMod(Newton(a, x), Newton(a, x'), q)
  {
    var n := |a|;
    EqModRefl(a, q);
    EqModRefl(One(n), q);
    ConvCongr(x, x', a, a, q);
    LinCongr(2, One(n), One(n), -1, Conv(x, a), Conv(x', a), q);
    ConvCongr(Lin(2, One(n), -1, Conv(x, a)), Lin(2, One(n), -1, Conv(x', a)), x, x', q);
  }

  /** With p = x * a and c = 2 - p:  c * p == 1 - (1 - p)^2. */
  lemma NewtonIdentity(p: seq<int>)
    requires |p| > 0
    ensures Conv(Lin(2, One(|p|), -1, p), p)
         == Lin(1, One(|p|), -1, Conv(Lin(1, One(|p|), -1, p), Lin(1, One(|p|), -1, p)))
  {
    var n := |p|;
    var e := Lin(1, One(n), -1, p);
    // (2 - p) * p == 2p - p*p
    ConvLinLeft(2, One(n), -1, p, p);
    ConvOneLeft(p);
    // e * e == e - p*e == (1 - p) - (p - p*p)
    ConvLinLeft(1, One(n), -1, p, e);
    ConvOneLeft(e);
    ConvLinRight(1, One(n), -1, p, p);
    ConvOneRight(p);
  }

  /** One Newton round: if x * a == 1 (mod m) and s == Newton(a, x) (mod q),
      then s * a == 1 modulo every common divisor d of m * m and q. */
  lemma NewtonStep(a: seq<int>, x: seq<int>, s: seq<int>, m: int, q: int, d: int)
    requires |a| == |x| > 0 && 0 < m && 0 < d <= q && q % d == 0
    requires d <= m * m && (m * m) % d == 0
    requires EqMod(Conv(x, a), One(|a|), m)
    requires EqMod(s, Newton(a, x), q)
    ensures EqMod(Conv(s, a), One(|a|), d)
  {
    var p := Conv(x, a);
    NewtonProduct(a, x, s, q, d);
    NewtonResidue(p, m, d);
    EqModTrans(Conv(s, a), Conv(Lin(2, One(|a|), -1, p), p), One(|a|), d);
  }

  /** s * a == (c * x) * a == c * (x * a), with c = 2 - x * a, modulo d. */
  lemma NewtonProduct(a: seq<int>, x: seq<int>, s: seq<int>, q: int, d: int)
    requires |a| == |x| > 0 && 0 < d <= q && q % d == 0
    requires EqMod(s, Newton(a, x), q)
    ensures EqMod(Conv(s, a), Conv(Lin(2, One(|a|), -1, Conv(x, a)), Conv(x, a)), d)
  {
    var c := Lin(2, One(|a|), -1, Conv(x, a));
    EqModRefl(a, q);
    ConvCongr(s, Newton(a, x), a, a, q);
    ConvAssoc(c, x, a);
    EqModWeaken(Conv(s, a), Conv(c, Conv(x, a)), q, d);
  }

  /** With p == 1 (mod m): (2 - p) * p == 1 - (1 - p)^2 == 1 modulo every
      divisor d of m * m. */
  lemma NewtonResidue(p: seq<int>, m: int, d: int)
    requires |p| > 0 && 0 < m && 0 < d <= m * m && (m * m) % d == 0
    requires EqMod(p, One(|p|), m)
    ensures EqMod(Conv(Lin(2, One(|p|), -1, p), p), One(|p|), d)
  {
    var n := |p|;
    var e := Lin(1, One(n), -1, p);
    NewtonIdentity(p);
    forall i | 0 <= i < n
      ensures e[i] % m == 0
    {
      DvdLin(p[i] - One(n)[i], 0, -1, 0, m);
    }
    ConvDvd(e, e, m, m);
    var y := Lin(1, One(n), -1, Conv(e, e));
    forall i | 0 <= i < n
      ensures (y[i] - One(n)[i]) % d == 0
    {
      DvdWeaken(Conv(e, e)[i], m * m, d);
      DvdLin(Conv(e, e)[i], 0, -1, 0, d);
    }
    assert EqMod(y, One(n), d);
  }

  /** The Newton lemma: an inverse modulo 2^k becomes one modulo 2^(2k). */
  lemma NewtonDoubling(a: seq<int>, x: seq<int>, k: nat)
    requires |a| == |x| > 0
    requires EqMod(Conv(x, a), One(|a|), Pow2(k))
    ensures EqMod(Conv(Newton(a, x), a), One(|a|), Pow2(k + k))
  {
    var m, d := Pow2(k), Pow2(k + k);
    PowAdd(k, k);
    assert d == m * m;
    DivModUnique(d, d, 1, 0);
    EqModRefl(Newton(a, x), d);
    NewtonStep(a, x, Newton(a, x), m, d, d);
  }

  lemma EqModRefl(x: seq<int>, m: int)
    requires 0 < m
    ensures EqMod(x, x, m)
  {
  }

  // -------------------------------------------------------------------------
  // Commutativity of the cyclic product.

  function Reverse(s: seq<int>): (r: seq<int>)
    ensures |r| == |s|
  {
    seq(|s|, k requires 0 <= k < |s| => s[|s| - 1 - k])
  }

  lemma {:induction false} SumReverse(s: seq<int>)
    ensures Sum(Reverse(s)) == Sum(s)
  {
    if s != [] {
      var n := |s|;
      var init := s[..n - 1];
      assert Reverse(s)[1..] == Reverse(init);
      SumReverse(init);
      assert s == init + [s[n - 1]];
      SumAppend(init, [s[n - 1]]);
    }
  }

  /** Coefficient i of b * a lists the terms of coefficient i of a * b
      backwards from j = i, wrapping around. */
  lemma CommAt(a: seq<int>, b: seq<int>, i: int)
    requires |a| == |b| > 0 && 0 <= i < |a|
    ensures Conv(a, b)[i] == Conv(b, a)[i]
  {
    var n := |a|;
    var s := Terms(a, b, i);
    var t := Terms(b, a, i);
    forall k | 0 <= k < n
      ensures t[k] == (if k <= i then s[i - k] else s[n + i - k])
    {
      if k <= i {
        ModRange(i - k, n);
        ModRange(k, n);
        assert (i - (i - k)) % n == k;
      } else {
        ModRange(i - k, n);
        assert (i - (n + i - k)) == k - n;
        ModShift(k, n, -1);
        ModRange(k, n);
      }
    }
    assert t == Reverse(s[..i + 1]) + Reverse(s[i + 1..]);
    SumAppend(Reverse(s[..i + 1]), Reverse(s[i + 1..]));
    SumReverse(s[..i + 1]);
    SumReverse(s[i + 1..]);
    assert s == s[..i + 1] + s[i + 1..];
    SumAppend(s[..i + 1], s[i + 1..]);
  }

  lemma ConvComm(a: seq<int>, b: seq<int>)
    requires |a| == |b| > 0
    ensures Conv(a, b) == Conv(b, a)
  {
    forall i | 0 <= i < |a|
      ensures Conv(a, b)[i] == Conv(b, a)[i]
    {
      CommAt(a, b, i);
    }
  }

  /** (a * b) * (c * d) == (a * c) * (b * d). */
  lemma ConvSwap(a: seq<int>, b: seq<int>, c: seq<int>, d: seq<int>)
    requires |a| == |b| == |c| == |d| > 0
    ensures Conv(Conv(a, b), Conv(c, d)) == Conv(Conv(a, c), Conv(b, d))
  {
    ConvAssoc(a, b, Conv(c, d));
    ConvAssoc(b, c, d);
    ConvComm(b, c);
    ConvAssoc(c, b, d);
    ConvAssoc(a, c, Conv(b, d));
  }

  // -------------------------------------------------------------------------
  // Congruence modulo (m, Phi_n), Phi_n = 1 + x + ... + x^(n-1).
  //
  // NTRU inverts in Z[x]/(m, Phi_n) rather than in Z[x]/(m, x^n - 1).  In
  // Z[x]/(x^n - 1) the multiples of Phi_n are exactly the constant
  // polynomials c * Phi_n (x * Phi_n == Phi_n there), so two polynomials
  // agree modulo (m, Phi_n) when their difference is, coefficient by
  // coefficient, one and the same constant modulo m.

  /** Phi_n as a polynomial of Z[x]/(x^n - 1): all n coefficients are 1. */
  function Ones(n: nat): (c: seq<int>)
    ensures |c| == n
  {
    seq(n, i => 1)
  }

  /** x and y agree modulo (m, Phi_n): every coefficient of x - y is
      congruent modulo m to its last one. */
  ghost predicate EqModPhi(x: seq<int>, y: seq<int>, m: int)
  {
    && 0 < m && |x| == |y| > 0
    && forall i :: 0 <= i < |x| ==> ((x[i] - y[i]) - (x[|x| - 1] - y[|x| - 1])) % m == 0
  }

  /** x - y == c * Phi_n (mod m) for some constant c gives x == y mod (m, Phi_n). */
  lemma EqModPhiOfShift(x: seq<int>, y: seq<int>, c: int, m: int)
    requires 0 < m && |x| == |y| > 0
    requires forall i :: 0 <= i < |x| ==> (x[i] - y[i] - c) % m == 0
    ensures EqModPhi(x, y, m)
  {
    var n := |x|;
    forall i | 0 <= i < n
      ensures ((x[i] - y[i]) - (x[n - 1] - y[n - 1])) % m == 0
    {
      DvdLin(x[i] - y[i] - c, x[n - 1] - y[n - 1] - c, 1, -1, m);
    }
  }

  /** Congruence modulo m implies congruence modulo (m, Phi_n). */
  lemma EqModToPhi(x: seq<int>, y: seq<int>, m: int)
    requires EqMod(x, y, m) && |x| > 0
    ensures EqModPhi(x, y, m)
  {
    EqModPhiOfShift(x, y, 0, m);
  }

  lemma EqModPhiTrans(x: seq<int>, y: seq<int>, z: seq<int>, m: int)
    requires EqModPhi(x, y, m) && EqModPhi(y, z, m)
    ensures EqModPhi(x, z, m)
  {
    var n := |x|;
    forall i | 0 <= i < n
      ensures ((x[i] - z[i]) - (x[n - 1] - z[n - 1])) % m == 0
    {
      DvdLin((x[i] - y[i]) - (x[n - 1] - y[n - 1]), (y[i] - z[i]) - (y[n - 1] - z[n - 1]), 1, 1, m);
    }
  }

  /** A congruence modulo (m, Phi_n) holds modulo (d, Phi_n) for every divisor d of m. */
  lemma EqModPhiWeaken(x: seq<int>, y: seq<int>, m: int, d: int)
    requires EqModPhi(x, y, m) && 0 < d <= m && m % d == 0
    ensures EqModPhi(x, y, d)
  {
    var n := |x|;
    forall i | 0 <= i < n
      ensures ((x[i] - y[i]) - (x[n - 1] - y[n - 1])) % d == 0
    {
      DvdWeaken((x[i] - y[i]) - (x[n - 1] - y[n - 1]), m, d);
    }
  }

  /** v * Phi_n == Phi_n * v == Sum(v) * Phi_n. */
  lemma ConvOnes(v: seq<int>, i: int)
    requires |v| > 0 && 0 <= i < |v|
    ensures Conv(v, Ones(|v|))[i] == Sum(v) && Conv(Ones(|v|), v)[i] == Sum(v)
  {
    var n := |v|;
    forall j | 0 <= j < n
      ensures Terms(v, Ones(n), i)[j] == v[j]
    {
    }
    assert Terms(v, Ones(n), i) == v;
    CommAt(v, Ones(n), i);
  }

  /** Coefficient i of (a + ka * Phi_n) * (b + kb * Phi_n): that of a * b plus
      a constant. */
  lemma ConvShiftAt(a: seq<int>, b: seq<int>, ka: int, kb: int, i: int)
    requires |a| == |b| > 0 && 0 <= i < |a|
    ensures Conv(Lin(1, a, ka, Ones(|a|)), Lin(1, b, kb, Ones(|a|)))[i]
         == Conv(a, b)[i] + kb * Sum(a) + ka * Sum(Lin(1, b, kb, Ones(|a|)))
  {
    var n := |a|;
    var B := Lin(1, b, kb, Ones(n));
    ConvLinLeftAt(1, a, ka, Ones(n), B, i);
    ConvLinRightAt(1, b, kb, Ones(n), a, i);
    ConvOnes(a, i);
    ConvOnes(B, i);
  }

  /** Multiplication respects congruence modulo (m, Phi_n). */
  lemma ConvCongrPhi(a: seq<int>, a': seq<int>, b: seq<int>, b': seq<int>, m: int)
    requires EqModPhi(a, a', m) && EqModPhi(b, b', m) && |b| == |a|
    ensures EqModPhi(Conv(a, b), Conv(a', b'), m)
  {
    var n := |a|;
    var ka, kb := a[n - 1] - a'[n - 1], b[n - 1] - b'[n - 1];
    var A, B := Lin(1, a', ka, Ones(n)), Lin(1, b', kb, Ones(n));
    forall i | 0 <= i < n
      ensures (a[i] - A[i]) % m == 0 && (b[i] - B[i]) % m == 0
    {
      assert a[i] - A[i] == (a[i] - a'[i]) - ka;
      assert b[i] - B[i] == (b[i] - b'[i]) - kb;
    }
    ConvCongr(a, A, b, B, m);
    var c := kb * Sum(a') + ka * Sum(B);
    forall i | 0 <= i < n
      ensures (Conv(a, b)[i] - Conv(a', b')[i] - c) % m == 0
    {
      ConvShiftAt(a', b', ka, kb, i);
    }
    EqModPhiOfShift(Conv(a, b), Conv(a', b'), c, m);
  }

  /** With p == 1 modulo (m, Phi_n): (2 - p) * p == 1 - (1 - p)^2 == 1 modulo
      (d, Phi_n) for every divisor d of m * m. */
  lemma NewtonResiduePhi(p: seq<int>, m: int, d: int)
    requires 0 < m && 0 < d <= m * m && (m * m) % d == 0
    requires EqModPhi(p, One(|p|), m)
    ensures EqModPhi(Conv(Lin(2, One(|p|), -1, p), p), One(|p|), d)
  {
    var n := |p|;
    var k := p[n - 1] - One(n)[n - 1];
    var e := Lin(1, One(n), -1, p);
    NewtonIdentity(p);
    forall i | 0 <= i < n
      ensures Lin(1, e, k, Ones(n))[i] % m == 0
    {
      assert Lin(1, e, k, Ones(n))[i] == -((p[i] - One(n)[i]) - (p[n - 1] - One(n)[n - 1]));
      DvdLin((p[i] - One(n)[i]) - (p[n - 1] - One(n)[n - 1]), 0, -1, 0, m);
    }
    SquarePhi(e, k, m, d);
  }

  /** If e + k * Phi_n is a multiple of m, then 1 - e^2 == 1 modulo (d, Phi_n)
      for every divisor d of m * m. */
  lemma SquarePhi(e: seq<int>, k: int, m: int, d: int)
    requires |e| > 0 && 0 < m && 0 < d <= m * m && (m * m) % d == 0
    requires forall i :: 0 <= i < |e| ==> Lin(1, e, k, Ones(|e|))[i] % m == 0
    ensures EqModPhi(Lin(1, One(|e|), -1, Conv(e, e)), One(|e|), d)
  {
    var n := |e|;
    var e' := Lin(1, e, k, Ones(n));
    ConvDvd(e', e', m, m);
    var c := k * Sum(e) + k * Sum(e');
    var y := Lin(1, One(n), -1, Conv(e, e));
    forall i | 0 <= i < n
      ensures (y[i] - One(n)[i] - c) % d == 0
    {
      ConvShiftAt(e, e, k, k, i);
      assert y[i] - One(n)[i] - c == -Conv(e', e')[i];
      DvdWeaken(Conv(e', e')[i], m * m, d);
      DvdLin(Conv(e', e')[i], 0, -1, 0, d);
    }
    EqModPhiOfShift(y, One(n), c, d);
  }

  /** One Newton round modulo (m, Phi_n): if x * a == 1 there and s == Newton(a, x)
      (mod q), then s * a == 1 modulo (d, Phi_n) for every common divisor d of
      m * m and q. */
  lemma NewtonStepPhi(a: seq<int>, x: seq<int>, s: seq<int>, m: int, q: int, d: int)
    requires |a| == |x| > 0 && 0 < m && 0 < d <= q && q % d == 0
    requires d <= m * m && (m * m) % d == 0
    requires EqModPhi(Conv(x, a), One(|a|), m)
    requires EqMod(s, Newton(a, x), q)
    ensures EqModPhi(Conv(s, a), One(|a|), d)
  {
    var p := Conv(x, a);
    NewtonProduct(a, x, s, q, d);
    EqModToPhi(Conv(s, a), Conv(Lin(2, One(|a|), -1, p), p), d);
    NewtonResiduePhi(p, m, d);
    EqModPhiTrans(Conv(s, a), Conv(Lin(2, One(|a|), -1, p), p), One(|a|), d);
  }

  /** The Newton lemma modulo Phi_n: an inverse modulo (2^k, Phi_n) becomes
      one modulo (2^(2k), Phi_n). */
  lemma NewtonDoublingPhi(a: seq<int>, x: seq<int>, k: nat)
    requires |a| == |x| > 0
    requires EqModPhi(Conv(x, a), One(|a|), Pow2(k))
    ensures EqModPhi(Conv(Newton(a, x), a), One(|a|), Pow2(k + k))
  {
    var m, d := Pow2(k), Pow2(k + k);
    PowAdd(k, k);
    assert d == m * m;
    DivModUnique(d, d, 1, 0);
    EqModRefl(Newton(a, x), d);
    NewtonStepPhi(a, x, Newton(a, x), m, d, d);
  }

  /** The coefficient sum is multiplicative: it is evaluation at x = 1. */
  lemma SumConv(a: seq<int>, b: seq<int>)
    requires |a| == |b| > 0
    ensures Sum(Conv(a, b)) == Sum(a) * Sum(b)
  {
    var n := |a|;
    var rows := TermRows(a, b);
    assert RowSums(rows) == Conv(a, b);
    SumSwap(rows, n);
    var cs := ColumnSums(rows, n);
    forall j | 0 <= j < n
      ensures cs[j] == Lin(Sum(b), a, 0, a)[j]
    {
      var col := Column(rows, j);
      assert col == seq(n, i requires 0 <= i < n => Terms(a, b, i)[j]);
      TermsColumn(a, b, j);
      assert cs[j] == Sum(col) == a[j] * Sum(b);
    }
    assert cs == Lin(Sum(b), a, 0, a);
    SumLin(Sum(b), a, 0, a);
    var sa, sb := Sum(a), Sum(b);
    assert Sum(cs) == sb * sa + 0 * sa;
    assert Sum(Conv(a, b)) == Sum(cs);
    assert sb * sa + 0 * sa == sa * sb;
  }

  /** The terms of every coefficient of a * b, one row per coefficient. */
  function TermRows(a: seq<int>, b: seq<int>): (rows: seq<seq<int>>)
    requires |a| == |b| > 0
    ensures |rows| == |a| && forall i :: 0 <= i < |a| ==> |rows[i]| == |a|
  {
    seq(|a|, i requires 0 <= i < |a| => Terms(a, b, i))
  }

  /** Column j of the terms of a * b is a[j] times b rotated by j. */
  lemma TermsColumn(a: seq<int>, b: seq<int>, j: int)
    requires |a| == |b| > 0 && 0 <= j < |a|
    ensures Sum(seq(|a|, i requires 0 <= i < |a| => Terms(a, b, i)[j])) == a[j] * Sum(b)
  {
    var n := |a|;
    var col := seq(n, i requires 0 <= i < n => Terms(a, b, i)[j]);
    var rot := b[n - j..] + b[..n - j];
    forall i | 0 <= i < n
      ensures col[i] == Lin(a[j], rot, 0, rot)[i]
    {
      ModRange(i - j, n);
    }
    assert col == Lin(a[j], rot, 0, rot);
    SumLin(a[j], rot, 0, rot);
    SumRotate(b, n - j);
  }

  /** A polynomial whose coefficients sum to a multiple of m has no inverse
      modulo (m, x^n - 1): the coefficient sum of x * a would be 1 modulo m. */
  lemma CyclicInverseParity(x: seq<int>, a: seq<int>, m: int)
    requires |x| == |a| > 0 && 1 < m && Sum(a) % m == 0
    ensures !EqMod(Conv(x, a), One(|a|), m)
  {
    var n := |a|;
    if EqMod(Conv(x, a), One(n), m) {
      var diff := Lin(1, Conv(x, a), -1, One(n));
      SumDvd(diff, m);
      SumLin(1, Conv(x, a), -1, One(n));
      SumSingle(One(n), 0);
      SumConv(x, a);
      DvdLin(Sum(a), 0, Sum(x), 0, m);
      DvdLin(Sum(x) * Sum(a), Sum(diff), 1, -1, m);
      assert Sum(x) * Sum(a) - Sum(diff) == 1;
      ModRange(1, m);
      assert false;
    }
  }
}
