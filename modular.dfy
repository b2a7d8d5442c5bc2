/**
 * Arithmetic modulo a prime and the small amount of vector algebra the
 * graded-algebra products need. A vector over F_p is a `seq<nat>` of
 * reduced entries; exact (unreduced) sums are `seq<int>`. A non-aligned
 * `SliceMut` is a window `[offset, offset + n)` of a larger buffer, and
 * `AddedInto` says how such a window changes when a vector is added into it.
 */
module Modular {

  lemma DivModUnique(x: int, p: int, q: int, r: int)
    requires p > 0 && 0 <= r < p && x == q * p + r
    ensures x / p == q && x % p == r
  {
    var q' := x / p;
    var r' := x % p;
    assert x == q' * p + r';
    assert (q - q') * p == r' - r;
    if q > q' {
      assert (q - q') * p >= p by { MulAtLeast(q - q', p); }
    } else if q < q' {
      assert (q' - q) * p >= p by { MulAtLeast(q' - q, p); }
    }
  }

  lemma MulAtLeast(d: int, p: int)
    requires d >= 1 && p > 0
    ensures d * p >= p
  {
  }

  /** Adding a multiple of `p` does not change the residue. */
  lemma ModAddMultiple(x: int, m: int, p: int)
    requires p > 0
    ensures (x + m * p) % p == x % p
  {
    assert x == (x / p) * p + x % p;
    assert x + m * p == (x / p + m) * p + x % p;
    DivModUnique(x + m * p, p, x / p + m, x % p);
  }

  /** Reducing a summand first does not change the residue of the sum. */
  lemma ModOfSum(x: int, y: int, p: int)
    requires p > 0
    ensures (x % p + y) % p == (x + y) % p
  {
    assert x + y == (x % p + y) + (x / p) * p;
    ModAddMultiple(x % p + y, x / p, p);
  }

  /** Congruent values stay congruent after adding the same value. */
  lemma ModAddCongruent(x: int, x': int, y: int, p: int)
    requires p > 0 && x % p == x' % p
    ensures (x + y) % p == (x' + y) % p
  {
    ModOfSum(x, y, p);
    ModOfSum(x', y, p);
  }

  /** Congruent values stay congruent after scaling by the same factor. */
  lemma ModMulCongruent(x: int, x': int, c: int, p: int)
    requires p > 0 && x % p == x' % p
    ensures (c * x) % p == (c * x') % p
  {
    var m := x / p - x' / p;
    assert x == (x / p) * p + x % p;
    assert x' == (x' / p) * p + x' % p;
    assert x == x' + m * p;
    assert c * x == c * x' + (c * m) * p;
    ModAddMultiple(c * x', c * m, p);
  }

  // Integer vectors

  function Zeros(n: nat): (z: seq<int>)
    ensures |z| == n && forall k :: 0 <= k < n ==> z[k] == 0
  {
    seq(n, k => 0)
  }

  /** The `i`-th standard basis vector of length `n`. */
  function Unit(n: nat, i: nat): (u: seq<int>)
    requires i < n
    ensures |u| == n && u[i] == 1 && forall k :: 0 <= k < n && k != i ==> u[k] == 0
  {
    seq(n, k => if k == i then 1 else 0)
  }

  /** `a + c * b`, entry by entry. */
  function AddScaled(a: seq<int>, c: int, b: seq<int>): (r: seq<int>)
    requires |a| == |b|
    ensures |r| == |a| && forall k :: 0 <= k < |a| ==> r[k] == a[k] + c * b[k]
  {
    seq(|a|, k requires 0 <= k < |a| => a[k] + c * b[k])
  }

  function Scale(c: int, b: seq<int>): (r: seq<int>)
    ensures |r| == |b| && forall k :: 0 <= k < |b| ==> r[k] == c * b[k]
  {
    AddScaled(Zeros(|b|), c, b)
  }

  /** Any combination of zero vectors is zero. */
  lemma CombineZeros(a: int, b: int, n: nat)
    ensures Combine(a, Zeros(n), b, Zeros(n)) == Zeros(n)
  {
    var c := Combine(a, Zeros(n), b, Zeros(n));
    forall k | 0 <= k < n ensures c[k] == 0 {
      assert c[k] == a * 0 + b * 0;
    }
  }

  /** A multiple of the zero vector is zero. */
  lemma ScaleZeros(c: int, n: nat)
    ensures Scale(c, Zeros(n)) == Zeros(n)
  {
    var z := Scale(c, Zeros(n));
    forall k | 0 <= k < n ensures z[k] == 0 {
      assert z[k] == c * 0;
    }
  }

  /** Adding nothing leaves a vector as it is. */
  lemma AddScaledByZero(a: seq<int>, b: seq<int>)
    requires |a| == |b|
    ensures AddScaled(a, 0, b) == a
  {
  }

  lemma ScaleOne(b: seq<int>)
    ensures Scale(1, b) == b
  {
  }

  /** Adding a multiple of `b` to the zero vector scales `b`. */
  lemma AddScaledToZeros(c: int, b: seq<int>)
    ensures AddScaled(Zeros(|b|), c, b) == Scale(c, b)
  {
  }

  /**
   * A coefficient in front of a sum factors out: if `v = c u`, then
   * `v + c x w` is `c (u + x w)`.
   */
  lemma AddScaledFactor(c: int, u: seq<int>, x: int, w: seq<int>, v: seq<int>, sum: seq<int>, total: seq<int>)
    requires |u| == |w|
    requires v == Scale(c, u) && sum == AddScaled(v, c * x, w) && total == AddScaled(u, 1 * x, w)
    ensures sum == Scale(c, total)
  {
    forall k | 0 <= k < |sum| ensures sum[k] == c * total[k] {
      FactorStep(c, u[k], x, w[k]);
    }
  }

  lemma FactorStep(c: int, y: int, x: int, e: int)
    ensures c * y + c * x * e == c * (y + 1 * x * e)
  {
  }

  /** `c1 * a + c2 * b`, entry by entry. */
  function Combine(c1: int, a: seq<int>, c2: int, b: seq<int>): (r: seq<int>)
    requires |a| == |b|
    ensures |r| == |a| && forall k :: 0 <= k < |a| ==> r[k] == c1 * a[k] + c2 * b[k]
  {
    AddScaled(Scale(c1, a), c2, b)
  }

  /** Every entry reduced modulo `p`: the shape of an `FpVector` over F_p. */
  function Reduce(a: seq<int>, p: nat): (r: seq<nat>)
    requires p > 0
    ensures |r| == |a| && forall k :: 0 <= k < |a| ==> r[k] == a[k] % p
  {
    seq(|a|, k requires 0 <= k < |a| => a[k] % p)
  }

  /** Entry-wise congruence modulo `p`. */
  ghost predicate Congruent(a: seq<int>, b: seq<int>, p: nat)
  {
    p > 0 && |a| == |b| && forall k :: 0 <= k < |a| ==> a[k] % p == b[k] % p
  }

  /** Entries `offset .. offset + n` of `a` all lie in `[0, p)`. */
  ghost predicate ReducedWindow(a: seq<int>, offset: nat, n: nat, p: nat)
  {
    offset + n <= |a| && forall j :: offset <= j < offset + n ==> 0 <= a[j] < p
  }

  /**
   * `after` is `before` with `delta` added, modulo `p`, into the window that
   * starts at `offset`; every entry outside the window is untouched.
   */
  ghost predicate AddedInto(before: seq<int>, after: seq<int>, offset: nat, delta: seq<int>, p: nat)
  {
    && p > 0
    && |after| == |before|
    && offset + |delta| <= |before|
    && (forall k :: 0 <= k < |delta| ==> after[offset + k] == (before[offset + k] + delta[k]) % p)
    && (forall j :: 0 <= j < |before| && !(offset <= j < offset + |delta|) ==> after[j] == before[j])
  }

  /** Adding the zero vector into a reduced window changes nothing. */
  lemma AddedZero(a: seq<int>, offset: nat, n: nat, p: nat)
    requires p > 0 && ReducedWindow(a, offset, n, p)
    ensures AddedInto(a, a, offset, Zeros(n), p)
  {
    forall k | 0 <= k < n ensures a[offset + k] == (a[offset + k] + Zeros(n)[k]) % p {
      DivModUnique(a[offset + k], p, 0, a[offset + k]);
    }
  }

  /** Adding a vector of zeros into a reduced window leaves the buffer as it was. */
  lemma AddedZeroUnchanged(before: seq<int>, after: seq<int>, offset: nat, delta: seq<int>, p: nat)
    requires AddedInto(before, after, offset, delta, p)
    requires ReducedWindow(before, offset, |delta|, p)
    requires forall k :: 0 <= k < |delta| ==> delta[k] == 0
    ensures after == before
  {
    forall j | 0 <= j < |before| ensures after[j] == before[j] {
      if offset <= j < offset + |delta| {
        var k := j - offset;
        assert after[offset + k] == (before[offset + k] + delta[k]) % p;
        DivModUnique(before[j], p, 0, before[j]);
      }
    }
  }

  /** A window that something was added into is reduced afterwards. */
  lemma AddedIsReduced(before: seq<int>, after: seq<int>, offset: nat, delta: seq<int>, p: nat)
    requires AddedInto(before, after, offset, delta, p)
    ensures ReducedWindow(after, offset, |delta|, p)
  {
    forall j | offset <= j < offset + |delta| ensures 0 <= after[j] < p {
      assert after[offset + (j - offset)] == (before[offset + (j - offset)] + delta[j - offset]) % p;
    }
  }

  /**
   * Two additions in a row add the sum, and the coefficient of the second may
   * have been reduced modulo `p` first.
   */
  lemma AddedTwice(a: seq<int>, b: seq<int>, c: seq<int>, offset: nat, d1: seq<int>, x: int, v: seq<int>, p: nat)
    requires |d1| == |v|
    requires AddedInto(a, b, offset, d1, p)
    requires AddedInto(b, c, offset, Scale(x % p, v), p)
    ensures AddedInto(a, c, offset, AddScaled(d1, x, v), p)
  {
    var sum := AddScaled(d1, x, v);
    forall k | 0 <= k < |v|
      ensures c[offset + k] == (a[offset + k] + sum[k]) % p
    {
      assert Scale(x % p, v)[k] == (x % p) * v[k];
      TwoSteps(a[offset + k], b[offset + k], c[offset + k], d1[k], x, v[k], p);
    }
  }

  /** One entry of `AddedTwice`. */
  lemma TwoSteps(a: int, b: int, c: int, d: int, x: int, v: int, p: int)
    requires p > 0
    requires b == (a + d) % p
    requires c == (b + (x % p) * v) % p
    ensures c == (a + (d + x * v)) % p
  {
    var q1, q2 := (a + d) / p, x / p;
    MulSplit(x, v, p);
    assert a + d == q1 * p + b;
    ModAddMultiples(b + (x % p) * v, q1, q2 * v, p);
    assert a + (d + x * v) == b + (x % p) * v + q1 * p + (q2 * v) * p;
  }

  lemma MulSplit(x: int, v: int, p: int)
    requires p > 0
    ensures x * v == ((x / p) * v) * p + (x % p) * v
  {
    var q, r := x / p, x % p;
    assert x == q * p + r;
    assert x * v == (q * p + r) * v;
  }

  lemma ModAddMultiples(y: int, m1: int, m2: int, p: int)
    requires p > 0
    ensures (y + m1 * p + m2 * p) % p == y % p
  {
    ModAddMultiple(y + m1 * p, m2, p);
    ModAddMultiple(y, m1, p);
  }

  /** `x + c * y` respects congruence in each of `x`, `c` and `y`. */
  lemma ModAddMulCongruent(x: int, x': int, c: int, c': int, y: int, y': int, p: int)
    requires p > 0 && x % p == x' % p && c % p == c' % p && y % p == y' % p
    ensures (x + c * y) % p == (x' + c' * y') % p
  {
    ModMulCongruent(c, c', y, p);
    ModMulCongruent(y, y', c', p);
    assert (c * y) % p == (c' * y') % p;
    ModAddCongruent(x, x', c * y, p);
    ModAddCongruent(c * y, c' * y', x', p);
  }

  lemma CongruentReflexive(a: seq<int>, p: nat)
    requires p > 0
    ensures Congruent(a, a, p)
  {
  }

  /** Reducing every entry keeps a vector congruent to itself. */
  lemma ReduceCongruent(a: seq<int>, p: nat)
    requires p > 0
    ensures Congruent(Reduce(a, p), a, p)
  {
    forall k | 0 <= k < |a| ensures (a[k] % p) % p == a[k] % p {
      ModOfSum(a[k], 0, p);
    }
  }

  /** `a + c * v` respects congruence in each of `a`, `c` and `v`. */
  lemma CongruentAddScaled(a: seq<int>, a': seq<int>, c: int, c': int, v: seq<int>, v': seq<int>, p: nat)
    requires Congruent(a, a', p) && Congruent(v, v', p) && |a| == |v|
    requires c % p == c' % p
    ensures Congruent(AddScaled(a, c, v), AddScaled(a', c', v'), p)
  {
    forall k | 0 <= k < |a| ensures (a[k] + c * v[k]) % p == (a'[k] + c' * v'[k]) % p {
      ModAddMulCongruent(a[k], a'[k], c, c', v[k], v'[k], p);
    }
  }

  /**
   * Adding a multiple of a combination adds the same multiple to each part:
   * if `l = a e1 + b e2` and `col = a c1 + b c2`, then `l + m col` is
   * `a (e1 + m c1) + b (e2 + m c2)`.
   */
  lemma AddScaledCombined(l: seq<int>, e1: seq<int>, e2: seq<int>, col: seq<int>, c1: seq<int>, c2: seq<int>,
                          a: int, b: int, m: int, sum: seq<int>, f1: seq<int>, f2: seq<int>)
    requires |e1| == |e2| == |c1| == |c2|
    requires l == Combine(a, e1, b, e2) && col == Combine(a, c1, b, c2)
    requires sum == AddScaled(l, m, col) && f1 == AddScaled(e1, m, c1) && f2 == AddScaled(e2, m, c2)
    ensures sum == Combine(a, f1, b, f2)
  {
    var rhs := Combine(a, f1, b, f2);
    forall k | 0 <= k < |sum| ensures sum[k] == rhs[k] {
      DistributeStep(e1[k], e2[k], c1[k], c2[k], a, b, m);
    }
  }

  lemma DistributeStep(x1: int, x2: int, y1: int, y2: int, a: int, b: int, m: int)
    ensures (a * x1 + b * x2) + m * (a * y1 + b * y2) == a * (x1 + m * y1) + b * (x2 + m * y2)
  {
  }

  /**
   * Adding a vector with a combined coefficient adds it to each part: if
   * `l = a e1 + b e2` and `x = a x1 + b x2`, then `l + c x col` is
   * `a (e1 + c x1 col) + b (e2 + c x2 col)`.
   */
  lemma AddScaledCombinedCoefficient(l: seq<int>, e1: seq<int>, e2: seq<int>, col: seq<int>,
                                     a: int, b: int, c: int, x: int, x1: int, x2: int,
                                     sum: seq<int>, f1: seq<int>, f2: seq<int>)
    requires |e1| == |e2| == |col|
    requires l == Combine(a, e1, b, e2) && x == a * x1 + b * x2
    requires sum == AddScaled(l, c * x, col) && f1 == AddScaled(e1, c * x1, col) && f2 == AddScaled(e2, c * x2, col)
    ensures sum == Combine(a, f1, b, f2)
  {
    var rhs := Combine(a, f1, b, f2);
    forall k | 0 <= k < |sum| ensures sum[k] == rhs[k] {
      CoefficientStep(e1[k], e2[k], col[k], a, b, c, x1, x2);
    }
  }

  lemma CoefficientStep(y1: int, y2: int, v: int, a: int, b: int, c: int, x1: int, x2: int)
    ensures (a * y1 + b * y2) + c * (a * x1 + b * x2) * v == a * (y1 + c * x1 * v) + b * (y2 + c * x2 * v)
  {
  }
}
