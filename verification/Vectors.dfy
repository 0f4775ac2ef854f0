/** Vectors over the reals, as the core's index loops compute with them, and the
    inner-product facts the geometry needs in every dimension. */
module Vectors {

  type Vec = seq<real>

  /** The platform's square root. Only what IsSqrt says is assumed of it. */
  type Root = real -> real

  ghost predicate IsSqrt(sqrt: Root) {
    forall x: real :: x >= 0.0 ==> sqrt(x) >= 0.0 && sqrt(x) * sqrt(x) == x
  }

  /** The first n products, summed from the left. */
  function DotN(a: Vec, b: Vec, n: nat): real
    requires n <= |a| && n <= |b|
  {
    if n == 0 then 0.0 else DotN(a, b, n - 1) + a[n - 1] * b[n - 1]
  }

  /** The dot product, pairing entries up to the end of the shorter vector. */
  function Dot(a: Vec, b: Vec): real {
    DotN(a, b, if |a| <= |b| then |a| else |b|)
  }

  function Norm2(a: Vec): real {
    Dot(a, a)
  }

  function Norm(sqrt: Root, a: Vec): real {
    sqrt(Norm2(a))
  }

  function Add(a: Vec, b: Vec): (c: Vec)
    requires |a| == |b|
    ensures |c| == |a|
  {
    seq(|a|, i requires 0 <= i < |a| => a[i] + b[i])
  }

  function Sub(a: Vec, b: Vec): (c: Vec)
    requires |a| == |b|
    ensures |c| == |a|
  {
    seq(|a|, i requires 0 <= i < |a| => a[i] - b[i])
  }

  function Scale(s: real, a: Vec): (c: Vec)
    ensures |c| == |a|
  {
    seq(|a|, i requires 0 <= i < |a| => s * a[i])
  }

  function Zeros(n: nat): (c: Vec)
    ensures |c| == n
  {
    seq(n, _ => 0.0)
  }

  // ---- Bilinearity ----------------------------------------------------------

  /** c is s*a + t*b, entry by entry. */
  ghost predicate Combines(c: Vec, s: real, a: Vec, t: real, b: Vec) {
    |a| == |b| == |c| && forall i :: 0 <= i < |c| ==> c[i] == s * a[i] + t * b[i]
  }

  lemma {:induction false} DotNCombine(c: Vec, s: real, a: Vec, t: real, b: Vec, d: Vec, n: nat)
    requires Combines(c, s, a, t, b) && n <= |c| == |d|
    ensures DotN(c, d, n) == s * DotN(a, d, n) + t * DotN(b, d, n)
  {
    if n > 0 {
      DotNCombine(c, s, a, t, b, d, n - 1);
      var k := n - 1;
      assert c[k] * d[k] == s * (a[k] * d[k]) + t * (b[k] * d[k]);
    }
  }

  lemma DotCombine(c: Vec, s: real, a: Vec, t: real, b: Vec, d: Vec)
    requires Combines(c, s, a, t, b) && |c| == |d|
    ensures Dot(c, d) == s * Dot(a, d) + t * Dot(b, d)
    ensures Dot(d, c) == s * Dot(d, a) + t * Dot(d, b)
  {
    DotNCombine(c, s, a, t, b, d, |c|);
    DotSym(c, d);
    DotSym(a, d);
    DotSym(b, d);
  }

  lemma {:induction false} DotNSym(a: Vec, b: Vec, n: nat)
    requires n <= |a| && n <= |b|
    ensures DotN(a, b, n) == DotN(b, a, n)
  {
    if n > 0 {
      DotNSym(a, b, n - 1);
    }
  }

  lemma DotSym(a: Vec, b: Vec)
    ensures Dot(a, b) == Dot(b, a)
  {
    DotNSym(a, b, if |a| <= |b| then |a| else |b|);
  }

  lemma {:induction false} DotNSelf(a: Vec, n: nat)
    requires n <= |a|
    ensures DotN(a, a, n) >= 0.0
    ensures forall i :: 0 <= i < n ==> a[i] * a[i] <= DotN(a, a, n)
  {
    if n > 0 {
      DotNSelf(a, n - 1);
      assert a[n - 1] * a[n - 1] >= 0.0;
    }
  }

  lemma Norm2Nonneg(a: Vec)
    ensures Norm2(a) >= 0.0
    ensures Norm2(a) == 0.0 ==> forall i :: 0 <= i < |a| ==> a[i] == 0.0
  {
    DotNSelf(a, |a|);
    if Norm2(a) == 0.0 {
      forall i | 0 <= i < |a| ensures a[i] == 0.0 {
        ZeroSquare(a[i]);
      }
    }
  }

  /** A factor has the sign of the product when the other factor is positive. */
  lemma NonposFactor(x: real, y: real)
    requires y > 0.0 && x * y <= 0.0
    ensures x <= 0.0
  {}

  lemma ZeroSquare(x: real)
    requires x * x <= 0.0
    ensures x == 0.0
  {
    assert -x * -x == x * x;
    if x > 0.0 {
      NonposFactor(x, x);
    } else if x < 0.0 {
      NonposFactor(-x, -x);
    }
  }

  lemma DotAdd(a: Vec, b: Vec, d: Vec)
    requires |a| == |b| == |d|
    ensures Dot(Add(a, b), d) == Dot(a, d) + Dot(b, d)
    ensures Dot(d, Add(a, b)) == Dot(d, a) + Dot(d, b)
  {
    DotCombine(Add(a, b), 1.0, a, 1.0, b, d);
  }

  lemma DotSub(a: Vec, b: Vec, d: Vec)
    requires |a| == |b| == |d|
    ensures Dot(Sub(a, b), d) == Dot(a, d) - Dot(b, d)
    ensures Dot(d, Sub(a, b)) == Dot(d, a) - Dot(d, b)
  {
    DotCombine(Sub(a, b), 1.0, a, -1.0, b, d);
  }

  /** c is s*a, entry by entry. */
  ghost predicate Multiple(c: Vec, s: real, a: Vec) {
    |a| == |c| && forall i :: 0 <= i < |c| ==> c[i] == s * a[i]
  }

  lemma DotMultiple(c: Vec, s: real, a: Vec, d: Vec)
    requires Multiple(c, s, a) && |d| == |c|
    ensures Dot(c, d) == s * Dot(a, d)
    ensures Dot(d, c) == s * Dot(d, a)
  {
    DotCombine(c, s, a, 0.0, a, d);
  }

  lemma Norm2Multiple(c: Vec, s: real, a: Vec)
    requires Multiple(c, s, a)
    ensures Norm2(c) == s * s * Norm2(a)
  {
    DotMultiple(c, s, a, c);
    DotMultiple(c, s, a, a);
  }

  lemma DotScale(s: real, a: Vec, d: Vec)
    requires |a| == |d|
    ensures Dot(Scale(s, a), d) == s * Dot(a, d)
    ensures Dot(d, Scale(s, a)) == s * Dot(d, a)
  {
    DotMultiple(Scale(s, a), s, a, d);
  }

  /** |a + t b|^2 expanded. */
  lemma Norm2Combine(c: Vec, s: real, a: Vec, t: real, b: Vec)
    requires Combines(c, s, a, t, b)
    ensures Norm2(c) == s * s * Norm2(a) + 2.0 * s * t * Dot(a, b) + t * t * Norm2(b)
  {
    DotCombine(c, s, a, t, b, c);
    DotCombine(c, s, a, t, b, a);
    DotCombine(c, s, a, t, b, b);
    DotSym(a, b);
    var aa, ab, bb := Norm2(a), Dot(a, b), Norm2(b);
    assert Dot(a, c) == s * aa + t * ab;
    assert Dot(b, c) == s * ab + t * bb;
    assert Norm2(c) == s * (s * aa + t * ab) + t * (s * ab + t * bb);
    assert s * (t * ab) == s * t * ab && t * (s * ab) == s * t * ab;
  }

  lemma Norm2Sub(a: Vec, b: Vec)
    requires |a| == |b|
    ensures Norm2(Sub(a, b)) == Norm2(a) - 2.0 * Dot(a, b) + Norm2(b)
  {
    Norm2Combine(Sub(a, b), 1.0, a, -1.0, b);
  }

  lemma Norm2Add(a: Vec, b: Vec)
    requires |a| == |b|
    ensures Norm2(Add(a, b)) == Norm2(a) + 2.0 * Dot(a, b) + Norm2(b)
  {
    Norm2Combine(Add(a, b), 1.0, a, 1.0, b);
  }

  // ---- Cauchy-Schwarz and the triangle inequality ----------------------------

  lemma CauchySchwarz(a: Vec, b: Vec)
    requires |a| == |b|
    ensures Dot(a, b) * Dot(a, b) <= Norm2(a) * Norm2(b)
  {
    var aa, ab, bb := Norm2(a), Dot(a, b), Norm2(b);
    Norm2Nonneg(a);
    Norm2Nonneg(b);
    if bb == 0.0 {
      DotWithZero(a, b);
    } else {
      var c := Sub(Scale(bb, a), Scale(ab, b));
      assert Combines(c, bb, a, -ab, b);
      Norm2Combine(c, bb, a, -ab, b);
      Norm2Nonneg(c);
      Discriminant(aa, ab, bb);
    }
  }

  lemma Discriminant(aa: real, ab: real, bb: real)
    requires bb > 0.0
    requires bb * bb * aa + 2.0 * bb * -ab * ab + -ab * -ab * bb >= 0.0
    ensures ab * ab <= aa * bb
  {
    var gap := aa * bb - ab * ab;
    assert bb * gap == bb * bb * aa - bb * (ab * ab);
    assert 2.0 * bb * -ab * ab == -2.0 * (bb * (ab * ab));
    assert -ab * -ab * bb == bb * (ab * ab);
    assert -gap * bb == -(bb * gap);
    NonposFactor(-gap, bb);
  }

  lemma {:induction false} DotNWithZero(a: Vec, b: Vec, n: nat)
    requires n <= |a| && n <= |b| && forall i :: 0 <= i < n ==> b[i] == 0.0
    ensures DotN(a, b, n) == 0.0
  {
    if n > 0 {
      DotNWithZero(a, b, n - 1);
    }
  }

  lemma DotWithZero(a: Vec, b: Vec)
    requires |a| == |b| && Norm2(b) == 0.0
    ensures Dot(a, b) == 0.0
  {
    Norm2Nonneg(b);
    DotNWithZero(a, b, |a|);
  }

  lemma SquareOrder(x: real, y: real)
    requires y >= 0.0 && x * x <= y * y
    ensures x <= y
  {
    assert (x - y) * (x + y) == x * x - y * y;
    if x + y > 0.0 {
      NonposFactor(x - y, x + y);
    }
  }

  lemma NormSquared(sqrt: Root, a: Vec)
    requires IsSqrt(sqrt)
    ensures Norm(sqrt, a) >= 0.0 && Norm(sqrt, a) * Norm(sqrt, a) == Norm2(a)
  {
    Norm2Nonneg(a);
  }

  lemma DotBoundedByNorms(sqrt: Root, a: Vec, b: Vec)
    requires IsSqrt(sqrt) && |a| == |b|
    ensures Dot(a, b) <= Norm(sqrt, a) * Norm(sqrt, b)
  {
    CauchySchwarz(a, b);
    NormSquared(sqrt, a);
    NormSquared(sqrt, b);
    var na, nb := Norm(sqrt, a), Norm(sqrt, b);
    assert (na * nb) * (na * nb) == (na * na) * (nb * nb);
    SquareOrder(Dot(a, b), na * nb);
  }

  lemma TriangleInequality(sqrt: Root, a: Vec, b: Vec)
    requires IsSqrt(sqrt) && |a| == |b|
    ensures Norm(sqrt, Add(a, b)) <= Norm(sqrt, a) + Norm(sqrt, b)
  {
    var na, nb, nc := Norm(sqrt, a), Norm(sqrt, b), Norm(sqrt, Add(a, b));
    NormSquared(sqrt, a);
    NormSquared(sqrt, b);
    NormSquared(sqrt, Add(a, b));
    Norm2Add(a, b);
    DotBoundedByNorms(sqrt, a, b);
    assert (na + nb) * (na + nb) == na * na + 2.0 * (na * nb) + nb * nb;
    SquareOrder(nc, na + nb);
  }

  /** A vector is no longer than one that exceeds it in every entry's magnitude. */
  lemma {:induction false} DotNMonotone(a: Vec, b: Vec, n: nat)
    requires n <= |a| && n <= |b|
    requires forall i :: 0 <= i < n ==> -b[i] <= a[i] <= b[i]
    ensures DotN(a, a, n) <= DotN(b, b, n)
  {
    if n > 0 {
      DotNMonotone(a, b, n - 1);
      var x, y := a[n - 1], b[n - 1];
      assert (y - x) * (y + x) >= 0.0;
      assert (y - x) * (y + x) == y * y - x * x;
    }
  }

  lemma NormOrder(sqrt: Root, a: Vec, b: Vec)
    requires IsSqrt(sqrt) && Norm2(a) <= Norm2(b)
    ensures Norm(sqrt, a) <= Norm(sqrt, b)
  {
    NormSquared(sqrt, a);
    NormSquared(sqrt, b);
    SquareOrder(Norm(sqrt, a), Norm(sqrt, b));
  }
}
