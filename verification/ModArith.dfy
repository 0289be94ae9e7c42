/**
 Arithmetic of residues. A congruence modulo q is written `a % q == b % q`, so that chains of
 congruences are chains of equalities. Scalars and ristretto255 points are both residues: the
 group is prime-order and cyclic, so a point is its discrete logarithm (RFC 9496, section 4).
 */
module ModArith {

  lemma MulMono(a: int, x: int, y: int)
    requires 0 <= a && x <= y
    ensures a * x <= a * y
  {
  }

  lemma {:induction false} Unique(q: int, k: int, r: int)
    requires 0 <= r < q
    ensures (k * q + r) / q == k && (k * q + r) % q == r
  {
    var n := k * q + r;
    var d := n / q;
    assert n == q * d + n % q;
    assert q * (d - k) == r - n % q;
    if d > k {
      MulMono(q, 1, d - k);
    } else if d < k {
      MulMono(q, d - k, -1);
    }
  }

  /** Two integers that differ by a multiple of q are congruent. */
  lemma Shift(q: int, a: int, b: int, k: int)
    requires q > 0 && a == b + k * q
    ensures a % q == b % q
  {
    var d := b / q;
    assert a == (d + k) * q + b % q;
    Unique(q, d + k, b % q);
  }

  /** ... and congruent integers differ by a multiple of q. */
  lemma Quotient(q: int, a: int, b: int) returns (k: int)
    requires q > 0 && a % q == b % q
    ensures a == b + k * q
  {
    k := a / q - b / q;
    assert a == q * (a / q) + a % q;
    assert b == q * (b / q) + b % q;
    assert k * q == q * (a / q) - q * (b / q);
  }

  lemma Small(q: int, a: int)
    requires 0 <= a < q
    ensures a % q == a
  {
    Unique(q, 0, a);
  }

  lemma Idem(q: int, a: int)
    requires q > 0
    ensures (a % q) % q == a % q
  {
    Small(q, a % q);
  }

  lemma CongAdd(q: int, a: int, a': int, b: int, b': int)
    requires q > 0 && a % q == a' % q && b % q == b' % q
    ensures (a + b) % q == (a' + b') % q
  {
    var k := Quotient(q, a, a');
    var l := Quotient(q, b, b');
    assert (k + l) * q == k * q + l * q;
    Shift(q, a + b, a' + b', k + l);
  }

  lemma CongNeg(q: int, a: int, a': int)
    requires q > 0 && a % q == a' % q
    ensures (-a) % q == (-a') % q
  {
    var k := Quotient(q, a, a');
    assert (-k) * q == -(k * q);
    Shift(q, -a, -a', -k);
  }

  lemma CongSub(q: int, a: int, a': int, b: int, b': int)
    requires q > 0 && a % q == a' % q && b % q == b' % q
    ensures (a - b) % q == (a' - b') % q
  {
    CongNeg(q, b, b');
    CongAdd(q, a, a', -b, -b');
  }

  lemma CongMul(q: int, a: int, a': int, b: int, b': int)
    requires q > 0 && a % q == a' % q && b % q == b' % q
    ensures (a * b) % q == (a' * b') % q
  {
    var k := Quotient(q, a, a');
    var l := Quotient(q, b, b');
    ProductOfShifts(q, a', k, b', l);
    Shift(q, a * b, a' * b', a' * l + k * b' + k * q * l);
  }

  lemma ProductOfShifts(q: int, a: int, k: int, b: int, l: int)
    ensures (a + k * q) * (b + l * q) == a * b + (a * l + k * b + k * q * l) * q
  {
    assert (a + k * q) * (b + l * q) == a * b + a * (l * q) + (k * q) * b + (k * q) * (l * q);
    assert a * (l * q) == (a * l) * q;
    assert (k * q) * b == (k * b) * q;
    assert (k * q) * (l * q) == (k * q * l) * q;
  }

  /** a is congruent to b exactly when their difference is a multiple of q. */
  lemma ZeroDiff(q: int, a: int, b: int)
    requires q > 0
    ensures a % q == b % q <==> (a - b) % q == 0
  {
    Small(q, 0);
    if a % q == b % q {
      CongSub(q, a, b, b, b);
    } else if (a - b) % q == 0 {
      CongAdd(q, a - b, 0, b, b);
    }
  }

  // ---- the operations of the scalar field and of the group -------------------------------

  function Add(q: int, a: int, b: int): (r: int)
    requires q > 0
    ensures 0 <= r < q
  {
    (a + b) % q
  }

  function Neg(q: int, a: int): (r: int)
    requires q > 0
    ensures 0 <= r < q
  {
    (-a) % q
  }

  function Sub(q: int, a: int, b: int): (r: int)
    requires q > 0
    ensures 0 <= r < q
  {
    (a - b) % q
  }

  /** Product of scalars, or multiple of a point by a scalar. */
  function Mul(q: int, a: int, b: int): (r: int)
    requires q > 0
    ensures 0 <= r < q
  {
    (a * b) % q
  }

  /** Replacing reduced operands by the integers they reduce. */
  lemma AddLift(q: int, x: int, a: int, y: int, b: int)
    requires q > 0 && x % q == a % q && y % q == b % q
    ensures Add(q, x, y) == (a + b) % q
  {
    CongAdd(q, x, a, y, b);
  }

  lemma MulLift(q: int, x: int, a: int, y: int, b: int)
    requires q > 0 && x % q == a % q && y % q == b % q
    ensures Mul(q, x, y) == (a * b) % q
  {
    CongMul(q, x, a, y, b);
  }

  // ---- finite sums ------------------------------------------------------------------------

  /** s[0] + ... + s[|s|-1]. */
  function Sum(s: seq<int>): int
  {
    if s == [] then 0 else Sum(s[..|s| - 1]) + s[|s| - 1]
  }

  /** a[0]*b[0] + ... over the common length. */
  function Dot(a: seq<int>, b: seq<int>): int
    requires |a| == |b|
  {
    if a == [] then 0 else Dot(a[..|a| - 1], b[..|b| - 1]) + a[|a| - 1] * b[|b| - 1]
  }

  lemma {:induction false} SumScale(a: seq<int>, b: seq<int>, c: int)
    requires |a| == |b| && forall i :: 0 <= i < |a| ==> b[i] == c * a[i]
    ensures Sum(b) == c * Sum(a)
  {
    if a != [] {
      var n := |a| - 1;
      SumScale(a[..n], b[..n], c);
      assert c * (Sum(a[..n]) + a[n]) == c * Sum(a[..n]) + c * a[n];
    }
  }

  lemma {:induction false} SumCong(q: int, a: seq<int>, b: seq<int>)
    requires q > 0 && |a| == |b| && forall i :: 0 <= i < |a| ==> a[i] % q == b[i] % q
    ensures Sum(a) % q == Sum(b) % q
  {
    if a != [] {
      var n := |a| - 1;
      SumCong(q, a[..n], b[..n]);
      CongAdd(q, Sum(a[..n]), Sum(b[..n]), a[n], b[n]);
    }
  }

  lemma {:induction false} DotIsSum(a: seq<int>, b: seq<int>, c: seq<int>)
    requires |a| == |b| == |c| && forall i :: 0 <= i < |a| ==> c[i] == a[i] * b[i]
    ensures Dot(a, b) == Sum(c)
  {
    if a != [] {
      var n := |a| - 1;
      DotIsSum(a[..n], b[..n], c[..n]);
    }
  }

  lemma SumPrefix(s: seq<int>, i: nat)
    requires i < |s|
    ensures Sum(s[..i + 1]) == Sum(s[..i]) + s[i]
  {
    assert s[..i + 1][..i] == s[..i];
  }

  /** The multiples of one point by several scalars add up to its multiple by their sum. */
  lemma {:induction false} SumOfMultiples(q: int, h: int, rs: seq<int>, points: seq<int>)
    requires q > 0 && |points| == |rs| && forall i :: 0 <= i < |rs| ==> points[i] == Mul(q, h, rs[i])
    ensures Sum(points) % q == (h * Sum(rs)) % q
  {
    if rs == [] {
      assert h * 0 == 0;
    } else {
      var n := |rs| - 1;
      SumOfMultiples(q, h, rs[..n], points[..n]);
      Idem(q, h * rs[n]);
      CongAdd(q, Sum(points[..n]), h * Sum(rs[..n]), points[n], h * rs[n]);
      assert h * (Sum(rs[..n]) + rs[n]) == h * Sum(rs[..n]) + h * rs[n];
    }
  }
}
