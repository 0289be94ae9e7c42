/**
 Lagrange coefficients at zero and reconstruction of a Shamir-shared secret.
 */
module Lagrange {
  import opened ModArith
  import opened PrimeField

  /** The product of -x_j over j < k other than i, as the loops accumulate it. */
  function Numerator(xs: seq<int>, i: nat, k: nat): int
    requires k <= |xs|
  {
    if k == 0 then 1
    else Numerator(xs, i, k - 1) * if k - 1 == i then 1 else -xs[k - 1]
  }

  /** The product of x_i - x_j over j < k other than i. */
  function Denominator(xs: seq<int>, i: nat, k: nat): int
    requires k <= |xs| && i < |xs|
  {
    if k == 0 then 1
    else Denominator(xs, i, k - 1) * if k - 1 == i then 1 else xs[i] - xs[k - 1]
  }

  /** Shamir abscissae: the slot plus one. */
  function Abscissae(slots: seq<nat>): (xs: seq<int>)
    ensures |xs| == |slots|
  {
    seq(|slots|, i requires 0 <= i < |slots| => slots[i] + 1)
  }

  ghost predicate Distinct(q: int, xs: seq<int>)
    requires q > 0
  {
    forall i, j :: 0 <= i < j < |xs| ==> xs[i] % q != xs[j] % q
  }

  /** lambda_i: numerator times the inverse of the denominator. */
  function Coefficient(q: int, xs: seq<int>, i: nat): (r: int)
    requires IsPrime(q) && i < |xs|
    ensures 0 <= r < q
  {
    Mul(q, Numerator(xs, i, |xs|), Invert(q, Denominator(xs, i, |xs|)))
  }

  function Coefficients(q: int, xs: seq<int>): (r: seq<int>)
    requires IsPrime(q)
    ensures |r| == |xs|
  {
    seq(|xs|, i requires 0 <= i < |xs| => Coefficient(q, xs, i))
  }

  lemma {:induction false} DenominatorNonzero(q: int, xs: seq<int>, i: nat, k: nat)
    requires IsPrime(q) && Distinct(q, xs) && k <= |xs| && i < |xs|
    ensures Denominator(xs, i, k) % q != 0
  {
    Small(q, 1);
    if k > 0 {
      DenominatorNonzero(q, xs, i, k - 1);
      if k - 1 != i {
        ZeroDiff(q, xs[i], xs[k - 1]);
        ProductNonzero(q, Denominator(xs, i, k - 1), xs[i] - xs[k - 1]);
      }
    }
  }

  lemma {:induction false} NumeratorNonzero(q: int, xs: seq<int>, i: nat, k: nat)
    requires IsPrime(q) && k <= |xs| && forall j :: 0 <= j < |xs| ==> xs[j] % q != 0
    ensures Numerator(xs, i, k) % q != 0
  {
    Small(q, 1);
    if k > 0 {
      NumeratorNonzero(q, xs, i, k - 1);
      if k - 1 != i {
        ZeroDiff(q, 0, xs[k - 1]);
        Small(q, 0);
        ProductNonzero(q, Numerator(xs, i, k - 1), -xs[k - 1]);
      }
    }
  }

  /** With distinct nodes a residue is lambda_i exactly when denominator times it is the numerator. */
  lemma CoefficientUnique(q: int, xs: seq<int>, i: nat, l: int)
    requires IsPrime(q) && Distinct(q, xs) && i < |xs| && 0 <= l < q
    ensures l == Coefficient(q, xs, i)
       <==> (Denominator(xs, i, |xs|) * l) % q == Numerator(xs, i, |xs|) % q
  {
    var n, d := Numerator(xs, i, |xs|), Denominator(xs, i, |xs|);
    var c := Coefficient(q, xs, i);
    DenominatorNonzero(q, xs, i, |xs|);
    Idem(q, n * Invert(q, d));
    CongMul(q, d, d, c, n * Invert(q, d));
    UndoMul(q, Invert(q, d), d, n);
    assert d * (n * Invert(q, d)) == Invert(q, d) * (d * n);
    if (d * l) % q == n % q {
      Cancel(q, d, l, c);
      Small(q, l);
      Small(q, c);
    }
  }

  /** No coefficient of nonzero distinct nodes vanishes: the workers' zero checks never fire. */
  lemma CoefficientNonzero(q: int, xs: seq<int>, i: nat)
    requires IsPrime(q) && Distinct(q, xs) && i < |xs|
    requires forall j :: 0 <= j < |xs| ==> xs[j] % q != 0
    ensures Coefficient(q, xs, i) != 0
  {
    CoefficientUnique(q, xs, i, Coefficient(q, xs, i));
    NumeratorNonzero(q, xs, i, |xs|);
    Small(q, 0);
    assert Denominator(xs, i, |xs|) * 0 == 0;
  }

  // ---- leaving one node out ----------------------------------------------------------------

  lemma {:induction false} ProductsPrefix(xs: seq<int>, n: nat, i: nat, k: nat)
    requires k <= n <= |xs| && i < n
    ensures Numerator(xs, i, k) == Numerator(xs[..n], i, k)
    ensures Denominator(xs, i, k) == Denominator(xs[..n], i, k)
  {
    if k > 0 { ProductsPrefix(xs, n, i, k - 1); }
  }

  lemma {:induction false} NumeratorSuffix(xs: seq<int>, i: nat, k: nat)
    requires 1 <= k <= |xs| && 1 <= i
    ensures Numerator(xs, i, k) == Numerator(xs[1..], i - 1, k - 1) * -xs[0]
  {
    if k == 1 {
      assert Numerator(xs, i, 0) == 1;
    } else {
      NumeratorSuffix(xs, i, k - 1);
      Swap(Numerator(xs[1..], i - 1, k - 2), -xs[0], if k - 1 == i then 1 else -xs[k - 1]);
    }
  }

  lemma {:induction false} DenominatorSuffix(xs: seq<int>, i: nat, k: nat)
    requires 1 <= k <= |xs| && 1 <= i < |xs|
    ensures Denominator(xs, i, k) == Denominator(xs[1..], i - 1, k - 1) * (xs[i] - xs[0])
  {
    if k == 1 {
      assert Denominator(xs, i, 0) == 1;
    } else {
      DenominatorSuffix(xs, i, k - 1);
      Swap(Denominator(xs[1..], i - 1, k - 2), xs[i] - xs[0], if k - 1 == i then 1 else xs[i] - xs[k - 1]);
    }
  }

  lemma Swap(a: int, b: int, c: int)
    ensures (a * b) * c == (a * c) * b
  {
  }

  /** If D*d*l = N*m and D*l' = N then d*l = m*l', for D invertible. */
  lemma Shrink(q: int, D: int, d: int, l: int, N: int, m: int, l': int)
    requires IsPrime(q) && D % q != 0
    requires ((D * d) * l) % q == (N * m) % q && (D * l') % q == N % q
    ensures (l * d) % q == (m * l') % q
  {
    CongMul(q, D * l', N, m, m);
    assert (D * l') * m == D * (m * l') && (D * d) * l == D * (l * d);
    Cancel(q, D, l * d, m * l');
  }

  /** Removing the last node c scales every other coefficient: lambda_i*(x_i - c) = -c*lambda'_i. */
  lemma DropLast(q: int, xs: seq<int>, i: nat)
    requires IsPrime(q) && Distinct(q, xs) && i < |xs| - 1
    ensures (Coefficient(q, xs, i) * (xs[i] - xs[|xs| - 1])) % q
         == (-xs[|xs| - 1] * Coefficient(q, xs[..|xs| - 1], i)) % q
  {
    var n := |xs| - 1;
    var ys := xs[..n];
    ProductsPrefix(xs, n, i, n);
    CoefficientUnique(q, xs, i, Coefficient(q, xs, i));
    CoefficientUnique(q, ys, i, Coefficient(q, ys, i));
    DenominatorNonzero(q, ys, i, n);
    Shrink(q, Denominator(ys, i, n), xs[i] - xs[n], Coefficient(q, xs, i),
           Numerator(ys, i, n), -xs[n], Coefficient(q, ys, i));
  }

  lemma DropFirst(q: int, xs: seq<int>, i: nat)
    requires IsPrime(q) && Distinct(q, xs) && 1 <= i < |xs|
    ensures (Coefficient(q, xs, i) * (xs[i] - xs[0])) % q
         == (-xs[0] * Coefficient(q, xs[1..], i - 1)) % q
  {
    var n := |xs|;
    var ys := xs[1..];
    NumeratorSuffix(xs, i, n);
    DenominatorSuffix(xs, i, n);
    CoefficientUnique(q, xs, i, Coefficient(q, xs, i));
    CoefficientUnique(q, ys, i - 1, Coefficient(q, ys, i - 1));
    DenominatorNonzero(q, ys, i - 1, n - 1);
    Shrink(q, Denominator(ys, i - 1, n - 1), xs[i] - xs[0], Coefficient(q, xs, i),
           Numerator(ys, i - 1, n - 1), -xs[0], Coefficient(q, ys, i - 1));
  }

  // ---- the coefficients sum to one -------------------------------------------------------

  /** l_i * (x_i - c) * v_i, term by term. */
  function ShiftedTerms(ls: seq<int>, xs: seq<int>, c: int, v: seq<int>): (r: seq<int>)
    requires |ls| == |v| == |xs|
    ensures |r| == |xs|
  {
    seq(|xs|, i requires 0 <= i < |xs| => (ls[i] * (xs[i] - c)) * v[i])
  }

  function Ones(n: nat): (r: seq<int>)
    ensures |r| == n && forall i :: 0 <= i < n ==> r[i] == 1
  {
    seq(n, _ => 1)
  }

  function Products(a: seq<int>, b: seq<int>): (r: seq<int>)
    requires |a| == |b|
    ensures |r| == |a|
  {
    seq(|a|, i requires 0 <= i < |a| => a[i] * b[i])
  }

  function Scaled(c: int, a: seq<int>): (r: seq<int>)
    ensures |r| == |a|
  {
    seq(|a|, i requires 0 <= i < |a| => c * a[i])
  }

  lemma DropLastTerm(q: int, xs: seq<int>, i: nat, v: int)
    requires IsPrime(q) && Distinct(q, xs) && i < |xs| - 1
    ensures ((Coefficient(q, xs, i) * (xs[i] - xs[|xs| - 1])) * v) % q
         == (-xs[|xs| - 1] * (Coefficient(q, xs[..|xs| - 1], i) * v)) % q
  {
    var n := |xs| - 1;
    DropLast(q, xs, i);
    CongMul(q, Coefficient(q, xs, i) * (xs[i] - xs[n]), -xs[n] * Coefficient(q, xs[..n], i), v, v);
    Assoc(-xs[n], Coefficient(q, xs[..n], i), v);
  }

  lemma Assoc(a: int, b: int, c: int)
    ensures (a * b) * c == a * (b * c)
  {
  }

  lemma DropLastSum(q: int, xs: seq<int>, v: seq<int>)
    requires IsPrime(q) && Distinct(q, xs) && |v| == |xs| > 0
    ensures Sum(ShiftedTerms(Coefficients(q, xs), xs, xs[|xs| - 1], v)) % q
         == (-xs[|xs| - 1] * Dot(Coefficients(q, xs[..|xs| - 1]), v[..|xs| - 1])) % q
  {
    var n := |xs| - 1;
    var ls := Coefficients(q, xs[..n]);
    var terms := ShiftedTerms(Coefficients(q, xs), xs, xs[n], v);
    var scaled := Scaled(-xs[n], Products(ls, v[..n]));
    forall i | 0 <= i < n ensures terms[..n][i] % q == scaled[i] % q {
      DropLastTerm(q, xs, i, v[i]);
    }
    assert terms[n] == 0 by { Annihilate(Coefficient(q, xs, n), v[n]); }
    SumCong(q, terms[..n], scaled);
    SumScale(Products(ls, v[..n]), scaled, -xs[n]);
    DotIsSum(ls, v[..n], Products(ls, v[..n]));
  }

  lemma Annihilate(a: int, b: int)
    ensures (a * 0) * b == 0
  {
  }

  lemma {:induction false} SumHead(s: seq<int>)
    requires s != []
    ensures Sum(s) == s[0] + Sum(s[1..])
  {
    if |s| > 1 {
      var n := |s| - 1;
      SumHead(s[..n]);
      assert s[..n][1..] == s[1..][..n - 1];
    }
  }

  lemma DropFirstSum(q: int, xs: seq<int>)
    requires IsPrime(q) && Distinct(q, xs) && |xs| > 0
    ensures Sum(ShiftedTerms(Coefficients(q, xs), xs, xs[0], Ones(|xs|))) % q
         == (-xs[0] * Sum(Coefficients(q, xs[1..]))) % q
  {
    var n := |xs|;
    var terms := ShiftedTerms(Coefficients(q, xs), xs, xs[0], Ones(n));
    var small := Coefficients(q, xs[1..]);
    var scaled := Scaled(-xs[0], small);
    forall i | 0 <= i < n - 1 ensures terms[1..][i] % q == scaled[i] % q {
      DropFirst(q, xs, i + 1);
    }
    assert terms[0] == 0 by { Annihilate(Coefficient(q, xs, 0), 1); }
    SumHead(terms);
    SumCong(q, terms[1..], scaled);
    SumScale(small, scaled, -xs[0]);
  }

  lemma {:induction false} DotSplit(ls: seq<int>, fs: seq<int>, terms: seq<int>, f: int)
    requires |ls| == |fs| == |terms|
    requires forall i :: 0 <= i < |ls| ==> ls[i] * fs[i] == terms[i] + f * ls[i]
    ensures Dot(ls, fs) == Sum(terms) + f * Sum(ls)
  {
    if ls == [] {
      assert f * 0 == 0;
    } else {
      var n := |ls| - 1;
      DotSplit(ls[..n], fs[..n], terms[..n], f);
      assert ls[n] * fs[n] == terms[n] + f * ls[n];
      assert f * (Sum(ls[..n]) + ls[n]) == f * Sum(ls[..n]) + f * ls[n];
    }
  }

  lemma DivisionAt(l: int, x: int, c: int, f: int, v: int)
    ensures l * (f + (x - c) * v) == (l * (x - c)) * v + f * l
  {
    Assoc(l, x - c, v);
    assert l * (f + (x - c) * v) == l * f + l * ((x - c) * v);
  }

  /** Values f + (x_i - c)*v_i weighted by l: the part divisible by x_i - c, plus f times the weights. */
  lemma ShiftedSplit(ls: seq<int>, xs: seq<int>, fs: seq<int>, c: int, f: int, v: seq<int>)
    requires |ls| == |xs| == |fs| == |v|
    requires forall i :: 0 <= i < |xs| ==> fs[i] == f + (xs[i] - c) * v[i]
    ensures Dot(ls, fs) == Sum(ShiftedTerms(ls, xs, c, v)) + f * Sum(ls)
  {
    var terms := ShiftedTerms(ls, xs, c, v);
    forall i | 0 <= i < |xs| ensures ls[i] * fs[i] == terms[i] + f * ls[i] {
      DivisionAt(ls[i], xs[i], c, f, v[i]);
    }
    DotSplit(ls, fs, terms, f);
  }

  lemma SingleCoefficient(q: int, xs: seq<int>)
    requires IsPrime(q) && |xs| == 1
    ensures Sum(Coefficients(q, xs)) % q == 1
  {
    Small(q, 1);
    assert Distinct(q, xs);
    assert Numerator(xs, 0, 0) == 1 && Denominator(xs, 0, 0) == 1;
    CoefficientUnique(q, xs, 0, 1);
    var ls := Coefficients(q, xs);
    assert Sum(ls[..0]) == 0;
  }

  /** If T = A + a*S = B + b*S with A = -a, B = -b, then S = 1 unless a = b. */
  lemma TwoNodes(q: int, a: int, b: int, S: int, A: int, B: int)
    requires IsPrime(q) && a % q != b % q && A + a * S == B + b * S
    requires A % q == (-a) % q && B % q == (-b) % q
    ensures S % q == 1
  {
    CongSub(q, B, -b, A, -a);
    assert (a - b) * S == a * S - b * S;
    assert (a - b) * 1 == a - b;
    ZeroDiff(q, a, b);
    Cancel(q, a - b, S, 1);
    Small(q, 1);
  }

  lemma SplitAtNode(ls: seq<int>, xs: seq<int>, c: int)
    requires |ls| == |xs|
    ensures Dot(ls, xs) == Sum(ShiftedTerms(ls, xs, c, Ones(|xs|))) + c * Sum(ls)
  {
    ShiftedSplit(ls, xs, xs, c, c, Ones(|xs|));
  }

  lemma DropFirstOnes(q: int, xs: seq<int>)
    requires IsPrime(q) && Distinct(q, xs) && |xs| > 0 && Sum(Coefficients(q, xs[1..])) % q == 1
    ensures Sum(ShiftedTerms(Coefficients(q, xs), xs, xs[0], Ones(|xs|))) % q == (-xs[0]) % q
  {
    Small(q, 1);
    DropFirstSum(q, xs);
    CongMul(q, -xs[0], -xs[0], Sum(Coefficients(q, xs[1..])), 1);
  }

  lemma DropLastOnes(q: int, xs: seq<int>)
    requires IsPrime(q) && Distinct(q, xs) && |xs| > 0 && Sum(Coefficients(q, xs[..|xs| - 1])) % q == 1
    ensures Sum(ShiftedTerms(Coefficients(q, xs), xs, xs[|xs| - 1], Ones(|xs|))) % q == (-xs[|xs| - 1]) % q
  {
    var n := |xs| - 1;
    Small(q, 1);
    DropLastSum(q, xs, Ones(|xs|));
    DotOnes(Coefficients(q, xs[..n]), Ones(|xs|)[..n]);
    CongMul(q, -xs[n], -xs[n], Sum(Coefficients(q, xs[..n])), 1);
  }

  lemma {:induction false} CoefficientsSumToOne(q: int, xs: seq<int>)
    requires IsPrime(q) && Distinct(q, xs) && |xs| > 0
    ensures Sum(Coefficients(q, xs)) % q == 1
    decreases |xs|
  {
    var n := |xs| - 1;
    if n == 0 {
      SingleCoefficient(q, xs);
    } else {
      CoefficientsSumToOne(q, xs[1..]);
      CoefficientsSumToOne(q, xs[..n]);
      DropFirstOnes(q, xs);
      DropLastOnes(q, xs);
      var ls := Coefficients(q, xs);
      SplitAtNode(ls, xs, xs[0]);
      SplitAtNode(ls, xs, xs[n]);
      TwoNodes(q, xs[0], xs[n], Sum(ls), Sum(ShiftedTerms(ls, xs, xs[0], Ones(|xs|))),
               Sum(ShiftedTerms(ls, xs, xs[n], Ones(|xs|))));
    }
  }

  lemma {:induction false} DotOnes(a: seq<int>, ones: seq<int>)
    requires |a| == |ones| && forall i :: 0 <= i < |ones| ==> ones[i] == 1
    ensures Dot(a, ones) == Sum(a)
  {
    DotIsSum(a, ones, a);
  }

  // ---- polynomials ------------------------------------------------------------------------

  /** p[0] + p[1]*x + p[2]*x^2 + ... */
  function Eval(p: seq<int>, x: int): int {
    if p == [] then 0 else p[0] + x * Eval(p[1..], x)
  }

  function Evals(p: seq<int>, xs: seq<int>): (r: seq<int>)
    ensures |r| == |xs|
  {
    seq(|xs|, i requires 0 <= i < |xs| => Eval(p, xs[i]))
  }

  /** The quotient of p(x) - p(c) by x - c. */
  function Quotient'(p: seq<int>, c: int): (r: seq<int>)
    requires p != []
    ensures |r| == |p| - 1
  {
    if |p| == 1 then [] else [Eval(p[1..], c)] + Quotient'(p[1..], c)
  }

  lemma {:induction false} SyntheticDivision(p: seq<int>, c: int, x: int)
    requires p != []
    ensures Eval(p, x) == Eval(p, c) + (x - c) * Eval(Quotient'(p, c), x)
  {
    if |p| == 1 {
      assert x * 0 == 0 && c * 0 == 0 && (x - c) * 0 == 0;
    } else {
      var t := p[1..];
      SyntheticDivision(t, c, x);
      var g := Eval(Quotient'(t, c), x);
      var r := Eval(t, c);
      assert Quotient'(p, c)[1..] == Quotient'(t, c);
      HornerStep(x, c, r, g);
    }
  }

  lemma HornerStep(x: int, c: int, r: int, g: int)
    ensures x * (r + (x - c) * g) == c * r + (x - c) * (r + x * g)
  {
    assert x * (r + (x - c) * g) == x * r + x * ((x - c) * g);
    assert x * ((x - c) * g) == (x - c) * (x * g);
    assert (x - c) * (r + x * g) == (x - c) * r + (x - c) * (x * g);
    assert (x - c) * r == x * r - c * r;
  }

  lemma {:induction false} DotZero(a: seq<int>, z: seq<int>)
    requires |a| == |z| && forall i :: 0 <= i < |z| ==> z[i] == 0
    ensures Dot(a, z) == 0
  {
    if a != [] { DotZero(a[..|a| - 1], z[..|z| - 1]); }
  }

  /** Dividing by x - c splits the weighted values of a polynomial. */
  lemma DivideValues(ls: seq<int>, xs: seq<int>, p: seq<int>, c: int)
    requires |ls| == |xs| && p != []
    ensures Dot(ls, Evals(p, xs))
         == Sum(ShiftedTerms(ls, xs, c, Evals(Quotient'(p, c), xs))) + Eval(p, c) * Sum(ls)
  {
    var fs, v := Evals(p, xs), Evals(Quotient'(p, c), xs);
    forall i | 0 <= i < |xs| ensures fs[i] == Eval(p, c) + (xs[i] - c) * v[i] {
      SyntheticDivision(p, c, xs[i]);
    }
    ShiftedSplit(ls, xs, fs, c, Eval(p, c), v);
  }

  /** T + f*S = f - c*g when T = -c*D, D = g and S = 1. */
  lemma CollectAtZero(q: int, T: int, f: int, S: int, c: int, D: int, g: int)
    requires q > 1 && T % q == (-c * D) % q && D % q == g % q && S % q == 1
    ensures (T + f * S) % q == (f + (0 - c) * g) % q
  {
    Small(q, 1);
    CongMul(q, -c, -c, D, g);
    CongMul(q, f, f, S, 1);
    CongAdd(q, T, -c * g, f * S, f * 1);
  }

  /**
   Reconstruction: n distinct nodes recover the value at zero of every polynomial of degree below n.
   */
  lemma {:induction false} Reconstruct(q: int, xs: seq<int>, p: seq<int>)
    requires IsPrime(q) && Distinct(q, xs) && |p| <= |xs|
    ensures Dot(Coefficients(q, xs), Evals(p, xs)) % q == Eval(p, 0) % q
    decreases |xs|
  {
    var ls := Coefficients(q, xs);
    if p == [] {
      DotZero(ls, Evals(p, xs));
    } else {
      var n := |xs| - 1;
      var c := xs[n];
      var g := Quotient'(p, c);
      var v := Evals(g, xs);
      DivideValues(ls, xs, p, c);
      DropLastSum(q, xs, v);
      assert v[..n] == Evals(g, xs[..n]);
      Reconstruct(q, xs[..n], g);
      CoefficientsSumToOne(q, xs);
      CollectAtZero(q, Sum(ShiftedTerms(ls, xs, c, v)), Eval(p, c), Sum(ls), c,
                    Dot(Coefficients(q, xs[..n]), v[..n]), Eval(g, 0));
      SyntheticDivision(p, c, 0);
    }
  }
}
