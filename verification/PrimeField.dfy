/**
 The field of residues modulo a prime: inverses, cancellation, and Fermat's little theorem, which
 is what makes `den.pow_mod(Q - 2)` an inverse.
 */
module PrimeField {
  import opened ModArith

  /** The order of the Ed25519 and ristretto255 group (RFC 8032, section 5.1). */
  const Q: int := 7237005577332262213973186563042994240857116359379907606001950938285454250989

  ghost predicate Divides(d: int, n: int)
    requires d > 0
  {
    n % d == 0
  }

  ghost predicate IsPrime(q: int) {
    2 <= q && forall d :: 2 <= d < q ==> !Divides(d, q)
  }

  /** Euclid's step: with q = a*k + s, the inverse of s gives that of a. */
  lemma InverseStep(q: int, a: int, k: int, s: int, i: int)
    requires q > 1 && q == a * k + s && (s * i) % q == 1
    ensures Neg(q, k * i) != 0 && (a * Neg(q, k * i)) % q == 1
  {
    var r := Neg(q, k * i);
    Idem(q, -(k * i));
    CongMul(q, a, a, r, -(k * i));
    Shift(q, a * -(k * i), s * i, -i);
    Small(q, 0);
    assert r == 0 ==> a * r == 0;
  }

  lemma PrimeRemainder(q: int, a: int)
    requires IsPrime(q) && 2 <= a < q
    ensures 1 <= q % a < a && q == a * (q / a) + q % a
  {
    assert !Divides(a, q);
  }

  /** The inverse of a nonzero residue, by the remainder of the prime. */
  function Inverse(q: int, a: int): int
    requires IsPrime(q) && 1 <= a < q
    decreases a
  {
    if a == 1 then 1
    else
      PrimeRemainder(q, a);
      Neg(q, (q / a) * Inverse(q, q % a))
  }

  lemma {:induction false} InverseInverts(q: int, a: int)
    requires IsPrime(q) && 1 <= a < q
    ensures 1 <= Inverse(q, a) < q && (a * Inverse(q, a)) % q == 1
    decreases a
  {
    if a == 1 {
      Small(q, 1);
    } else {
      PrimeRemainder(q, a);
      InverseInverts(q, q % a);
      InverseStep(q, a, q / a, q % a, Inverse(q, q % a));
    }
  }

  /** Field inversion as curve25519 scalars do it: zero is sent to zero. */
  function Invert(q: int, a: int): (r: int)
    requires IsPrime(q)
    ensures 0 <= r < q
    ensures a % q == 0 ==> r == 0
    ensures a % q != 0 ==> (a * r) % q == 1
  {
    if a % q == 0 then 0
    else
      var r := Inverse(q, a % q);
      InverseInverts(q, a % q);
      Idem(q, a);
      CongMul(q, a % q, a, r, r);
      r
  }

  /** A prime field has no zero divisors, so nonzero factors cancel. */
  lemma Cancel(q: int, c: int, a: int, b: int)
    requires IsPrime(q) && c % q != 0 && (c * a) % q == (c * b) % q
    ensures a % q == b % q
  {
    var i := Invert(q, c);
    CongMul(q, i, i, c * a, c * b);
    UndoMul(q, i, c, a);
    UndoMul(q, i, c, b);
  }

  lemma UndoMul(q: int, i: int, c: int, a: int)
    requires q > 1 && (c * i) % q == 1
    ensures (i * (c * a)) % q == a % q
  {
    Small(q, 1);
    CongMul(q, c * i, 1, a, a);
    assert i * (c * a) == (c * i) * a;
  }

  lemma ProductNonzero(q: int, a: int, b: int)
    requires IsPrime(q) && a % q != 0 && b % q != 0
    ensures (a * b) % q != 0
  {
    Small(q, 0);
    if (a * b) % q == 0 {
      assert a * 0 == 0;
      Cancel(q, a, b, 0);
    }
  }

  // ---- powers and Fermat ------------------------------------------------------------------

  function Pow(b: int, e: nat): int {
    if e == 0 then 1 else b * Pow(b, e - 1)
  }

  lemma {:induction false} PowAdd(b: int, d: nat, e: nat)
    ensures Pow(b, d + e) == Pow(b, d) * Pow(b, e)
  {
    if d > 0 {
      PowAdd(b, d - 1, e);
      assert b * (Pow(b, d - 1) * Pow(b, e)) == (b * Pow(b, d - 1)) * Pow(b, e);
    }
  }

  lemma {:induction false} PowPos(b: int, e: nat)
    requires b > 0
    ensures Pow(b, e) > 0
  {
    if e > 0 {
      PowPos(b, e - 1);
      MulMono(b, 1, Pow(b, e - 1));
    }
  }

  lemma {:induction false} PowMono(b: int, d: nat, e: nat)
    requires b > 0 && d <= e
    ensures Pow(b, d) <= Pow(b, e)
  {
    PowPos(b, d);
    PowPos(b, e - d);
    PowAdd(b, d, e - d);
    MulMono(Pow(b, d), 1, Pow(b, e - d));
  }

  lemma {:induction false} PowCong(q: int, a: int, b: int, e: nat)
    requires q > 0 && a % q == b % q
    ensures Pow(a, e) % q == Pow(b, e) % q
  {
    if e > 0 {
      PowCong(q, a, b, e - 1);
      CongMul(q, a, b, Pow(a, e - 1), Pow(b, e - 1));
    }
  }

  lemma {:induction false} PowMul(b: int, d: nat, e: nat)
    ensures d * e >= 0 && Pow(b, d * e) == Pow(Pow(b, d), e)
  {
    MulMono(d, 0, e);
    if e > 0 {
      MulMono(d, 0, e - 1);
      PowMul(b, d, e - 1);
      assert d * e == d + d * (e - 1);
      PowAdd(b, d, d * (e - 1));
    } else {
      assert d * e == 0;
    }
  }

  function Choose(n: nat, k: nat): nat {
    if k == 0 then 1 else if n == 0 then 0 else Choose(n - 1, k - 1) + Choose(n - 1, k)
  }

  lemma {:induction false} ChooseAbove(n: nat, k: nat)
    requires k > n
    ensures Choose(n, k) == 0
  {
    if n > 0 {
      ChooseAbove(n - 1, k - 1);
      ChooseAbove(n - 1, k);
    }
  }

  lemma {:induction false} ChooseDiagonal(n: nat)
    ensures Choose(n, n) == 1
  {
    if n > 0 {
      ChooseDiagonal(n - 1);
      ChooseAbove(n - 1, n);
    }
  }

  lemma {:induction false} Absorb(n: nat, k: nat)
    requires n > 0 && k > 0
    ensures k * Choose(n, k) == n * Choose(n - 1, k - 1)
  {
    var c, d := Choose(n - 1, k - 1), Choose(n - 1, k);
    if n == 1 {
      if k > 1 {
        ChooseAbove(0, k - 1);
      }
      ChooseAbove(0, k);
    } else if k == 1 {
      Absorb(n - 1, 1);
    } else {
      Absorb(n - 1, k);
      Absorb(n - 1, k - 1);
      AbsorbStep(n, k, c, d, Choose(n - 2, k - 2), Choose(n - 2, k - 1));
    }
  }

  lemma AbsorbStep(n: nat, k: nat, c: nat, d: nat, u: nat, v: nat)
    requires k * d == (n - 1) * v && (k - 1) * c == (n - 1) * u && c == u + v
    ensures k * (c + d) == n * c
  {
    assert k * (c + d) == (k - 1) * c + c + k * d;
    assert (n - 1) * (u + v) == (n - 1) * u + (n - 1) * v;
    assert n * c == (n - 1) * c + c;
  }

  /** p divides every binomial coefficient strictly inside row p. */
  lemma PrimeDividesRow(p: int, k: nat)
    requires IsPrime(p) && 0 < k < p
    ensures Choose(p, k) % p == 0
  {
    Absorb(p, k);
    var c := Choose(p - 1, k - 1);
    Shift(p, p * c, 0, c);
    Small(p, 0);
    Small(p, k);
    assert k * 0 == 0;
    Cancel(p, k, Choose(p, k), 0);
  }

  function BinomialSum(a: int, n: nat, k: nat): int {
    Choose(n, k) * Pow(a, k) + if k == 0 then 0 else BinomialSum(a, n, k - 1)
  }

  lemma {:induction false} BinomialStep(a: int, n: nat, k: nat)
    ensures BinomialSum(a, n + 1, k)
         == BinomialSum(a, n, k) + if k == 0 then 0 else a * BinomialSum(a, n, k - 1)
  {
    if k > 0 {
      BinomialStep(a, n, k - 1);
      var rest := if k == 1 then 0 else BinomialSum(a, n, k - 2);
      BinomialTerm(a, Choose(n, k - 1), Choose(n, k), Pow(a, k - 1), rest);
    }
  }

  lemma BinomialTerm(a: int, c: int, d: int, t: int, rest: int)
    ensures (c + d) * (a * t) + a * rest == d * (a * t) + a * (c * t + rest)
  {
    assert (c + d) * (a * t) == c * (a * t) + d * (a * t);
    assert c * (a * t) == a * (c * t);
    assert a * (c * t + rest) == a * (c * t) + a * rest;
  }

  lemma {:induction false} BinomialTheorem(a: int, n: nat)
    ensures Pow(a + 1, n) == BinomialSum(a, n, n)
  {
    if n > 0 {
      var s := BinomialSum(a, n - 1, n - 1);
      BinomialTheorem(a, n - 1);
      BinomialStep(a, n - 1, n);
      ChooseAbove(n - 1, n);
      assert 0 * Pow(a, n) == 0;
      assert (a + 1) * s == s + a * s;
    }
  }

  lemma {:induction false} RowVanishes(p: int, a: int, k: nat)
    requires IsPrime(p) && k < p
    ensures BinomialSum(a, p, k) % p == 1 % p
  {
    if k > 0 {
      RowVanishes(p, a, k - 1);
      PrimeDividesRow(p, k);
      Small(p, 0);
      CongMul(p, Choose(p, k), 0, Pow(a, k), Pow(a, k));
      CongAdd(p, Choose(p, k) * Pow(a, k), 0, BinomialSum(a, p, k - 1), 1);
    }
  }

  /** Fermat's little theorem, by induction on a. */
  lemma {:induction false} FermatNat(p: int, a: nat)
    requires IsPrime(p)
    ensures Pow(a, p) % p == a % p
  {
    if a == 0 {
      assert 0 * Pow(0, p - 1) == 0;
    } else {
      FermatNat(p, a - 1);
      BinomialTheorem(a - 1, p);
      RowVanishes(p, a - 1, p - 1);
      ChooseDiagonal(p);
      CongAdd(p, Pow(a - 1, p), a - 1, BinomialSum(a - 1, p, p - 1), 1);
    }
  }

  /** a^(p-2) is the inverse of every a that p does not divide. */
  lemma FermatInverse(p: int, a: int)
    requires IsPrime(p) && a % p != 0
    ensures (a * Pow(a, p - 2)) % p == 1
  {
    var r := a % p;
    Idem(p, a);
    FermatNat(p, r);
    assert Pow(r, p) == r * Pow(r, p - 1) && Pow(r, p - 1) == r * Pow(r, p - 2);
    assert r * 1 == r;
    Cancel(p, r, Pow(r, p - 1), 1);
    PowCong(p, a, r, p - 1);
    assert Pow(a, p - 1) == a * Pow(a, p - 2);
    Small(p, 1);
  }

  lemma PowersOfTwo()
    ensures Pow(2, 4) == 0x10 && Pow(2, 8) == 0x100 && Pow(2, 16) == 0x1_0000 && Pow(2, 32) == 0x1_0000_0000
    ensures Pow(2, 64) == 0x1_0000_0000_0000_0000
  {
    assert Pow(2, 4) == 0x10 by { assert Pow(2, 2) == 4; PowAdd(2, 2, 2); }
    PowAdd(2, 4, 4);
    PowAdd(2, 8, 8);
    PowAdd(2, 16, 16);
    PowAdd(2, 32, 32);
  }

  /** The order L of section 5.1 of RFC 8032. */
  lemma QIsL()
    ensures Q == Pow(2, 252) + 27742317777372353535851937790883648493
  {
    PowersOfTwo();
    assert Pow(2, 12) == 0x1000 by { PowAdd(2, 8, 4); }
    assert Pow(2, 28) == 0x1000_0000 by { PowAdd(2, 16, 12); }
    assert Pow(2, 60) == 0x1000_0000_0000_0000 by { PowAdd(2, 32, 28); }
    assert Pow(2, 124) == 0x1000_0000_0000_0000_0000_0000_0000_0000 by { PowAdd(2, 64, 60); }
    assert Pow(2, 128) == 0x1_0000_0000_0000_0000_0000_0000_0000_0000 by { PowAdd(2, 64, 64); }
    PowAdd(2, 128, 124);
  }
}
