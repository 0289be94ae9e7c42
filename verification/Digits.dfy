/** Machine words and positional notation, least significant digit first. */
module Digits {
  import opened ModArith
  import opened PrimeField

  type u8 = x: int | 0 <= x < 0x100
  type u32 = x: int | 0 <= x < 0x1_0000_0000
  type u64 = x: int | 0 <= x < 0x1_0000_0000_0000_0000
  type i64 = x: int | -0x8000_0000_0000_0000 <= x < 0x8000_0000_0000_0000

  function Digit(s: seq<int>, i: nat): int {
    if i < |s| then s[i] else 0
  }

  /** The value of the k low digits of s in base b, reading absent digits as zero. */
  function Val(b: int, s: seq<int>, k: nat): int {
    if k == 0 then 0 else Val(b, s, k - 1) + Digit(s, k - 1) * Pow(b, k - 1)
  }

  function Value(b: int, s: seq<int>): int {
    Val(b, s, |s|)
  }

  /** The least significant digit comes first. */
  lemma ValueIs(b: int, x: int, y: int, z: int)
    ensures Value(b, [x, y, z]) == x + y * b + z * (b * b)
  {
    var s := [x, y, z];
    assert Pow(b, 0) == 1 && Pow(b, 1) == b && Pow(b, 2) == b * b;
    assert Val(b, s, 1) == x;
    assert Val(b, s, 2) == x + y * b;
  }

  ghost predicate InBase(b: int, s: seq<int>) {
    forall i :: 0 <= i < |s| ==> 0 <= s[i] < b
  }

  lemma {:induction false} SameDigits(b: int, s: seq<int>, t: seq<int>, k: nat)
    requires forall i :: 0 <= i < k ==> Digit(s, i) == Digit(t, i)
    ensures Val(b, s, k) == Val(b, t, k)
  {
    if k > 0 { SameDigits(b, s, t, k - 1); }
  }

  lemma Append(b: int, s: seq<int>, x: int)
    ensures Value(b, s + [x]) == Value(b, s) + x * Pow(b, |s|)
  {
    SameDigits(b, s, s + [x], |s|);
  }

  lemma {:induction false} Padding(b: int, s: seq<int>, k: nat)
    requires |s| <= k
    ensures Val(b, s, k) == Value(b, s)
  {
    if k > |s| {
      Padding(b, s, k - 1);
    }
  }

  lemma {:induction false} Bound(b: int, s: seq<int>, k: nat)
    requires b > 0 && InBase(b, s)
    ensures 0 <= Val(b, s, k) < Pow(b, k)
  {
    if k > 0 {
      Bound(b, s, k - 1);
      PowPos(b, k - 1);
      BoundStep(b, Val(b, s, k - 1), Digit(s, k - 1), Pow(b, k - 1));
    }
  }

  lemma BoundStep(b: int, v: int, d: int, p: int)
    requires 0 <= d < b && 0 <= v < p
    ensures 0 <= v + d * p < b * p
  {
    MulMono(p, 0, d);
    MulMono(p, d + 1, b);
    assert (d + 1) * p == d * p + p;
  }

  lemma {:induction false} Monotone(b: int, s: seq<int>, j: nat, k: nat)
    requires b > 0 && InBase(b, s) && j <= k
    ensures Val(b, s, j) <= Val(b, s, k)
    decreases k
  {
    if j < k {
      Monotone(b, s, j, k - 1);
      PowPos(b, k - 1);
      MulMono(Pow(b, k - 1), 0, Digit(s, k - 1));
    }
  }

  /** Storing x at position j changes the value by the difference times b^j. */
  lemma {:induction false} Update(b: int, s: seq<int>, j: nat, x: int, k: nat)
    requires j < |s|
    ensures Val(b, s[j := x], k) == Val(b, s, k) + if j < k then (x - s[j]) * Pow(b, j) else 0
  {
    if k > 0 {
      Update(b, s, j, x, k - 1);
    }
  }

  lemma {:induction false} Zeros(b: int, s: seq<int>, k: nat)
    requires forall i :: 0 <= i < k ==> Digit(s, i) == 0
    ensures Val(b, s, k) == 0
  {
    if k > 0 { Zeros(b, s, k - 1); }
  }

  /** Prefixing n zero digits multiplies by b^n. */
  lemma {:induction false} ShiftUp(b: int, s: seq<int>, n: nat, k: nat)
    ensures Val(b, seq(n, _ => 0) + s, n + k) == Pow(b, n) * Val(b, s, k)
  {
    var t := seq(n, _ => 0) + s;
    if k == 0 {
      Zeros(b, t, n);
      assert Pow(b, n) * 0 == 0;
    } else {
      ShiftUp(b, s, n, k - 1);
      PowAdd(b, n, k - 1);
      assert Digit(t, n + k - 1) == Digit(s, k - 1);
      ShiftDigit(Pow(b, n), Val(b, s, k - 1), Digit(s, k - 1), Pow(b, k - 1));
    }
  }

  lemma ShiftDigit(p: int, v: int, d: int, r: int)
    ensures p * (v + d * r) == p * v + d * (p * r)
  {
    assert p * (v + d * r) == p * v + p * (d * r);
    assert p * (d * r) == d * (p * r);
  }

  /** The low n + k digits are the low n digits and, b^n times, the next k. */
  lemma {:induction false} Split(b: int, s: seq<int>, n: nat, k: nat)
    requires n <= |s|
    ensures Val(b, s, n + k) == Val(b, s, n) + Pow(b, n) * Val(b, s[n..], k)
  {
    if k == 0 {
      assert Pow(b, n) * 0 == 0;
    } else {
      Split(b, s, n, k - 1);
      PowAdd(b, n, k - 1);
      assert Digit(s, n + k - 1) == Digit(s[n..], k - 1);
      ShiftDigit(Pow(b, n), Val(b, s[n..], k - 1), Digit(s[n..], k - 1), Pow(b, k - 1));
    }
  }

  /** A nonzero digit at position j makes the value at least b^j. */
  lemma LowerBound(b: int, s: seq<int>, j: nat)
    requires b > 0 && InBase(b, s) && j < |s| && s[j] > 0
    ensures Pow(b, j) <= Value(b, s)
  {
    Monotone(b, s, j + 1, |s|);
    Bound(b, s, j);
    PowPos(b, j);
    MulMono(Pow(b, j), 1, s[j]);
  }

  lemma TopDigit(b: int, s: seq<int>, t: seq<int>, i: nat)
    requires b > 0 && InBase(b, s) && InBase(b, t) && Digit(s, i) < Digit(t, i)
    ensures Val(b, s, i) + Digit(s, i) * Pow(b, i) < Val(b, t, i) + Digit(t, i) * Pow(b, i)
  {
    Bound(b, s, i);
    Bound(b, t, i);
    PowPos(b, i);
    MulMono(Pow(b, i), Digit(s, i) + 1, Digit(t, i));
    assert (Digit(s, i) + 1) * Pow(b, i) == Digit(s, i) * Pow(b, i) + Pow(b, i);
  }

  /** Equal above position i and smaller at i means smaller. */
  lemma {:induction false} Lexicographic(b: int, s: seq<int>, t: seq<int>, i: nat, k: nat)
    requires b > 0 && InBase(b, s) && InBase(b, t)
    requires i < k && Digit(s, i) < Digit(t, i) && forall j :: i < j < k ==> Digit(s, j) == Digit(t, j)
    ensures Val(b, s, k) < Val(b, t, k)
    decreases k
  {
    if i == k - 1 {
      TopDigit(b, s, t, i);
    } else {
      Lexicographic(b, s, t, i, k - 1);
    }
  }

  /** Digits are determined by the value. */
  lemma {:induction false} Unambiguous(b: int, s: seq<int>, t: seq<int>)
    requires b > 0 && InBase(b, s) && InBase(b, t) && |s| == |t| && Value(b, s) == Value(b, t)
    ensures s == t
  {
    if s != t {
      var i := |s| - 1;
      while s[i] == t[i]
        invariant 0 <= i < |s| && forall j :: i < j < |s| ==> s[j] == t[j]
        decreases i
      {
        if i == 0 { assert forall j :: 0 <= j < |s| ==> s[j] == t[j]; }
        i := i - 1;
      }
      if s[i] < t[i] { Lexicographic(b, s, t, i, |s|); } else { Lexicographic(b, t, s, i, |s|); }
    }
  }
}
