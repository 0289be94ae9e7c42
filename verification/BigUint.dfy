/** The adapter's own big integers: base-2^32 limbs with carries, borrows and shift-subtract reduction. */
module BigUints {
  import opened ModArith
  import opened PrimeField
  import opened Digits
  import opened Encoding

  const LIMB: int := 0x1_0000_0000

  datatype Ordering = Less | Equal | Greater

  lemma LimbIsPowerOfTwo()
    ensures Pow(2, 31) == 0x8000_0000 && Pow(2, 32) == LIMB
  {
    assert Pow(2, 4) == 16 by { assert Pow(2, 2) == 4; }
    PowAdd(2, 4, 4);
    PowAdd(2, 8, 8);
    PowAdd(2, 16, 15);
    assert Pow(2, 16) == 2 * Pow(2, 15);
  }

  /** Writing one carried limb: (out, carry) and then (out + [x % LIMB], x / LIMB) stand for the same value. */
  lemma CarryStep(out: seq<int>, carry: int, x: int, total: int)
    requires x >= 0 && Value(LIMB, out) + carry * Pow(LIMB, |out|) == total
    ensures Value(LIMB, out + [x % LIMB]) + (x / LIMB) * Pow(LIMB, |out| + 1)
         == total + (x - carry) * Pow(LIMB, |out|)
  {
    Append(LIMB, out, x % LIMB);
  }

  lemma AddStep(out: seq<int>, carry: int, x: seq<int>, y: seq<int>, sum: int)
    requires sum == Digit(x, |out|) + Digit(y, |out|) + carry >= 0
    requires Value(LIMB, out) + carry * Pow(LIMB, |out|) == Val(LIMB, x, |out|) + Val(LIMB, y, |out|)
    ensures Value(LIMB, out + [sum % LIMB]) + (sum / LIMB) * Pow(LIMB, |out| + 1)
         == Val(LIMB, x, |out| + 1) + Val(LIMB, y, |out| + 1)
  {
    var i := |out|;
    CarryStep(out, carry, sum, Val(LIMB, x, i) + Val(LIMB, y, i));
    AddDigits(Digit(x, i), Digit(y, i), Pow(LIMB, i));
  }

  lemma AddDigits(a: int, c: int, p: int)
    ensures (a + c) * p == a * p + c * p
  {
  }

  lemma MulStep(out: seq<int>, carry: int, x: seq<int>, m: int, prod: int)
    requires prod == Digit(x, |out|) * m + carry >= 0
    requires Value(LIMB, out) + carry * Pow(LIMB, |out|) == Val(LIMB, x, |out|) * m
    ensures Value(LIMB, out + [prod % LIMB]) + (prod / LIMB) * Pow(LIMB, |out| + 1) == Val(LIMB, x, |out| + 1) * m
  {
    CarryStep(out, carry, prod, Val(LIMB, x, |out|) * m);
    ScaledDigit(Val(LIMB, x, |out|), Digit(x, |out|), Pow(LIMB, |out|), m);
  }

  lemma FinalCarry(out: seq<int>, carry: int)
    ensures Value(LIMB, if carry > 0 then out + [carry] else out)
         == Value(LIMB, out) + (if carry > 0 then carry else 0) * Pow(LIMB, |out|)
  {
    Append(LIMB, out, carry);
    assert 0 * Pow(LIMB, |out|) == 0;
  }

  lemma TwoLimbs(lo: u32, hi: u32)
    ensures Value(LIMB, [lo, hi]) == lo + hi * LIMB
  {
    assert Pow(LIMB, 1) == LIMB * Pow(LIMB, 0);
    assert Val(LIMB, [lo, hi], 1) == Val(LIMB, [lo, hi], 0) + lo * Pow(LIMB, 0);
  }

  method Normalize(input: seq<u32>) returns (limbs: seq<u32>)
    ensures Normalized(limbs) && Value(LIMB, limbs) == Value(LIMB, input) && |limbs| <= |input| + 1
    ensures limbs == [0] || limbs <= input
  {
    limbs := input;
    while |limbs| > 1 && limbs[|limbs| - 1] == 0
      invariant Value(LIMB, limbs) == Value(LIMB, input)
      invariant limbs <= input
    {
      assert 0 * Pow(LIMB, |limbs| - 1) == 0;
      Append(LIMB, limbs[..|limbs| - 1], 0);
      assert limbs == limbs[..|limbs| - 1] + [0];
      limbs := limbs[..|limbs| - 1];
    }
    if |limbs| == 0 {
      Append(LIMB, [], 0);
      limbs := limbs + [0];
    }
  }

  ghost predicate Normalized(limbs: seq<u32>) {
    |limbs| > 0 && (|limbs| > 1 ==> limbs[|limbs| - 1] != 0)
  }

  /** The width of the least binary notation of x, which is 32 minus its leading zeros. */
  function BitWidth(x: int): (w: nat)
    requires x >= 0
    ensures x == 0 ==> w == 0
    ensures x > 0 ==> w > 0 && Pow(2, w - 1) <= x < Pow(2, w)
  {
    if x == 0 then 0 else 1 + BitWidth(x / 2)
  }

  datatype BigUint = BigUint(limbs: seq<u32>) {

    ghost predicate Valid() {
      Normalized(limbs)
    }

    function ToInt(): int {
      Value(LIMB, limbs)
    }

    static method FromU64(v: u64) returns (r: BigUint)
      ensures r.Valid() && r.ToInt() == v
    {
      var lo: u32 := v % LIMB;
      var hi: u32 := v / LIMB;
      TwoLimbs(lo, hi);
      var limbs := Normalize([lo, hi]);
      r := BigUint(limbs);
    }

    /** Little-endian bytes, gathered four to a limb; the last limb may take fewer. */
    static method FromBytesLe(bytes: seq<u8>) returns (r: BigUint)
      ensures r.Valid() && r.ToInt() == Value(BYTE, bytes)
    {
      var limbs: seq<u32> := [];
      var at := 0;
      while at < |bytes|
        invariant at == 4 * |limbs| && at < |bytes| + 4
        invariant Value(LIMB, limbs) == Val(BYTE, bytes, at)
      {
        var chunk: seq<u8> := if at + 4 <= |bytes| then bytes[at..at + 4] else bytes[at..];
        var limb: u32 := 0;
        for k := 0 to |chunk|
          invariant limb == Val(BYTE, chunk, k)
        {
          ByteFits(chunk, k);
          limb := limb + chunk[k] as int * Pow(BYTE, k);
        }
        Padding(BYTE, chunk, 4);
        GatherStep(bytes, limbs, at, chunk);
        limbs := limbs + [limb];
        at := at + 4;
      }
      Padding(BYTE, bytes, at);
      limbs := Normalize(limbs);
      r := BigUint(limbs);
    }

    /** Four bytes a limb, without the zero bytes at the top. */
    method ToBytesLe() returns (out: seq<u8>)
      requires Valid()
      ensures Value(BYTE, out) == ToInt()
      ensures |out| > 0 && (|out| > 1 ==> out[|out| - 1] != 0)
    {
      out := [];
      for i := 0 to |limbs|
        invariant |out| == 4 * i && Value(BYTE, out) == Val(LIMB, limbs, i)
      {
        var limb := limbs[i];
        ScatterStep(out, i, limb);
        out := out + LimbBytes(limb);
      }
      while |out| > 1 && out[|out| - 1] == 0
        invariant |out| > 0 && Value(BYTE, out) == ToInt()
      {
        Append(BYTE, out[..|out| - 1], 0);
        assert 0 * Pow(BYTE, |out| - 1) == 0;
        assert out == out[..|out| - 1] + [0];
        out := out[..|out| - 1];
      }
    }

    predicate IsZero()
    {
      forall i :: 0 <= i < |limbs| ==> limbs[i] == 0
    }

    static method Cmp(a: BigUint, b: BigUint) returns (o: Ordering)
      requires a.Valid() && b.Valid()
      ensures o == if a.ToInt() < b.ToInt() then Less else if a.ToInt() > b.ToInt() then Greater else Equal
    {
      if |a.limbs| != |b.limbs| {
        if |a.limbs| < |b.limbs| {
          LengthOrders(a.limbs, b.limbs);
          return Less;
        }
        LengthOrders(b.limbs, a.limbs);
        return Greater;
      }
      var i := |a.limbs|;
      while i > 0
        invariant 0 <= i <= |a.limbs|
        invariant forall j :: i <= j < |a.limbs| ==> a.limbs[j] == b.limbs[j]
      {
        i := i - 1;
        if a.limbs[i] != b.limbs[i] {
          if a.limbs[i] < b.limbs[i] {
            Lexicographic(LIMB, a.limbs, b.limbs, i, |a.limbs|);
            return Less;
          }
          Lexicographic(LIMB, b.limbs, a.limbs, i, |a.limbs|);
          return Greater;
        }
      }
      assert a.limbs == b.limbs;
      return Equal;
    }

    method Add(b: BigUint) returns (r: BigUint)
      ensures r.Valid() && r.ToInt() == ToInt() + b.ToInt()
    {
      var n := if |limbs| > |b.limbs| then |limbs| else |b.limbs|;
      var out: seq<u32> := [];
      var carry: u64 := 0;
      for i := 0 to n
        invariant |out| == i && carry <= 1
        invariant Value(LIMB, out) + carry * Pow(LIMB, i) == Val(LIMB, limbs, i) + Val(LIMB, b.limbs, i)
      {
        var a: u64 := if i < |limbs| then limbs[i] else 0;
        var c: u64 := if i < |b.limbs| then b.limbs[i] else 0;
        var sum: u64 := a + c + carry;
        AddStep(out, carry, limbs, b.limbs, sum);
        out := out + [sum % LIMB];
        carry := sum / LIMB;
      }
      Padding(LIMB, limbs, n);
      Padding(LIMB, b.limbs, n);
      FinalCarry(out, carry);
      if carry > 0 {
        out := out + [carry];
      }
      out := Normalize(out);
      r := BigUint(out);
    }

    /** Subtraction; the caller guarantees that the minuend is not the smaller one. */
    method SubBig(b: BigUint) returns (r: BigUint)
      requires b.Valid() && Valid() && b.ToInt() <= ToInt()
      ensures r.Valid() && r.ToInt() == ToInt() - b.ToInt()
    {
      var n := |limbs|;
      var out: seq<u32> := [];
      var borrow: i64 := 0;
      for i := 0 to n
        invariant |out| == i && 0 <= borrow <= 1
        invariant Value(LIMB, out) - borrow * Pow(LIMB, i) == Val(LIMB, limbs, i) - Val(LIMB, b.limbs, i)
      {
        var a: i64 := limbs[i];
        var c: i64 := if i < |b.limbs| then b.limbs[i] else 0;
        var diff: i64 := a - c - borrow;
        BorrowStep(out, borrow, limbs, b.limbs, diff);
        if diff < 0 {
          out := out + [diff + LIMB];
          borrow := 1;
        } else {
          out := out + [diff];
          borrow := 0;
        }
      }
      if |b.limbs| > n { LengthOrders(limbs, b.limbs); }
      Padding(LIMB, b.limbs, n);
      Bound(LIMB, out, n);
      PowPos(LIMB, n);
      out := Normalize(out);
      r := BigUint(out);
    }

    method MulSmall(m: u32) returns (r: BigUint)
      ensures r.Valid() && r.ToInt() == ToInt() * m
    {
      var out: seq<u32> := [];
      var carry: u64 := 0;
      for i := 0 to |limbs|
        invariant |out| == i && carry < LIMB
        invariant Value(LIMB, out) + carry * Pow(LIMB, i) == Val(LIMB, limbs, i) * m
      {
        var limb: u64 := limbs[i];
        ProductFits(limb, m, carry);
        var prod: u64 := limb * m + carry;
        MulStep(out, carry, limbs, m, prod);
        out := out + [prod % LIMB];
        carry := prod / LIMB;
      }
      FinalCarry(out, carry);
      if carry > 0 {
        out := out + [carry];
      }
      out := Normalize(out);
      r := BigUint(out);
    }

    method DivModSmall(d: u32) returns (quot: BigUint, rest: u32)
      requires d > 0
      ensures quot.Valid() && quot.ToInt() == ToInt() / d && rest == ToInt() % d
    {
      var n := |limbs|;
      var out: seq<u32> := seq(n, _ => 0);
      var rem: u64 := 0;
      Zeros(LIMB, out, n);
      var i := n;
      while i > 0
        invariant 0 <= i <= n && |out| == n && rem < d
        invariant forall j :: 0 <= j < i ==> out[j] == 0
        invariant ToInt() == Val(LIMB, limbs, i) + d * Val(LIMB, out, n) + rem * Pow(LIMB, i)
      {
        i := i - 1;
        var acc: u64 := rem * LIMB + limbs[i];
        QuotientFits(rem, d, limbs[i]);
        DivideStep(limbs, out, d, rem, i);
        out := out[i := acc / d];
        rem := acc % d;
      }
      Bound(LIMB, out, n);
      assert rem * Pow(LIMB, 0) == rem;
      Unique(d, Val(LIMB, out, n), rem);
      out := Normalize(out);
      quot, rest := BigUint(out), rem;
    }

    method ShlLimbs(n: nat) returns (r: BigUint)
      ensures r.Valid() && r.ToInt() == Pow(LIMB, n) * ToInt()
    {
      var out: seq<u32> := seq(n, _ => 0);
      ShiftUp(LIMB, limbs, n, |limbs|);
      out := out + limbs;
      out := Normalize(out);
      r := BigUint(out);
    }

    method BitLen() returns (bits: nat)
      ensures ToInt() == 0 ==> bits == 0
      ensures ToInt() > 0 ==> bits > 0 && Pow(2, bits - 1) <= ToInt() < Pow(2, bits)
      ensures ToInt() >= 0
    {
      bits := |limbs| * 32;
      var i := |limbs|;
      while i > 0
        invariant 0 <= i <= |limbs| && bits == i * 32
        invariant ToInt() == Val(LIMB, limbs, i)
      {
        var limb := limbs[i - 1];
        if limb == 0 {
          bits := bits - 32;
          assert 0 * Pow(LIMB, i - 1) == 0;
        } else {
          TopLimbWidth(limbs, i - 1);
          bits := bits - (32 - BitWidth(limb));
          return;
        }
        i := i - 1;
      }
    }

    /** Shift-subtract reduction. The loop's safety exit is never taken. */
    method Modulo(m: BigUint) returns (r: BigUint)
      requires Valid() && m.Valid() && m.ToInt() > 0
      ensures r.Valid() && r.ToInt() == ToInt() % m.ToInt()
    {
      r := this;
      Bound(LIMB, limbs, |limbs|);
      var c := Cmp(r, m);
      while c != Less
        invariant r.Valid() && r.ToInt() >= 0 && r.ToInt() % m.ToInt() == ToInt() % m.ToInt()
        invariant c == Less <==> r.ToInt() < m.ToInt()
        decreases r.ToInt()
      {
        var bitsR := r.BitLen();
        var bitsM := m.BitLen();
        ShiftIsNatural(r.ToInt(), m.ToInt(), bitsR, bitsM);
        var shift := if bitsR < bitsM then 0 else bitsR - bitsM;
        var shifted := m.ShiftBits(shift);
        var c2 := Cmp(r, shifted);
        if c2 != Less {
          PowPos(2, shift);
          SubtractMultiple(r.ToInt(), m.ToInt(), Pow(2, shift));
          r := r.SubBig(shifted);
        } else {
          Overshoot(r.ToInt(), m.ToInt(), bitsR, bitsM);
          var half, _ := shifted.DivModSmall(2);
          var c3 := Cmp(r, half);
          if c3 != Less {
            PowPos(2, shift - 1);
            SubtractMultiple(r.ToInt(), m.ToInt(), Pow(2, shift - 1));
            r := r.SubBig(half);
          } else {
            assert false;
            break;
          }
        }
        c := Cmp(r, m);
      }
      Small(m.ToInt(), r.ToInt());
    }

    /** m times 2^shift, multiplied up in chunks of at most 31 bits. */
    method ShiftBits(shift: nat) returns (shifted: BigUint)
      requires Valid()
      ensures shifted.Valid() && shifted.ToInt() == ToInt() * Pow(2, shift)
    {
      shifted := this;
      var remaining: nat := shift;
      assert ToInt() * 1 == ToInt();
      while remaining > 0
        invariant remaining <= shift
        invariant shifted.Valid() && shifted.ToInt() == ToInt() * Pow(2, shift - remaining)
      {
        var chunk := if remaining < 31 then remaining else 31;
        PowMono(2, chunk, 31);
        PowPos(2, chunk);
        LimbIsPowerOfTwo();
        PowAdd(2, shift - remaining, chunk);
        Assoc(ToInt(), Pow(2, shift - remaining), Pow(2, chunk));
        shifted := shifted.MulSmall(Pow(2, chunk));
        remaining := remaining - chunk;
      }
    }

    method SubMod(b: BigUint, m: BigUint) returns (r: BigUint)
      requires Valid() && b.Valid() && m.Valid() && m.ToInt() > 0
      ensures r.Valid() && r.ToInt() == (ToInt() - b.ToInt()) % m.ToInt()
    {
      var c := Cmp(this, b);
      if c != Less {
        var d := SubBig(b);
        var c2 := Cmp(d, m);
        if c2 != Less {
          r := d.Modulo(m);
        } else {
          Small(m.ToInt(), d.ToInt());
          r := d;
        }
      } else {
        var diff := b.SubBig(this);
        r := diff.Modulo(m);
        NegateResidue(m.ToInt(), diff.ToInt());
        ZeroTest(r);
        if !r.IsZero() {
          r := m.SubBig(r);
        }
      }
    }

    method MulMod(b: BigUint, m: BigUint) returns (r: BigUint)
      requires m.Valid() && m.ToInt() > 0
      ensures r.Valid() && r.ToInt() == (ToInt() * b.ToInt()) % m.ToInt()
    {
      var acc := FromU64(0);
      assert ToInt() * 0 == 0;
      for i := 0 to |b.limbs|
        invariant acc.Valid() && acc.ToInt() == ToInt() * Val(LIMB, b.limbs, i)
      {
        var limb := b.limbs[i];
        if limb == 0 {
          continue;
        }
        var shifted := ShlLimbs(i);
        var part := shifted.MulSmall(limb);
        acc := acc.Add(part);
      }
      r := acc.Modulo(m);
    }

    /** Square and multiply. Modulus one with exponent zero is the one input it does not reduce. */
    method PowMod(exp: BigUint, m: BigUint) returns (r: BigUint)
      requires Valid() && exp.Valid() && m.Valid() && m.ToInt() > 0
      ensures r.Valid() && exp.ToInt() >= 0
      ensures r.ToInt() == if exp.ToInt() == 0 then 1 else Pow(ToInt(), exp.ToInt()) % m.ToInt()
    {
      ghost var q, a, n := m.ToInt(), ToInt(), exp.ToInt();
      Bound(LIMB, exp.limbs, |exp.limbs|);
      var result := FromU64(1);
      var base := Modulo(m);
      var e := exp;
      var zero := FromU64(0);
      Idem(q, a);
      PowCong(q, base.ToInt(), a, n);
      var c := Cmp(e, zero);
      while c == Greater
        invariant result.Valid() && base.Valid() && e.Valid() && n >= e.ToInt() >= 0
        invariant c == Greater <==> e.ToInt() > 0
        invariant e.ToInt() == 0 < n ==> 0 <= result.ToInt() < q
        invariant n == 0 ==> result.ToInt() == 1
        invariant (result.ToInt() * Pow(base.ToInt(), e.ToInt())) % q == Pow(a, n) % q
        decreases e.ToInt()
      {
        var half, bit := e.DivModSmall(2);
        PowerStep(q, result.ToInt(), base.ToInt(), half.ToInt(), bit);
        if bit == 1 {
          result := result.MulMod(base, m);
        }
        base := base.MulMod(base, m);
        e := half;
        c := Cmp(e, zero);
      }
      r := result;
      if n > 0 {
        assert r.ToInt() * 1 == r.ToInt();
        Small(q, r.ToInt());
      }
    }
  }

  // ---- facts about bytes -------------------------------------------------------------------

  /** The four bytes of a limb, low byte first. */
  function LimbBytes(limb: u32): (r: seq<u8>)
    ensures |r| == 4
  {
    [limb % 0x100, (limb / 0x100) % 0x100, (limb / 0x1_0000) % 0x100, limb / 0x100_0000]
  }

  lemma ByteLimbPower(k: nat)
    ensures Pow(BYTE, 4 * k) == Pow(LIMB, k)
  {
    assert Pow(BYTE, 4) == LIMB by {
      assert Pow(BYTE, 2) == BYTE * BYTE by { assert Pow(BYTE, 1) == BYTE; }
      PowAdd(BYTE, 2, 2);
    }
    PowMul(BYTE, 4, k);
  }

  lemma ByteFits(chunk: seq<u8>, k: nat)
    requires k < |chunk| <= 4
    ensures 0 <= Val(BYTE, chunk, k) + chunk[k] as int * Pow(BYTE, k) < LIMB
  {
    Bound(BYTE, chunk, k + 1);
    ByteLimbPower(1);
    PowMono(BYTE, k + 1, 4);
    assert Pow(LIMB, 1) == LIMB * Pow(LIMB, 0);
  }

  lemma FourBytes(c: seq<u8>, w: int, x: int, y: int, z: int)
    requires c == [w, x, y, z]
    ensures Val(BYTE, c, 4) == w + 0x100 * x + 0x1_0000 * y + 0x100_0000 * z
  {
    assert Pow(BYTE, 1) == 0x100;
    assert Pow(BYTE, 2) == 0x1_0000;
    assert Pow(BYTE, 3) == 0x100_0000;
    assert Val(BYTE, c, 2) == w + x * 0x100 by {
      assert Val(BYTE, c, 1) == Val(BYTE, c, 0) + w * Pow(BYTE, 0);
    }
    assert Val(BYTE, c, 3) == Val(BYTE, c, 2) + y * 0x1_0000;
  }

  lemma LimbBytesValue(limb: u32)
    ensures Val(BYTE, LimbBytes(limb), 4) == limb
  {
    var x, y := limb / 0x100, limb / 0x1_0000;
    FourBytes(LimbBytes(limb), limb % 0x100, x % 0x100, y % 0x100, limb / 0x100_0000);
    assert limb == 0x100 * x + limb % 0x100;
    assert x == 0x100 * y + x % 0x100;
    assert y == 0x100 * (limb / 0x100_0000) + y % 0x100;
  }

  lemma GatherStep(bytes: seq<u8>, limbs: seq<u32>, at: nat, chunk: seq<u8>)
    requires at == 4 * |limbs| < |bytes| && Value(LIMB, limbs) == Val(BYTE, bytes, at)
    requires chunk == if at + 4 <= |bytes| then bytes[at..at + 4] else bytes[at..]
    ensures Value(LIMB, limbs + [Val(BYTE, chunk, 4)]) == Val(BYTE, bytes, at + 4)
  {
    Append(LIMB, limbs, Val(BYTE, chunk, 4));
    ByteLimbPower(|limbs|);
    Split(BYTE, bytes, at, 4);
    SameDigits(BYTE, chunk, bytes[at..], 4);
  }

  lemma ScatterStep(out: seq<u8>, i: nat, limb: u32)
    requires |out| == 4 * i
    ensures Value(BYTE, out + LimbBytes(limb)) == Value(BYTE, out) + limb as int * Pow(LIMB, i)
  {
    LimbBytesValue(limb);
    ByteLimbPower(i);
    Split(BYTE, out + LimbBytes(limb), |out|, 4);
    assert (out + LimbBytes(limb))[|out|..] == LimbBytes(limb);
    SameDigits(BYTE, out, out + LimbBytes(limb), |out|);
  }

  // ---- facts about limbs -------------------------------------------------------------------

  lemma LengthOrders(s: seq<u32>, t: seq<u32>)
    requires Normalized(s) && Normalized(t) && |s| < |t|
    ensures Value(LIMB, s) < Value(LIMB, t)
  {
    Bound(LIMB, s, |s|);
    PowMono(LIMB, |s|, |t| - 1);
    LowerBound(LIMB, t, |t| - 1);
  }

  lemma BorrowStep(out: seq<int>, borrow: int, x: seq<int>, y: seq<int>, diff: int)
    requires diff == Digit(x, |out|) - Digit(y, |out|) - borrow
    requires Value(LIMB, out) - borrow * Pow(LIMB, |out|) == Val(LIMB, x, |out|) - Val(LIMB, y, |out|)
    ensures Value(LIMB, out + [diff + LIMB]) - 1 * Pow(LIMB, |out| + 1) == Val(LIMB, x, |out| + 1) - Val(LIMB, y, |out| + 1)
    ensures Value(LIMB, out + [diff]) - 0 * Pow(LIMB, |out| + 1) == Val(LIMB, x, |out| + 1) - Val(LIMB, y, |out| + 1)
  {
    var i := |out|;
    Append(LIMB, out, diff);
    Append(LIMB, out, diff + LIMB);
    BorrowDigit(diff, Digit(x, i), Digit(y, i), borrow, Pow(LIMB, i));
  }

  lemma BorrowDigit(diff: int, a: int, c: int, borrow: int, p: int)
    requires diff == a - c - borrow
    ensures diff * p == a * p - c * p - borrow * p
    ensures (diff + LIMB) * p == diff * p + LIMB * p
  {
  }

  lemma ProductFits(limb: int, m: int, carry: int)
    requires 0 <= limb < LIMB && 0 <= m < LIMB && 0 <= carry < LIMB
    ensures 0 <= limb * m + carry < LIMB * LIMB
  {
    MulMono(limb, 0, m);
    MulMono(limb, m, LIMB - 1);
    MulMono(LIMB - 1, limb, LIMB - 1);
  }

  lemma ScaledDigit(v: int, d: int, p: int, m: int)
    ensures (v + d * p) * m == v * m + (d * m) * p
  {
    assert (v + d * p) * m == v * m + (d * p) * m;
    assert (d * p) * m == (d * m) * p;
  }

  lemma QuotientFits(rem: int, d: int, limb: int)
    requires 0 <= rem < d && 0 <= limb < LIMB
    ensures 0 <= (rem * LIMB + limb) / d < LIMB
  {
    var acc := rem * LIMB + limb;
    assert acc == d * (acc / d) + acc % d;
    assert acc < (rem + 1) * LIMB;
    MulMono(LIMB, rem + 1, d);
    if acc / d >= LIMB { MulMono(d, LIMB, acc / d); }
    if acc / d < 0 { MulMono(d, acc / d, -1); }
  }

  /** Bringing down limb i: the accumulator splits into a quotient limb and a new remainder. */
  lemma DivideStep(limbs: seq<int>, out: seq<int>, d: int, rem: int, i: nat)
    requires d > 0 && i < |limbs| == |out| && out[i] == 0
    ensures Val(LIMB, limbs, i + 1) + d * Val(LIMB, out, |out|) + rem * Pow(LIMB, i + 1)
         == Val(LIMB, limbs, i) + d * Val(LIMB, out[i := (rem * LIMB + limbs[i]) / d], |out|)
            + ((rem * LIMB + limbs[i]) % d) * Pow(LIMB, i)
  {
    var acc := rem * LIMB + limbs[i];
    Update(LIMB, out, i, acc / d, |out|);
    AccumulatorSplit(Val(LIMB, out, |out|), rem, limbs[i], d, Pow(LIMB, i));
  }

  lemma AccumulatorSplit(v: int, rem: int, limb: int, d: int, p: int)
    requires d > 0
    ensures limb * p + d * v + rem * (LIMB * p)
         == d * (v + ((rem * LIMB + limb) / d) * p) + ((rem * LIMB + limb) % d) * p
  {
    var acc := rem * LIMB + limb;
    var k, r := acc / d, acc % d;
    assert acc == d * k + r;
    assert rem * (LIMB * p) + limb * p == acc * p;
    assert (d * k + r) * p == d * (k * p) + r * p;
    assert d * (v + k * p) == d * v + d * (k * p);
  }

  lemma TopLimbWidth(limbs: seq<u32>, i: nat)
    requires i < |limbs| && limbs[i] != 0
    ensures Pow(2, i * 32 + BitWidth(limbs[i]) - 1) <= Val(LIMB, limbs, i + 1) < Pow(2, i * 32 + BitWidth(limbs[i]))
  {
    var w := BitWidth(limbs[i]);
    LimbPower(i);
    PowAdd(2, i * 32, w - 1);
    PowAdd(2, i * 32, w);
    Bound(LIMB, limbs, i);
    ScaleBounds(Pow(LIMB, i), Pow(2, w - 1), limbs[i], Pow(2, w), Val(LIMB, limbs, i));
  }

  lemma LimbPower(i: nat)
    ensures Pow(LIMB, i) == Pow(2, i * 32)
  {
    LimbIsPowerOfTwo();
    PowMul(2, 32, i);
  }

  lemma ScaleBounds(p: int, lo: int, d: int, hi: int, v: int)
    requires 0 <= v < p && lo <= d < hi
    ensures p * lo <= v + d * p < p * hi
  {
    MulMono(p, lo, d);
    MulMono(p, d + 1, hi);
    assert (d + 1) * p == d * p + p;
  }

  lemma ShiftIsNatural(r: int, m: int, bitsR: nat, bitsM: nat)
    requires r >= m > 0 && bitsR > 0 && bitsM > 0
    requires Pow(2, bitsR - 1) <= r < Pow(2, bitsR) && Pow(2, bitsM - 1) <= m < Pow(2, bitsM)
    ensures bitsR >= bitsM
  {
    if bitsR < bitsM { PowMono(2, bitsR, bitsM - 1); }
  }

  /** m*2^shift overshoots r by less than one bit: halving it is exact and gets below r. */
  lemma Overshoot(r: int, m: int, bitsR: nat, bitsM: nat)
    requires r >= m > 0 && bitsR >= bitsM > 0 && r < m * Pow(2, bitsR - bitsM)
    requires Pow(2, bitsR - 1) <= r && m < Pow(2, bitsM)
    ensures bitsR > bitsM
    ensures (m * Pow(2, bitsR - bitsM)) / 2 == m * Pow(2, bitsR - bitsM - 1) <= r
  {
    var s := bitsR - bitsM;
    assert m * 1 == m;
    var h := Pow(2, s - 1);
    assert m * (2 * h) == 2 * (m * h);
    PowAdd(2, bitsM, s - 1);
    PowPos(2, s - 1);
    MulMono(h, m, Pow(2, bitsM));
  }

  lemma SubtractMultiple(r: int, m: int, k: int)
    requires m > 0 && k > 0
    ensures (r - m * k) % m == r % m && m * k > 0
  {
    assert (-k) * m == -(m * k);
    Shift(m, r - m * k, r, -k);
    MulMono(m, 1, k);
  }

  lemma NegateResidue(m: int, d: int)
    requires m > 0
    ensures d % m == 0 ==> (-d) % m == 0
    ensures d % m != 0 ==> (-d) % m == m - d % m
  {
    Small(m, 0);
    Idem(m, d);
    CongNeg(m, d % m, d);
    if d % m != 0 {
      Shift(m, m - d % m, -(d % m), 1);
      Small(m, m - d % m);
    }
  }

  lemma ZeroTest(x: BigUint)
    ensures x.IsZero() <==> x.ToInt() == 0
  {
    if x.IsZero() {
      Zeros(LIMB, x.limbs, |x.limbs|);
    } else {
      var j :| 0 <= j < |x.limbs| && x.limbs[j] != 0;
      PowPos(LIMB, j);
      LowerBound(LIMB, x.limbs, j);
    }
  }

  lemma Assoc(a: int, b: int, c: int)
    ensures (a * b) * c == a * (b * c)
  {
  }

  /** One round of square and multiply keeps result * base^e. */
  lemma PowerStep(q: int, result: int, base: int, half: nat, bit: int)
    requires q > 0 && 0 <= bit <= 1
    ensures ((if bit == 1 then (result * base) % q else result) * Pow((base * base) % q, half)) % q
         == (result * Pow(base, 2 * half + bit)) % q
  {
    var s := base * base;
    Idem(q, s);
    PowCong(q, s % q, s, half);
    PowMul(base, 2, half);
    assert Pow(base, 2) == base * Pow(base, 1) && Pow(base, 1) == base * Pow(base, 0);
    if bit == 1 {
      Idem(q, result * base);
      CongMul(q, (result * base) % q, result * base, Pow(s % q, half), Pow(s, half));
      Assoc(result, base, Pow(s, half));
    } else {
      CongMul(q, result, result, Pow(s % q, half), Pow(s, half));
    }
  }
}
