/** BCS: the encoding of fields, and the strict decoder that inverts it. */
module Bcs {
  import opened Wrappers
  import opened ModArith
  import opened PrimeField
  import opened Digits
  import opened Encoding

  const WORD: int := 0x1_0000_0000

  /**
   ULEB128 as the JavaScript writer computes it: its shift works on 32-bit words, so a value of
   2^32 or more loses its high part after the first byte.
   */
  function Uleb(v: nat): (r: seq<u8>)
    ensures r != []
  {
    if v < 0x80 then [v] else [v % 0x80 + 0x80] + Uleb((v % WORD) / 0x80)
  }

  /** Reads one 32-bit ULEB128 number; a superfluous zero byte at its end and an overflow are refused. */
  function ReadUleb(s: seq<u8>): (r: Option<(nat, seq<u8>)>)
    ensures r.Some? ==> r.value.0 < WORD && |r.value.1| < |s|
  {
    if s == [] then None
    else if s[0] < 0x80 then Some((s[0], s[1..]))
    else
      match ReadUleb(s[1..])
      case Some((hi, rest)) =>
        var v := s[0] - 0x80 + 0x80 * hi;
        if hi == 0 || v >= WORD then None else Some((v, rest))
      case None => None
  }

  /** The shape of a field and a field of that shape. */
  datatype Kind = KFixed(n: nat) | KU8 | KU64 | KBytes | KList(elem: Kind)
  datatype Field = Fixed(raw: seq<u8>) | U8(small: int) | U64(v: int) | Bytes(b: seq<u8>) | List(items: seq<Field>)

  predicate HasKind(f: Field, k: Kind) {
    match f
    case Fixed(raw) => k == KFixed(|raw|)
    case U8(_) => k == KU8
    case U64(_) => k == KU64
    case Bytes(_) => k == KBytes
    case List(items) => k.KList? && forall i :: 0 <= i < |items| ==> HasKind(items[i], k.elem)
  }

  /** Numbers in range, and lengths that a 32-bit word can count. */
  predicate Fits(f: Field) {
    match f
    case Fixed(_) => true
    case U8(v) => 0 <= v < 0x100
    case U64(v) => 0 <= v < 0x1_0000_0000_0000_0000
    case Bytes(b) => |b| < WORD
    case List(items) => |items| < WORD && forall i :: 0 <= i < |items| ==> Fits(items[i])
  }

  predicate AllFit(fs: seq<Field>) {
    forall i :: 0 <= i < |fs| ==> Fits(fs[i])
  }

  function Write(f: Field): seq<u8>
    decreases f, 1
  {
    match f
    case Fixed(raw) => raw
    case U8(v) => if 0 <= v < 0x100 then [v] else []
    case U64(v) => if v >= 0 then BytesOf(v, 8) else []
    case Bytes(b) => Uleb(|b|) + b
    case List(items) => Uleb(|items|) + WriteAll(items)
  }

  function WriteAll(fs: seq<Field>): seq<u8>
    decreases fs, 0
  {
    if fs == [] then [] else Write(fs[0]) + WriteAll(fs[1..])
  }

  function Read(k: Kind, s: seq<u8>): Option<(Field, seq<u8>)>
    decreases k, 0
  {
    match k
    case KFixed(n) => if n <= |s| then Some((Fixed(s[..n]), s[n..])) else None
    case KU8 => if 1 <= |s| then Some((U8(s[0]), s[1..])) else None
    case KU64 => if 8 <= |s| then Some((U64(Value(BYTE, s[..8])), s[8..])) else None
    case KBytes =>
      (match ReadUleb(s)
       case Some((n, rest)) => if n <= |rest| then Some((Bytes(rest[..n]), rest[n..])) else None
       case None => None)
    case KList(elem) =>
      match ReadUleb(s)
      case Some((n, rest)) =>
        (match ReadMany(elem, n, rest)
         case Some((items, tail)) => Some((List(items), tail))
         case None => None)
      case None => None
  }

  function ReadMany(k: Kind, n: nat, s: seq<u8>): (r: Option<(seq<Field>, seq<u8>)>)
    ensures r.Some? ==> |r.value.0| == n
    decreases k, 1, n
  {
    if n == 0 then Some(([], s))
    else
      match Read(k, s)
      case Some((f, rest)) =>
        (match ReadMany(k, n - 1, rest)
         case Some((fs, tail)) => Some(([f] + fs, tail))
         case None => None)
      case None => None
  }

  /** A record: one field of each kind, in order. */
  function ReadRecord(ks: seq<Kind>, s: seq<u8>): Option<(seq<Field>, seq<u8>)> {
    if ks == [] then Some(([], s))
    else
      match Read(ks[0], s)
      case Some((f, rest)) =>
        (match ReadRecord(ks[1..], rest)
         case Some((fs, tail)) => Some(([f] + fs, tail))
         case None => None)
      case None => None
  }

  predicate HasKinds(fs: seq<Field>, ks: seq<Kind>) {
    |fs| == |ks| && forall i :: 0 <= i < |fs| ==> HasKind(fs[i], ks[i])
  }

  // ---- ULEB128 ------------------------------------------------------------------------------

  /** Seven bits at a time, the low ones first, with the high bit set on all bytes but the last. */
  lemma UlebIs(v: nat)
    ensures v < 0x80 ==> Uleb(v) == [v]
    ensures 0x80 <= v < 0x4000 ==> Uleb(v) == [v % 0x80 + 0x80, v / 0x80]
  {
    if 0x80 <= v < 0x4000 {
      Small(WORD, v);
      assert Uleb(v) == [v % 0x80 + 0x80] + Uleb(v / 0x80);
    }
  }

  lemma ReadContinued(b: u8, hi: nat, tail: seq<u8>, rest: seq<u8>)
    requires b >= 0x80 && ReadUleb(tail) == Some((hi, rest))
    ensures hi == 0 || b - 0x80 + 0x80 * hi >= WORD ==> ReadUleb([b] + tail) == None
    ensures hi > 0 && b - 0x80 + 0x80 * hi < WORD ==> ReadUleb([b] + tail) == Some((b - 0x80 + 0x80 * hi, rest))
  {
    assert ([b] + tail)[1..] == tail;
  }

  lemma {:induction false} ReadWriteUlebSmall(v: nat, rest: seq<u8>)
    requires v < WORD
    ensures ReadUleb(Uleb(v) + rest) == Some((v, rest))
  {
    if v < 0x80 {
      assert ([v] + rest)[1..] == rest;
    } else {
      Small(WORD, v);
      ReadWriteUlebSmall(v / 0x80, rest);
      ReadContinued(v % 0x80 + 0x80, v / 0x80, Uleb(v / 0x80) + rest, rest);
      ConcatAssoc([v % 0x80 + 0x80], Uleb(v / 0x80), rest);
    }
  }

  /** The reader gets a length back exactly when it is below 2^32. */
  lemma ReadWriteUleb(v: nat, rest: seq<u8>)
    ensures ReadUleb(Uleb(v) + rest) == Some((v, rest)) <==> v < WORD
  {
    if v < WORD { ReadWriteUlebSmall(v, rest); }
  }

  lemma UlebContinued(low: nat, hi: nat)
    requires low < 0x80 && hi > 0 && low + 0x80 * hi < WORD
    ensures Uleb(low + 0x80 * hi) == [low + 0x80] + Uleb(hi)
  {
    var v := low + 0x80 * hi;
    Small(WORD, v);
    Unique(0x80, hi, low);
  }

  lemma {:induction false} WriteReadUleb(s: seq<u8>)
    requires ReadUleb(s).Some?
    ensures Uleb(ReadUleb(s).value.0) + ReadUleb(s).value.1 == s
  {
    if s[0] >= 0x80 {
      var (hi, rest) := ReadUleb(s[1..]).value;
      WriteReadUleb(s[1..]);
      UlebContinued(s[0] - 0x80, hi);
      assert [s[0]] + Uleb(hi) + rest == [s[0]] + (Uleb(hi) + rest);
      assert s == [s[0]] + s[1..];
    }
  }

  // ---- fields -------------------------------------------------------------------------------

  lemma ReadWriteU64(v: int, rest: seq<u8>)
    requires 0 <= v < 0x1_0000_0000_0000_0000
    ensures Read(KU64, BytesOf(v, 8) + rest) == Some((U64(v), rest))
  {
    BytesOfValue(v, 8);
    var s := BytesOf(v, 8) + rest;
    assert s[..8] == BytesOf(v, 8) && s[8..] == rest;
  }

  lemma ReadWriteBytes(b: seq<u8>, rest: seq<u8>)
    requires |b| < WORD
    ensures Read(KBytes, Uleb(|b|) + b + rest) == Some((Bytes(b), rest))
  {
    ReadWriteUleb(|b|, b + rest);
    ConcatAssoc(Uleb(|b|), b, rest);
    assert (b + rest)[..|b|] == b && (b + rest)[|b|..] == rest;
  }

  lemma {:induction false} ReadWrite(k: Kind, f: Field, rest: seq<u8>)
    requires HasKind(f, k) && Fits(f)
    ensures Read(k, Write(f) + rest) == Some((f, rest))
    decreases f, 1
  {
    var s := Write(f) + rest;
    match f {
      case Fixed(raw) =>
        assert s[..|raw|] == raw && s[|raw|..] == rest;
      case U8(v) =>
        assert s[1..] == rest;
      case U64(v) =>
        ReadWriteU64(v, rest);
      case Bytes(b) =>
        ReadWriteBytes(b, rest);
      case List(items) =>
        ReadWriteMany(k.elem, items, rest);
        ReadWriteUleb(|items|, WriteAll(items) + rest);
        ConcatAssoc(Uleb(|items|), WriteAll(items), rest);
    }
  }

  lemma WriteAllStep(fs: seq<Field>, tail: seq<u8>)
    requires fs != []
    ensures fs == [fs[0]] + fs[1..]
    ensures WriteAll(fs) + tail == Write(fs[0]) + (WriteAll(fs[1..]) + tail)
  {
  }

  lemma {:induction false} ReadWriteMany(k: Kind, fs: seq<Field>, rest: seq<u8>)
    requires forall i :: 0 <= i < |fs| ==> HasKind(fs[i], k) && Fits(fs[i])
    ensures ReadMany(k, |fs|, WriteAll(fs) + rest) == Some((fs, rest))
    decreases fs, 0
  {
    if fs == [] {
      assert WriteAll(fs) + rest == rest;
    } else {
      var t := WriteAll(fs[1..]) + rest;
      ReadWrite(k, fs[0], t);
      ReadWriteMany(k, fs[1..], rest);
      WriteAllStep(fs, rest);
    }
  }

  lemma ReadRecordStep(ks: seq<Kind>, f: Field, fs: seq<Field>, s: seq<u8>, rest: seq<u8>, tail: seq<u8>)
    requires ks != [] && Read(ks[0], s) == Some((f, rest)) && ReadRecord(ks[1..], rest) == Some((fs, tail))
    ensures ReadRecord(ks, s) == Some(([f] + fs, tail))
  {
  }

  /** Reading a written record gives back its fields and leaves what follows. */
  lemma {:induction false} ReadWriteRecord(ks: seq<Kind>, fs: seq<Field>, rest: seq<u8>)
    requires HasKinds(fs, ks) && AllFit(fs)
    ensures ReadRecord(ks, WriteAll(fs) + rest) == Some((fs, rest))
  {
    if fs == [] {
      assert WriteAll(fs) + rest == rest;
    } else {
      var t := WriteAll(fs[1..]) + rest;
      ReadWrite(ks[0], fs[0], t);
      ReadWriteRecord(ks[1..], fs[1..], rest);
      WriteAllStep(fs, rest);
      ReadRecordStep(ks, fs[0], fs[1..], Write(fs[0]) + t, t, rest);
    }
  }

  /** Records of the same kinds with the same bytes are the same record. */
  lemma RecordsInjective(ks: seq<Kind>, fs: seq<Field>, gs: seq<Field>)
    requires HasKinds(fs, ks) && HasKinds(gs, ks) && AllFit(fs) && AllFit(gs)
    requires WriteAll(fs) == WriteAll(gs)
    ensures fs == gs
  {
    ReadWriteRecord(ks, fs, []);
    ReadWriteRecord(ks, gs, []);
    assert WriteAll(fs) + [] == WriteAll(gs) + [];
  }

  lemma WriteReadU64(s: seq<u8>)
    requires |s| == 8
    ensures 0 <= Value(BYTE, s) < 0x1_0000_0000_0000_0000 && BytesOf(Value(BYTE, s), 8) == s
  {
    Bound(BYTE, s, 8);
    BytesOfValue(Value(BYTE, s), 8);
    Unambiguous(BYTE, BytesOf(Value(BYTE, s), 8), s);
  }

  lemma ConcatAssoc(a: seq<u8>, b: seq<u8>, c: seq<u8>)
    ensures a + b + c == a + (b + c)
  {
  }

  /** What the reader accepts is what the writer writes: no two byte strings decode to one field. */
  lemma {:induction false} WriteRead(k: Kind, s: seq<u8>, f: Field, rest: seq<u8>)
    requires Read(k, s) == Some((f, rest))
    ensures HasKind(f, k) && Fits(f) && Write(f) + rest == s
    decreases k, 0
  {
    match k {
      case KFixed(n) =>
      case KU8 =>
      case KU64 =>
        WriteReadU64(s[..8]);
      case KBytes =>
        WriteReadUleb(s);
        ConcatAssoc(Uleb(|f.b|), f.b, rest);
      case KList(elem) =>
        WriteReadUleb(s);
        WriteReadMany(elem, ReadUleb(s).value.1, f.items, rest);
        ConcatAssoc(Uleb(|f.items|), WriteAll(f.items), rest);
    }
  }

  lemma {:induction false} WriteReadMany(k: Kind, s: seq<u8>, fs: seq<Field>, tail: seq<u8>)
    requires ReadMany(k, |fs|, s) == Some((fs, tail))
    ensures (forall i :: 0 <= i < |fs| ==> HasKind(fs[i], k) && Fits(fs[i])) && WriteAll(fs) + tail == s
    decreases k, 1, |fs|
  {
    if fs != [] {
      var (f, rest) := Read(k, s).value;
      var (gs, _) := ReadMany(k, |fs| - 1, rest).value;
      assert fs[0] == f && fs[1..] == gs;
      WriteRead(k, s, fs[0], rest);
      WriteReadMany(k, rest, fs[1..], tail);
      WriteAllStep(fs, tail);
    }
  }

  /** ... and so for records: the reader's accepted inputs are exactly the written records. */
  lemma {:induction false} WriteReadRecord(ks: seq<Kind>, s: seq<u8>, fs: seq<Field>, tail: seq<u8>)
    requires ReadRecord(ks, s) == Some((fs, tail))
    ensures HasKinds(fs, ks) && AllFit(fs) && WriteAll(fs) + tail == s
  {
    if ks != [] {
      var (f, rest) := Read(ks[0], s).value;
      var (gs, _) := ReadRecord(ks[1..], rest).value;
      assert fs[0] == f && fs[1..] == gs;
      WriteRead(ks[0], s, fs[0], rest);
      WriteReadRecord(ks[1..], rest, fs[1..], tail);
      WriteAllStep(fs, tail);
    }
  }
}
