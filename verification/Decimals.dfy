/** Decimal printing and parsing as the MPC adapter does it, and the lines of the MPC transcript. */
module Decimals {
  import opened Wrappers
  import opened BigUints
  import opened ModArith

  predicate IsDigit(c: char) {
    '0' <= c <= '9'
  }

  predicate AllDigits(s: string) {
    forall i :: 0 <= i < |s| ==> IsDigit(s[i])
  }

  /** The characters with the Unicode White_Space property. */
  predicate IsSpace(c: char) {
    var u := c as int;
    9 <= u <= 13 || u == 0x20 || u == 0x85 || u == 0xA0 || u == 0x1680 || 0x2000 <= u <= 0x200A
    || u == 0x2028 || u == 0x2029 || u == 0x202F || u == 0x205F || u == 0x3000
  }

  function TrimStart(s: string): (r: string)
    ensures |r| <= |s|
  {
    if s != "" && IsSpace(s[0]) then TrimStart(s[1..]) else s
  }

  function TrimEnd(s: string): (r: string)
    ensures |r| <= |s|
  {
    if s != "" && IsSpace(s[|s| - 1]) then TrimEnd(s[..|s| - 1]) else s
  }

  function Trim(s: string): string {
    TrimEnd(TrimStart(s))
  }

  /** The number a string of digits denotes. */
  function DecimalValue(s: string): int {
    if s == "" then 0 else 10 * DecimalValue(s[..|s| - 1]) + (s[|s| - 1] as int - '0' as int)
  }

  lemma {:induction false} DecimalValueNat(s: string)
    requires AllDigits(s)
    ensures DecimalValue(s) >= 0
  {
    if s != "" { DecimalValueNat(s[..|s| - 1]); }
  }

  /** The shortest decimal notation of n. */
  function DecimalOf(n: nat): (s: string)
    ensures s != "" && AllDigits(s)
  {
    var d := [('0' as int + n % 10) as char];
    if n < 10 then d else DecimalOf(n / 10) + d
  }

  /** What a decimal string parses to: white space around it is dropped, anything else is refused. */
  function ParseNat(s: string): Option<int> {
    var t := Trim(s);
    if t != "" && AllDigits(t) then Some(DecimalValue(t)) else None
  }

  function ParseSigned(s: string): Option<int> {
    var t := Trim(s);
    if t != "" && t[0] == '-' then
      match ParseNat(t[1..])
      case Some(v) => Some(-v)
      case None => None
    else ParseNat(t)
  }

  function PrintSigned(v: int): string {
    if v < 0 then "-" + DecimalOf(-v) else DecimalOf(v)
  }

  method ParseDecimal(s: string) returns (r: Option<BigUint>)
    ensures r.None? <==> ParseNat(s).None?
    ensures r.Some? ==> r.value.Valid() && Some(r.value.ToInt()) == ParseNat(s)
  {
    var t := Trim(s);
    if |t| == 0 {
      return None;
    }
    var n := BigUint.FromU64(0);
    for i := 0 to |t|
      invariant n.Valid() && AllDigits(t[..i]) && n.ToInt() == DecimalValue(t[..i])
    {
      if !IsDigit(t[i]) {
        return None;
      }
      assert t[..i + 1][..i] == t[..i];
      var d := t[i] as int - '0' as int;
      n := n.MulSmall(10);
      var digit := BigUint.FromU64(d);
      n := n.Add(digit);
    }
    assert t[..|t|] == t;
    r := Some(n);
  }

  method ToDecimal(x: BigUint) returns (s: string)
    requires x.Valid() && x.ToInt() >= 0
    ensures s == DecimalOf(x.ToInt())
  {
    ZeroTest(x);
    if x.IsZero() {
      return "0";
    }
    var digits: string := [];
    var n := x;
    while !n.IsZero()
      invariant n.Valid() && n.ToInt() >= 0 && (n.IsZero() <==> n.ToInt() == 0)
      invariant DecimalOf(x.ToInt()) == (if n.ToInt() == 0 then "" else DecimalOf(n.ToInt())) + digits
      decreases n.ToInt()
    {
      var quot, rest := n.DivModSmall(10);
      digits := [('0' as int + rest) as char] + digits;
      n := quot;
      ZeroTest(n);
    }
    s := digits;
  }

  // ---- printing and parsing are inverse -----------------------------------------------------

  lemma TrimNoSpace(s: string)
    requires s != "" ==> !IsSpace(s[0]) && !IsSpace(s[|s| - 1])
    ensures Trim(s) == s
  {
  }

  lemma {:induction false} ParseInvertsPrint(n: nat)
    ensures ParseNat(DecimalOf(n)) == Some(n)
  {
    var s := DecimalOf(n);
    TrimNoSpace(s);
    if n >= 10 {
      ParseInvertsPrint(n / 10);
      TrimNoSpace(DecimalOf(n / 10));
      assert s[..|s| - 1] == DecimalOf(n / 10);
    } else {
      assert s[..|s| - 1] == "";
      assert DecimalValue(s) == n % 10;
    }
  }

  /** ... and printing inverts parsing exactly on digit strings without a superfluous leading zero. */
  lemma {:induction false} PrintInvertsParse(s: string)
    requires s != "" && AllDigits(s)
    ensures DecimalValue(s) >= 0
    ensures DecimalOf(DecimalValue(s)) == s <==> (|s| == 1 || s[0] != '0')
  {
    DecimalValueNat(s);
    var t := s[..|s| - 1];
    if |s| == 1 {
      assert DecimalValue(t) == 0;
    } else {
      DecimalValueNat(t);
      PrintInvertsParse(t);
      assert s == t + [s[|s| - 1]];
      if DecimalValue(t) > 0 {
        var d := [('0' as int + DecimalValue(s) % 10) as char];
        assert DecimalOf(DecimalValue(s)) == DecimalOf(DecimalValue(t)) + d && d == [s[|s| - 1]];
        if DecimalOf(DecimalValue(s)) == s {
          assert DecimalOf(DecimalValue(t)) == s[..|DecimalOf(DecimalValue(s))| - 1];
        }
        if |t| == 1 {
          assert t[..0] == "";
        }
      } else {
        assert |DecimalOf(DecimalValue(s))| == 1;
        LeadingZero(t);
      }
    }
  }

  lemma {:induction false} LeadingZero(s: string)
    requires s != "" && AllDigits(s) && DecimalValue(s) == 0
    ensures s[0] == '0'
  {
    var t := s[..|s| - 1];
    DecimalValueNat(t);
    if t != "" { LeadingZero(t); }
  }

  lemma SignedText(v: int)
    ensures var s := PrintSigned(v); s != "" && !IsSpace(s[0]) && !IsSpace(s[|s| - 1])
    ensures v < 0 ==> PrintSigned(v)[0] == '-' && PrintSigned(v)[1..] == DecimalOf(-v)
    ensures v >= 0 ==> PrintSigned(v)[0] != '-' && PrintSigned(v) == DecimalOf(v)
  {
  }

  /** Signed printing is undone by signed parsing, so either centred or canonical output is read back. */
  lemma SignedRoundTrip(v: int)
    ensures ParseSigned(PrintSigned(v)) == Some(v)
  {
    SignedText(v);
    TrimNoSpace(PrintSigned(v));
    ParseInvertsPrint(if v < 0 then -v else v);
  }

  /** The most significant digit comes first. */
  lemma DecimalIs()
    ensures DecimalOf(907) == "907" && DecimalValue("907") == 907 && PrintSigned(-15) == "-15"
  {
    assert DecimalOf(90) == "90";
    assert "907"[..2] == "90" && "90"[..1] == "9" && "9"[..0] == "";
    assert DecimalValue("9") == 9 && DecimalValue("90") == 90;
  }

  // ---- the opened value in the transcript ---------------------------------------------------

  const MARKER: string := "EUNOMA_VAULT_EK_M="

  /** The payload of a well-formed marker line. */
  function MarkerPayload(line: string): Option<string> {
    if MARKER <= line then
      var value := Trim(line[|MARKER|..]);
      var digits := if value != "" && value[0] == '-' then value[1..] else value;
      if digits != "" && AllDigits(digits) then Some(value) else None
    else None
  }

  ghost predicate FirstPayloadAt(lines: seq<string>, i: nat) {
    i < |lines| && MarkerPayload(lines[i]).Some? && forall j :: 0 <= j < i ==> MarkerPayload(lines[j]).None?
  }

  method FindOpenM(lines: seq<string>) returns (r: Option<string>)
    ensures r.None? <==> forall i :: 0 <= i < |lines| ==> MarkerPayload(lines[i]).None?
    ensures r.Some? ==> exists i :: 0 <= i < |lines| && FirstPayloadAt(lines, i) && MarkerPayload(lines[i]) == r
  {
    for i := 0 to |lines|
      invariant forall j :: 0 <= j < i ==> MarkerPayload(lines[j]).None?
    {
      if MARKER <= lines[i] {
        var value := Trim(lines[i][|MARKER|..]);
        if value == "" {
          continue;
        }
        var digits := if value[0] == '-' then value[1..] else value;
        if digits != "" && AllDigits(digits) {
          assert FirstPayloadAt(lines, i);
          return Some(value);
        }
      }
    }
    return None;
  }

  /** The line the MPC program prints for an opened value carries that value. */
  lemma PrintedLineCarriesValue(v: int)
    ensures MarkerPayload("EUNOMA_VAULT_EK_M=" + PrintSigned(v)) == Some(PrintSigned(v))
  {
    var s := PrintSigned(v);
    assert (MARKER + s)[|MARKER|..] == s;
    SignedText(v);
    TrimNoSpace(s);
  }
}
