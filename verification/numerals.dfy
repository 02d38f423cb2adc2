/** Numbers as strconv prints and parses them, to the bases in use. */
module Numerals {
  import opened Common

  const ZERO: byte := 0x30

  datatype Notation = Octal | Decimal

  function Radix(b: Notation): nat {
    match b
    case Octal => 8
    case Decimal => 10
  }

  function Quotient(n: nat, b: Notation): nat {
    match b
    case Octal => n / 8
    case Decimal => n / 10
  }

  /** strconv.AppendUint: digits in ASCII, most significant first. */
  function Digits(n: nat, b: Notation): (s: seq<byte>)
    ensures s != [] && AllDigits(s, b)
  {
    if n < Radix(b) then [ZERO + n] else Digits(Quotient(n, b), b) + [ZERO + (n - Radix(b) * Quotient(n, b))]
  }

  /** Decimal digits in ASCII: one for each power of ten, the most significant first. */
  lemma DecimalDigits(q: nat, d: nat)
    requires d < 10
    ensures Digits(d, Decimal) == [0x30 + d]
    ensures q > 0 ==> Digits(10 * q + d, Decimal) == Digits(q, Decimal) + [0x30 + d]
  {
  }

  /** Octal digits in the same way. */
  lemma OctalDigits(q: nat, d: nat)
    requires d < 8
    ensures Digits(d, Octal) == [0x30 + d]
    ensures q > 0 ==> Digits(8 * q + d, Octal) == Digits(q, Octal) + [0x30 + d]
  {
  }

  predicate AllDigits(s: seq<byte>, b: Notation) {
    forall i :: 0 <= i < |s| ==> ZERO <= s[i] < ZERO + Radix(b)
  }

  function Value(s: seq<byte>, b: Notation): nat
    requires AllDigits(s, b)
  {
    if s == [] then 0 else Radix(b) * Value(Front(s), b) + Last(s) - ZERO
  }

  /** No zeros in front, as numbers are printed. */
  predicate Canonical(digits: seq<byte>) {
    |digits| > 1 ==> digits[0] != ZERO
  }

  lemma {:induction false} ValueOfDigits(n: nat, b: Notation)
    ensures Value(Digits(n, b), b) == n && Canonical(Digits(n, b))
    ensures n > 0 ==> Digits(n, b)[0] != ZERO
  {
    if n >= Radix(b) {
      ValueOfDigits(Quotient(n, b), b);
      assert Front(Digits(n, b)) == Digits(Quotient(n, b), b);
    }
  }

  lemma ValueAppend(front: seq<byte>, d: byte, b: Notation)
    requires AllDigits(front, b) && AllDigits(front + [d], b)
    ensures Value(front + [d], b) == Radix(b) * Value(front, b) + d - ZERO
    ensures ZERO <= d < ZERO + Radix(b)
  {
    assert Front(front + [d]) == front && Last(front + [d]) == d == (front + [d])[|front|];
    hide Digits, AllDigits;
  }

  lemma DigitsGrow(front: seq<byte>, d: byte, b: Notation)
    requires front != [] && AllDigits(front, b) && AllDigits(front + [d], b)
    ensures Value(front, b) > 0 ==>
      && Value(front + [d], b) > 0
      && Digits(Value(front + [d], b), b) == Digits(Value(front, b), b) + [d]
  {
    hide Digits, AllDigits, Value, Radix;
    ValueAppend(front, d, b);
    NextDigit(Value(front, b), d, b);
  }

  lemma NextDigit(v: nat, d: byte, b: Notation)
    requires ZERO <= d < ZERO + Radix(b)
    ensures v > 0 ==> Radix(b) * v + d - ZERO > 0 && Digits(Radix(b) * v + d - ZERO, b) == Digits(v, b) + [d]
  {
    hide AllDigits;
    assert Quotient(Radix(b) * v + d - ZERO, b) == v;
  }

  lemma {:induction false} CanonicalDigits(s: seq<byte>, b: Notation)
    requires s != [] && AllDigits(s, b) && Canonical(s)
    ensures Digits(Value(s, b), b) == s
    ensures s[0] != ZERO ==> Value(s, b) > 0
  {
    if |s| > 1 {
      CanonicalDigits(Front(s), b);
      assert s == Front(s) + [Last(s)];
      DigitsGrow(Front(s), Last(s), b);
    } else {
      assert Front(s) == [] && s == [Last(s)];
    }
  }

  /** Digits are the printed form of their value exactly when there are no zeros in front. */
  lemma DigitsOfValue(s: seq<byte>, b: Notation)
    requires s != [] && AllDigits(s, b)
    ensures Digits(Value(s, b), b) == s <==> Canonical(s)
  {
    hide Value, Digits;
    ValueOfDigits(Value(s, b), b);
    if Canonical(s) {
      CanonicalDigits(s, b);
    }
  }

  /** strconv.ParseUint(s, 8, 32) and the digits of strconv.ParseInt. */
  function ParseDigits(s: seq<byte>, b: Notation, limit: nat): Option<nat> {
    if s == [] || !AllDigits(s, b) || Value(s, b) >= limit then None else Some(Value(s, b))
  }

  // ---------------------------------------------------------------- signed 64-bit integers

  const MINUS: byte := 0x2d
  const PLUS: byte := 0x2b

  predicate Int64(n: int) {
    -TWO63 <= n < TWO63
  }

  /** strconv.ParseInt(s, 10, 64). */
  function ParseInt(s: seq<byte>): (n: Option<int>)
    ensures n.Some? ==> Int64(n.value)
  {
    if s == [] then None
    else
      var neg := s[0] == MINUS;
      match ParseDigits(if neg || s[0] == PLUS then s[1..] else s, Decimal, TWO64)
      case None => None
      case Some(un) =>
        if (!neg && un >= TWO63) || (neg && un > TWO63) then None else Some(if neg then 0 - un else un)
  }

  /** The %d verb. */
  function PrintInt(n: int): (s: seq<byte>)
    ensures s != []
  {
    if n < 0 then [MINUS] + Digits(-n, Decimal) else Digits(n, Decimal)
  }

  /** No plus sign, no zeros in front, and no negative zero. */
  predicate CanonicalInt(s: seq<byte>) {
    s != [] && s[0] != PLUS &&
    if s[0] == MINUS then Canonical(s[1..]) && s != [MINUS, ZERO] else Canonical(s)
  }

  lemma ParsePrintedInt(n: int)
    requires Int64(n)
    ensures ParseInt(PrintInt(n)) == Some(n) && CanonicalInt(PrintInt(n))
    ensures forall i :: 0 <= i < |PrintInt(n)| ==> PrintInt(n)[i] == MINUS || ZERO <= PrintInt(n)[i] <= ZERO + 9
  {
    hide Digits, Value;
    var m: nat := if n < 0 then -n else n;
    ValueOfDigits(m, Decimal);
    var d := Digits(m, Decimal);
    assert ZERO <= d[0] < ZERO + 10;
    if n < 0 {
      assert PrintInt(n)[1..] == d;
    }
  }

  lemma ZeroOnly(s: seq<byte>)
    requires s != [] && AllDigits(s, Decimal) && Canonical(s)
    ensures Value(s, Decimal) == 0 <==> s == [ZERO]
  {
    CanonicalDigits(s, Decimal);
    if s == [ZERO] {
      assert Front(s) == [];
    }
  }

  /** A number parsed prints as the same text exactly when the text was canonical. */
  lemma PrintParsedInt(s: seq<byte>)
    requires ParseInt(s).Some?
    ensures PrintInt(ParseInt(s).value) == s <==> CanonicalInt(s)
  {
    hide Digits, Value;
    var n := ParseInt(s).value;
    ParsePrintedInt(n);
    if CanonicalInt(s) {
      var d := if s[0] == MINUS then s[1..] else s;
      DigitsOfValue(d, Decimal);
      ZeroOnly(d);
    }
  }
}
