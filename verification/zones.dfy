/**
 Time zones in commit headers: offsets as text, with a sign and two digits each of hours and
 minutes, and the normal form in which a time is read back after its zone was printed.
 */
module Zones {
  import opened Common
  import opened Numerals

  /** A time.Time as far as commits use it: seconds since 1970 and the zone's name and offset in seconds. */
  datatype Time = Time(unix: int, zone: seq<byte>, offset: int)

  /** tzDigit: the digit at place `i` from the end, or zero. */
  function TzDigit(digits: seq<byte>, i: nat): int
    requires 0 < i && AllDigits(digits, Decimal)
  {
    if i > |digits| then 0 else digits[|digits| - i] - ZERO
  }

  function ZoneSeconds(digits: seq<byte>): int
    requires AllDigits(digits, Decimal)
  {
    var hours := TzDigit(digits, 4) * 10 + TzDigit(digits, 3);
    var minutes := TzDigit(digits, 2) * 10 + TzDigit(digits, 1);
    hours * 3600 + minutes * 60
  }

  /** parseTZOffset. */
  function ParseZone(src: seq<byte>): Option<int> {
    if |src| < 2 || |src| > 5 then None
    else if src[0] != MINUS && src[0] != PLUS then None
    else if !AllDigits(src[1..], Decimal) then None
    else Some(if src[0] == MINUS then -ZoneSeconds(src[1..]) else ZoneSeconds(src[1..]))
  }

  /** Division as Go does it, towards zero. */
  function Quo(x: int, n: nat): int
    requires n > 0
  {
    if x < 0 then -(-x / n) else x / n
  }

  function AtLeastTwo(n: nat): seq<byte> {
    if n < 10 then [ZERO] + Digits(n, Decimal) else Digits(n, Decimal)
  }

  /** time.Format("-0700"): the offset in whole minutes. */
  function FormatZone(offset: int): seq<byte> {
    var zone := Quo(offset, 60);
    var m: nat := if zone < 0 then -zone else zone;
    [if zone < 0 then MINUS else PLUS] + (AtLeastTwo(m / 60) + AtLeastTwo(m % 60))
  }

  /** The zone's name says what its offset is. */
  predicate NamesOffset(t: Time) {
    ParseZone(t.zone) == Some(t.offset)
  }

  /** tzOffset. */
  function ZoneText(t: Time): seq<byte> {
    if NamesOffset(t) then t.zone else FormatZone(t.offset)
  }

  lemma TwoDigits(n: nat)
    ensures n < 100 ==> AtLeastTwo(n) == [ZERO + n / 10, ZERO + n % 10]
    ensures n >= 100 ==> |AtLeastTwo(n)| >= 3
    ensures AllDigits(AtLeastTwo(n), Decimal)
  {
    if n >= 10 {
      assert Digits(n, Decimal) == Digits(n / 10, Decimal) + [ZERO + n % 10];
      if n >= 100 {
        assert |Digits(n / 10, Decimal)| >= 2;
      }
    }
  }

  lemma FourDigits(h: nat, m: nat)
    requires h < 100 && m < 100
    ensures var d := [ZERO + h / 10, ZERO + h % 10, ZERO + m / 10, ZERO + m % 10];
      AllDigits(d, Decimal) && ZoneSeconds(d) == h * 3600 + m * 60
  {
  }

  lemma HoursMinutes(neg: bool, h: nat, l: nat)
    requires l < 60
    ensures ParseZone([if neg then MINUS else PLUS] + (AtLeastTwo(h) + AtLeastTwo(l))) ==
      if h >= 100 then None else Some(if neg then -(h * 3600 + l * 60) else h * 3600 + l * 60)
  {
    hide AtLeastTwo, Digits, ZoneSeconds;
    TwoDigits(h);
    TwoDigits(l);
    var d := AtLeastTwo(h) + AtLeastTwo(l);
    assert ([if neg then MINUS else PLUS] + d)[1..] == d;
    if h < 100 {
      FourDigits(h, l);
      assert d == [ZERO + h / 10, ZERO + h % 10, ZERO + l / 10, ZERO + l % 10];
    }
  }

  /** Offsets of less than 100 hours, cut to whole minutes, survive their text; others have too long a text. */
  lemma FormatParses(offset: int)
    ensures ParseZone(FormatZone(offset)) ==
      if -6000 < Quo(offset, 60) < 6000 then Some(60 * Quo(offset, 60)) else None
  {
    hide AtLeastTwo, ParseZone, Quo;
    var zone := Quo(offset, 60);
    var m: nat := if zone < 0 then -zone else zone;
    HoursMinutes(zone < 0, m / 60, m % 60);
    assert m / 60 * 3600 + m % 60 * 60 == 60 * m;
  }

  predicate ZoneFits(t: Time) {
    NamesOffset(t) || -6000 < Quo(t.offset, 60) < 6000
  }

  /** The time as it is read back. */
  function NormalTime(t: Time): Time {
    if NamesOffset(t) then t else Time(t.unix, FormatZone(t.offset), 60 * Quo(t.offset, 60))
  }

  lemma TextParses(t: Time)
    ensures ParseZone(ZoneText(t)) == if ZoneFits(t) then Some(NormalTime(t).offset) else None
    ensures NormalTime(t).zone == ZoneText(t) && NormalTime(t).unix == t.unix
    ensures NamesOffset(NormalTime(t)) <==> ZoneFits(t)
    ensures NamesOffset(t) ==> NormalTime(t) == t
  {
    hide ParseZone, FormatZone;
    FormatParses(t.offset);
  }

  predicate Plain(c: byte) {
    c == MINUS || c == PLUS || ZERO <= c <= ZERO + 9
  }

  lemma DigitsPlain(sign: byte, d: seq<byte>)
    requires Plain(sign) && AllDigits(d, Decimal)
    ensures forall c :: c in [sign] + d ==> Plain(c)
  {
  }

  /** A sign and digits: nothing that could be taken for a separator. */
  lemma TextPlain(t: Time)
    ensures forall c :: c in ZoneText(t) ==> Plain(c)
  {
    if NamesOffset(t) {
      DigitsPlain(t.zone[0], t.zone[1..]);
      assert t.zone == [t.zone[0]] + t.zone[1..];
    } else {
      FormatPlain(t.offset);
    }
  }

  lemma FormatPlain(offset: int)
    ensures forall c :: c in FormatZone(offset) ==> Plain(c)
  {
    hide AtLeastTwo, Digits, Quo;
    var zone := Quo(offset, 60);
    var m: nat := if zone < 0 then -zone else zone;
    TwoDigits(m / 60);
    TwoDigits(m % 60);
    DigitsPlain(if zone < 0 then MINUS else PLUS, AtLeastTwo(m / 60) + AtLeastTwo(m % 60));
  }
}
