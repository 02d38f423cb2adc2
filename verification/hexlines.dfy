/** The tree and parent lines of a commit: a name and an object ID in hexadecimal. */
module HexLines {
  import opened ByteStrings
  import opened Common

  /** "tree " and "parent ". */
  const TREE: seq<byte> := [0x74, 0x72, 0x65, 0x65, 0x20]
  const PARENT: seq<byte> := [0x70, 0x61, 0x72, 0x65, 0x6e, 0x74, 0x20]

  function HexDigit(n: nat): byte
    requires n < 16
  {
    if n < 10 then 0x30 + n else 0x61 + n - 10
  }

  /** Both cases are read; -1 for anything else. */
  function HexValue(c: byte): (v: int)
    ensures -1 <= v < 16
  {
    if 0x30 <= c <= 0x39 then c - 0x30
    else if 0x61 <= c <= 0x66 then c - 0x61 + 10
    else if 0x41 <= c <= 0x46 then c - 0x41 + 10
    else -1
  }

  predicate LowerHex(s: seq<byte>) {
    forall i :: 0 <= i < |s| ==> !(0x41 <= s[i] <= 0x46)
  }

  /** The %x verb on an ID. */
  function Hex(s: seq<byte>): (h: seq<byte>)
    ensures |h| == 2 * |s| && LowerHex(h)
  {
    if s == [] then [] else [HexDigit(s[0] / 16), HexDigit(s[0] % 16)] + Hex(s[1..])
  }

  /** hex.Decode of an even number of digits. */
  function Unhex(h: seq<byte>): (s: Option<seq<byte>>)
    requires |h| % 2 == 0
    ensures s.Some? ==> |s.value| == |h| / 2
  {
    if h == [] then Some([])
    else if HexValue(h[0]) < 0 || HexValue(h[1]) < 0 then None
    else
      match Unhex(h[2..])
      case None => None
      case Some(s) => Some([16 * HexValue(h[0]) + HexValue(h[1])] + s)
  }

  lemma {:induction false} UnhexHex(s: seq<byte>)
    ensures Unhex(Hex(s)) == Some(s)
  {
    if s != [] {
      var h := Hex(s);
      assert h[2..] == Hex(s[1..]);
      UnhexHex(s[1..]);
      assert s == [s[0]] + s[1..];
    }
  }

  lemma {:induction false} HexUnhex(h: seq<byte>)
    requires |h| % 2 == 0 && Unhex(h).Some?
    ensures Hex(Unhex(h).value) == h <==> LowerHex(h)
  {
    if h != [] {
      HexUnhex(h[2..]);
      var s := Unhex(h).value;
      assert s[1..] == Unhex(h[2..]).value;
      assert h == [h[0], h[1]] + h[2..];
      HexPair(h[0], h[1], s[0]);
      assert forall i :: 2 <= i < |h| ==> h[2..][i - 2] == h[i];
    }
  }

  lemma HexPair(a: byte, b: byte, x: byte)
    requires HexValue(a) >= 0 && HexValue(b) >= 0 && x == 16 * HexValue(a) + HexValue(b)
    ensures HexDigit(x / 16) == a && HexDigit(x % 16) == b <==> LowerHex([a, b])
  {
    assert x / 16 == HexValue(a) && x % 16 == HexValue(b);
    var s := [a, b];
    assert s[0] == a && s[1] == b;
  }

  const DIGITS: seq<byte> :=
    [0x30, 0x31, 0x32, 0x33, 0x34, 0x35, 0x36, 0x37, 0x38, 0x39, 0x61, 0x62, 0x63, 0x64, 0x65, 0x66]

  /** Byte `i` is written as two of "0123456789abcdef", the higher half first. */
  lemma {:induction false} HexByRule(s: seq<byte>, i: nat)
    requires i < |s|
    ensures Hex(s)[2 * i] == DIGITS[s[i] / 16] && Hex(s)[2 * i + 1] == DIGITS[s[i] % 16]
  {
    if i > 0 {
      HexByRule(s[1..], i - 1);
    } else {
      DigitIs(s[0] / 16);
      DigitIs(s[0] % 16);
    }
  }

  /** Each is read as its place, and so are "ABCDEF"; nothing else is. */
  lemma DigitIs(n: nat)
    requires n < 16
    ensures HexDigit(n) == DIGITS[n] && HexValue(DIGITS[n]) == n
    ensures n >= 10 ==> HexValue(0x41 + n - 10) == n
  {
  }

  datatype HexLine = HexLine(id: Id, rest: seq<byte>)

  function PrintLine(prefix: seq<byte>, id: Id): seq<byte> {
    prefix + (Hex(id) + [NL])
  }

  /** consumeString, consumeHex and consumeString again: what follows the line's name. */
  function ParseHex(data: seq<byte>): (l: Option<HexLine>)
    ensures l.Some? ==> |l.value.rest| < |data|
  {
    if |data| < 40 then None
    else
      match Unhex(data[..40])
      case None => None
      case Some(id) => if |data| == 40 || data[40] != NL then None else Some(HexLine(id, data[41..]))
  }

  lemma ParsePrintedHex(id: Id, rest: seq<byte>)
    ensures ParseHex(Hex(id) + ([NL] + rest)) == Some(HexLine(id, rest))
  {
    hide Hex, Unhex;
    FirstPart(Hex(id), [NL] + rest);
    UnhexHex(id);
    var data := Hex(id) + ([NL] + rest);
    assert data[40] == NL && data[41..] == rest;
  }

  lemma PrintParsedHex(data: seq<byte>)
    requires ParseHex(data).Some?
    ensures var l := ParseHex(data).value;
      Hex(l.id) + ([NL] + l.rest) == data <==> LowerHex(data[..40])
  {
    hide Hex, Unhex, LowerHex;
    var l := ParseHex(data).value;
    HexUnhex(data[..40]);
    assert data == data[..40] + ([NL] + l.rest);
    FirstPart(Hex(l.id), [NL] + l.rest);
    FirstPart(data[..40], [NL] + l.rest);
  }

  // ---------------------------------------------------------------- parents

  datatype Parents = Parents(ids: seq<Id>, rest: seq<byte>)

  function ParseParents(data: seq<byte>): (p: Option<Parents>)
    ensures p.Some? ==> |p.value.rest| <= |data|
    decreases |data|
  {
    if !HasPrefix(data, PARENT) then Some(Parents([], data))
    else
      match ParseHex(data[7..])
      case None => None
      case Some(l) =>
        match ParseParents(l.rest)
        case None => None
        case Some(p) => Some(Parents([l.id] + p.ids, p.rest))
  }

  function PrintParents(ids: seq<Id>): seq<byte> {
    if ids == [] then [] else PrintLine(PARENT, ids[0]) + PrintParents(ids[1..])
  }

  lemma LineSplit(prefix: seq<byte>, id: Id, rest: seq<byte>)
    ensures PrintLine(prefix, id) + rest == prefix + (Hex(id) + ([NL] + rest))
  {
    hide Hex;
    Regroup(prefix, Hex(id) + [NL], rest);
    Regroup(Hex(id), [NL], rest);
  }

  lemma {:induction false} ParsePrintedParents(ids: seq<Id>, rest: seq<byte>)
    requires !HasPrefix(rest, PARENT)
    ensures ParseParents(PrintParents(ids) + rest) == Some(Parents(ids, rest))
  {
    hide PrintLine, ParseHex;
    if ids == [] {
      assert [] + rest == rest;
    } else {
      var more := PrintParents(ids[1..]) + rest;
      Regroup(PrintLine(PARENT, ids[0]), PrintParents(ids[1..]), rest);
      LineSplit(PARENT, ids[0], more);
      PrefixOf(PARENT, Hex(ids[0]) + ([NL] + more));
      ParsePrintedHex(ids[0], more);
      ParsePrintedParents(ids[1..], rest);
      assert ids == [ids[0]] + ids[1..];
    }
  }

  /** Every parent ID is in lower case. */
  predicate LowerParents(data: seq<byte>)
    decreases |data|
  {
    HasPrefix(data, PARENT) && ParseHex(data[7..]).Some? ==>
      LowerHex(data[7..47]) && LowerParents(ParseHex(data[7..]).value.rest)
  }

  lemma LineOfPrefix(prefix: seq<byte>, data: seq<byte>)
    requires HasPrefix(data, prefix) && ParseHex(data[|prefix|..]).Some?
    ensures var l := ParseHex(data[|prefix|..]).value;
      PrintLine(prefix, l.id) + l.rest == data <==> LowerHex(data[|prefix|..|prefix| + 40])
  {
    var tail := data[|prefix|..];
    assert |tail| > 40;
    assert data[|prefix|..|prefix| + 40] == tail[..40];
    hide ParseHex, PrintLine, LowerHex, Hex;
    var l := ParseHex(tail).value;
    PrintParsedHex(tail);
    LineSplit(prefix, l.id, l.rest);
    assert data == prefix + tail;
    FirstPart(prefix, tail);
    FirstPart(prefix, Hex(l.id) + ([NL] + l.rest));
  }

  lemma {:induction false} PrintParsedParents(data: seq<byte>)
    requires ParseParents(data).Some?
    ensures var p := ParseParents(data).value;
      && !HasPrefix(p.rest, PARENT)
      && (PrintParents(p.ids) + p.rest == data <==> LowerParents(data))
    decreases |data|
  {
    if !HasPrefix(data, PARENT) {
      assert [] + data == data;
    } else {
      assert ParseHex(data[7..]).Some?;
      hide PrintLine, LowerHex;
      var l := ParseHex(data[7..]).value;
      var p := ParseParents(l.rest).value;
      PrintParsedParents(l.rest);
      LineOfPrefix(PARENT, data);
      assert ([l.id] + p.ids)[1..] == p.ids;
      Regroup(PrintLine(PARENT, l.id), PrintParents(p.ids), p.rest);
      SameLine(l.id, PrintParents(p.ids) + p.rest, data, l.rest);
    }
  }

  /** A printed line in front leaves no choice for what follows it. */
  lemma SameLine(id: Id, printed: seq<byte>, data: seq<byte>, rest: seq<byte>)
    requires HasPrefix(data, PARENT) && ParseHex(data[7..]) == Some(HexLine(id, rest))
    ensures PrintLine(PARENT, id) + printed == data ==> printed == rest
  {
    hide PrintLine, ParseHex;
    if PrintLine(PARENT, id) + printed == data {
      LineSplit(PARENT, id, printed);
      PrefixOf(PARENT, Hex(id) + ([NL] + printed));
      ParsePrintedHex(id, printed);
    }
  }
}
