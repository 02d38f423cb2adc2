/** Packets by their bytes: length digits, data and channel codes. */
module PktBytes {
  import opened ByteStrings
  import opened Common
  import opened HexLines
  import opened PackStream
  import opened PktLine

  /** A number below 2^16 in four digits of "0123456789abcdef". */
  function FourDigits(n: nat): seq<byte>
    requires n < 0x1_0000
  {
    [DIGITS[n / 0x1000], DIGITS[n / 0x100 % 16], DIGITS[n / 0x10 % 16], DIGITS[n % 16]]
  }

  lemma HexOfTwo(x: byte, y: byte)
    ensures Hex([x, y]) == [HexDigit(x / 16), HexDigit(x % 16), HexDigit(y / 16), HexDigit(y % 16)]
    ensures Unhex(Hex([x, y])) == Some([x, y])
  {
    assert [x, y][1..] == [y] && [y][1..] == [];
    assert Hex([y]) == [HexDigit(y / 16), HexDigit(y % 16)];
    UnhexHex([x, y]);
  }

  lemma Nibbles(n: nat)
    requires n < 0x1_0000
    ensures n / 256 < 256 && n / 256 / 16 == n / 0x1000 && n / 256 % 16 == n / 0x100 % 16
    ensures n % 256 / 16 == n / 0x10 % 16 && n % 256 % 16 == n % 16
  {
  }

  lemma HexOfWord(n: nat)
    requires n < 0x1_0000
    ensures FourDigits(n) == Hex([n / 256, n % 256])
  {
    hide Hex, Unhex, HexDigit, HexValue;
    Nibbles(n);
    HexOfTwo(n / 256, n % 256);
    DigitIs(n / 0x1000);
    DigitIs(n / 0x100 % 16);
    DigitIs(n / 0x10 % 16);
    DigitIs(n % 16);
  }

  /** "0000" is a flush and "0001" a delimiter; at most 65516 bytes go into a packet, behind their length and four more. */
  lemma EncodeByRule(payload: seq<byte>)
    ensures Sendable(Packet(Flush, [])) && Encode(Packet(Flush, [])) == [0x30, 0x30, 0x30, 0x30]
    ensures Sendable(Packet(Delim, [])) && Encode(Packet(Delim, [])) == [0x30, 0x30, 0x30, 0x31]
    ensures Sendable(Packet(Data, payload)) <==> 1 <= |payload| <= 65516
    ensures 1 <= |payload| <= 65516 ==> Encode(Packet(Data, payload)) == FourDigits(|payload| + 4) + payload
  {
    hide Hex;
    HexOfWord(0);
    HexOfWord(1);
    if 1 <= |payload| <= 65516 {
      HexOfWord(|payload| + 4);
    }
  }

  /**
   Reading a length: 0 and 1 stand alone, 2, 3 and anything above 65520 are refused, and
   otherwise it counts the data and its own four digits.
   */
  lemma ReadByRule(n: nat, rest: seq<byte>)
    requires n < 0x1_0000
    ensures ParsePacket(FourDigits(n) + rest) ==
      if n == 0 then Some(Parsed(Packet(Flush, []), rest))
      else if n == 1 then Some(Parsed(Packet(Delim, []), rest))
      else if n < 4 || n > 65520 || n - 4 > |rest| then None
      else Some(Parsed(Packet(Data, rest[..n - 4]), rest[n - 4..]))
  {
    hide Hex, Unhex, FourDigits;
    HexOfWord(n);
    HexOfTwo(n / 256, n % 256);
    FirstPart(Hex([n / 256, n % 256]), rest);
    assert Word([n / 256, n % 256]) == n;
  }

  /**
   A packet of a stream: behind the byte 1 is pack data, behind 2 a progress message, and a
   flush ends the stream; a byte that is none of 1, 2 and 3 is an error.
   */
  lemma ChannelByRule(code: byte, body: seq<byte>, rest: seq<byte>)
    requires |body| <= 65515
    ensures var c, data := Demux(rest), FourDigits(|body| + 5) + ([code] + body) + rest;
      && (code == 1 ==> Demux(data) == Content(body + c.pack, c.progress, c.ending))
      && (code == 2 ==> Demux(data) == Content(c.pack, [body] + c.progress, c.ending))
      && (code == 0 || code > 3 ==> Demux(data) == Content([], [], BadCode(code)))
    ensures Demux([0x30, 0x30, 0x30, 0x30] + rest) == Content([], [], Eof)
  {
    hide ParsePacket, FourDigits;
    var d := FourDigits(|body| + 5);
    Regroup(d, [code] + body, rest);
    ReadByRule(|body| + 5, ([code] + body) + rest);
    FirstPart([code] + body, rest);
    assert ([code] + body)[1..] == body;
    assert [] + Demux(rest).pack == Demux(rest).pack && [] + Demux(rest).progress == Demux(rest).progress;
    ReadByRule(0, rest);
    assert FourDigits(0) == [0x30, 0x30, 0x30, 0x30] by {
      ZeroDigits();
    }
  }

  lemma ZeroDigits()
    ensures FourDigits(0) == [0x30, 0x30, 0x30, 0x30]
  {
  }

  /** Behind the byte 3 is an error message, without the line end if it ends in one. */
  lemma ErrorByRule(body: seq<byte>, rest: seq<byte>)
    requires |body| <= 65514 && (body != [] ==> Last(body) != 0x0a)
    ensures Demux(FourDigits(|body| + 5) + ([3] + body) + rest) == Content([], [], ServerError(body))
    ensures Demux(FourDigits(|body| + 6) + ([3] + (body + [0x0a])) + rest) == Content([], [], ServerError(body))
  {
    hide ParsePacket, FourDigits;
    var line := body + [0x0a];
    Regroup(FourDigits(|body| + 5), [3] + body, rest);
    Regroup(FourDigits(|body| + 6), [3] + line, rest);
    ReadByRule(|body| + 5, ([3] + body) + rest);
    ReadByRule(|body| + 6, ([3] + line) + rest);
    FirstPart([3] + body, rest);
    FirstPart([3] + line, rest);
    assert ([3] + body)[1..] == body && ([3] + line)[1..] == line;
    assert Front(line) == body;
  }
}
