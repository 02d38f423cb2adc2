/**
 The packfile format, version 2: file header, object headers, and objects as a header followed
 by a zlib stream. Compression and hashes stay parameters.
 */
module PackFormat {
  import opened Common
  import opened Streams
  import OffsetCode
  import Varint

  /**
   The library functions the package calls. `inflate` gives the data of the zlib stream a
   byte string starts with and the length of that stream; `reclose` is what closing a
   zlib.Writer emits when it was closed before.
   */
  datatype Library = Library(deflate: seq<byte> -> seq<byte>,
                             inflate: seq<byte> -> Option<Stream>,
                             reclose: seq<byte> -> seq<byte>,
                             sha1: seq<byte> -> Id,
                             crc32: seq<byte> -> nat)

  /** The data of a zlib stream and the number of bytes it takes up. */
  datatype Stream = Stream(data: seq<byte>, used: nat)

  function Inflate(lib: Library, s: seq<byte>): Option<Stream> {
    lib.inflate(s)
  }

  /** Inflating undoes deflating and leaves what follows the stream alone. */
  ghost predicate InflatesDeflated(lib: Library) {
    forall d, rest :: Inflates(lib, d, rest)
  }

  predicate Inflates(lib: Library, d: seq<byte>, rest: seq<byte>) {
    Inflate(lib, lib.deflate(d) + rest) == Some(Stream(d, |lib.deflate(d)|))
  }

  /** A zlib stream marks its own end: nothing behind it is looked at. */
  ghost predicate SelfDelimiting(lib: Library) {
    forall s, rest :: EndsItself(lib, s, rest)
  }

  predicate EndsItself(lib: Library, s: seq<byte>, rest: seq<byte>) {
    var z := Inflate(lib, s);
    z.Some? ==> z.value.used <= |s| && Inflate(lib, s[..z.value.used] + rest) == z
  }

  const COMMIT := 1
  const TREE := 2
  const BLOB := 3
  const TAG := 4
  const OFFSET_DELTA := 6
  const REF_DELTA := 7

  predicate IsValidType(typ: int) {
    1 <= typ <= 7 && typ != 5
  }

  predicate IsDelta(typ: int) {
    typ == OFFSET_DELTA || typ == REF_DELTA
  }

  const ZERO_ID: Id := [0, 0, 0, 0, 0, 0, 0, 0, 0, 0, 0, 0, 0, 0, 0, 0, 0, 0, 0, 0]

  datatype Header = Header(offset: nat, typ: int, size: nat, baseOffset: int, baseId: Id)

  datatype Parsed = Parsed(hdr: Header, used: nat)

  const SIZE_LIMIT := 0x8000_0000_0000_0000

  function EncodeLengthType(typ: int, n: nat): seq<byte>
    requires IsValidType(typ)
  {
    if n < 16 then [16 * typ + n] else [128 + 16 * typ + n % 16] + Varint.Encode(n / 16)
  }

  datatype LengthType = LengthType(typ: int, size: nat, used: nat)

  function DecodeLengthType(s: seq<byte>): Option<LengthType> {
    if s == [] || (s[0] / 16) % 8 == 0 || (s[0] / 16) % 8 == 5 then None
    else if s[0] < 128 then Some(LengthType((s[0] / 16) % 8, s[0] % 16, 1))
    else
      match Varint.Decode(s[1..], 0)
      case None => None
      case Some((v, n)) =>
        if v >= SIZE_LIMIT / 16 then None else Some(LengthType((s[0] / 16) % 8, s[0] % 16 + 16 * v, n + 1))
  }

  /** What WriteHeader puts at `offset` for `h`; a base must not lie behind its delta. */
  function EncodeHeader(h: Header, offset: nat): seq<byte>
    requires IsValidType(h.typ) && (h.typ == OFFSET_DELTA ==> h.baseOffset <= offset)
  {
    EncodeLengthType(h.typ, h.size) +
    if h.typ == OFFSET_DELTA then OffsetCode.Encode(offset - h.baseOffset)
    else if h.typ == REF_DELTA then h.baseId
    else []
  }

  /** The header that starts at `s`, which lies at `offset` in the pack, and its length. */
  function DecodeHeader(offset: nat, s: seq<byte>): Option<Parsed> {
    var lt := DecodeLengthType(s);
    if lt.None? || lt.value.used > |s| then None
    else DecodeTail(offset, lt.value.typ, lt.value.size, lt.value.used, s[lt.value.used..])
  }

  /** The part of a header that depends on its type; `n` bytes precede `s`. */
  function DecodeTail(offset: nat, typ: int, size: nat, n: nat, s: seq<byte>): Option<Parsed> {
    if typ == OFFSET_DELTA then
      var x := OffsetCode.Decode(s);
      if x.None? then None
      else Some(Parsed(Header(offset, typ, size, offset - x.value.0, ZERO_ID), n + x.value.1))
    else if typ == REF_DELTA then
      if |s| < 20 then None else Some(Parsed(Header(offset, typ, size, 0, s[..20]), n + 20))
    else Some(Parsed(Header(offset, typ, size, 0, ZERO_ID), n))
  }

  /** What is left of a header after a round trip: where it lies, and the fields its type uses. */
  function Normal(h: Header, offset: nat): Header {
    Header(offset, h.typ, h.size,
           if h.typ == OFFSET_DELTA then h.baseOffset else 0,
           if h.typ == REF_DELTA then h.baseId else ZERO_ID)
  }

  lemma SizeGroups()
    ensures 2 * Pow128(9) == 2 * SIZE_LIMIT
  {
    assert Pow128(2) == 128 * 128 && Pow128(4) == 128 * 128 * Pow128(2) && Pow128(6) == 128 * 128 * Pow128(4);
    assert Pow128(8) == 128 * 128 * Pow128(6) && Pow128(9) == 128 * Pow128(8);
  }

  lemma LengthTypeRoundTrip(typ: int, n: nat, rest: seq<byte>)
    requires IsValidType(typ) && n < SIZE_LIMIT
    ensures DecodeLengthType(EncodeLengthType(typ, n) + rest) == Some(LengthType(typ, n, |EncodeLengthType(typ, n)|))
  {
    hide Varint.Encode, Varint.Decode, Pow128;
    if n >= 16 {
      SizeGroups();
      Varint.DecodeEncode(n / 16, rest, 0);
      assert (EncodeLengthType(typ, n) + rest)[1..] == Varint.Encode(n / 16) + rest;
    }
  }

  /** Reading a written header gives it back, except when the base is too far away. */
  lemma HeaderRoundTrip(h: Header, offset: nat, rest: seq<byte>)
    requires IsValidType(h.typ) && h.size < SIZE_LIMIT && (h.typ == OFFSET_DELTA ==> h.baseOffset <= offset)
    ensures DecodeHeader(offset, EncodeHeader(h, offset) + rest) ==
      if h.typ == OFFSET_DELTA && offset - h.baseOffset >= OffsetCode.LIMIT then None
      else Some(Parsed(Normal(h, offset), |EncodeHeader(h, offset)|))
  {
    var lt := EncodeLengthType(h.typ, h.size);
    var tail := EncodeHeader(h, offset)[|lt|..] + rest;
    assert EncodeHeader(h, offset) + rest == lt + tail;
    LengthTypeRoundTrip(h.typ, h.size, tail);
    assert (lt + tail)[|lt|..] == tail;
    if h.typ == OFFSET_DELTA {
      OffsetCode.DecodeEncode(offset - h.baseOffset, rest);
    }
  }

  lemma DecodeHeaderUses(offset: nat, s: seq<byte>)
    requires DecodeHeader(offset, s).Some?
    ensures var Parsed(h, n) := DecodeHeader(offset, s).value;
      && 0 < n <= |s| && h.offset == offset && IsValidType(h.typ) && h.size < SIZE_LIMIT
      && (h.typ == OFFSET_DELTA ==> h.baseOffset <= offset)
  {
    if s[0] >= 128 {
      Varint.DecodeShort(s[1..], 0);
    }
    var LengthType(typ, size, n) := DecodeLengthType(s).value;
    if typ == OFFSET_DELTA {
      OffsetCode.EncodeDecode(s[n..]);
    }
  }

  lemma LengthTypeSection(s: seq<byte>, t: seq<byte>)
    requires DecodeLengthType(s).Some?
    requires DecodeLengthType(s).value.used <= |s| && s[..DecodeLengthType(s).value.used] <= t
    ensures DecodeLengthType(t) == DecodeLengthType(s)
  {
    var n := DecodeLengthType(s).value.used;
    if s[0] >= 128 {
      Varint.DecodeShort(s[1..], 0);
    }
    assert t[0] == s[..n][0];
    if s[0] >= 128 {
      assert s[1..][..n - 1] == s[..n][1..] && t[1..][..n - 1] == t[..n][1..];
      VarintSection(s[1..], t[1..], 0);
    }
  }

  lemma TailSection(offset: nat, o: nat, typ: int, size: nat, k: nat, s: seq<byte>, t: seq<byte>)
    requires DecodeTail(offset, typ, size, k, s).Some?
    ensures var n := DecodeTail(offset, typ, size, k, s).value.used;
      && k <= n && n - k <= |s|
      && DecodeTail(o, typ, size, k, s[..n - k] + t).Some?
      && DecodeTail(o, typ, size, k, s[..n - k] + t).value.used == n
  {
    if typ == OFFSET_DELTA {
      OffsetCode.EncodeDecode(s);
      OffsetCode.DecodeEncode(OffsetCode.Decode(s).value.0, t);
    }
  }

  /**
   Where a header ends depends neither on where it lies nor on the bytes behind it, so an
   object can be read from its own section of the file.
   */
  lemma HeaderSection(offset: nat, o: nat, s: seq<byte>, t: seq<byte>)
    requires DecodeHeader(offset, s).Some?
    ensures var n := DecodeHeader(offset, s).value.used;
      && n <= |s|
      && DecodeHeader(o, s[..n] + t).Some? && DecodeHeader(o, s[..n] + t).value.used == n
  {
    var n := DecodeHeader(offset, s).value.used;
    DecodeHeaderUses(offset, s);
    var LengthType(typ, size, k) := DecodeLengthType(s).value;
    TailSection(offset, o, typ, size, k, s[k..], t);
    assert s[..n][..k] == s[..k];
    LengthTypeSection(s, s[..n] + t);
    assert (s[..n] + t)[k..] == s[k..][..n - k] + t;
  }

  lemma {:induction false} VarintSection(s: seq<byte>, t: seq<byte>, i: nat)
    requires Varint.Decode(s, i).Some? && Varint.Decode(s, i).value.1 <= |s|
    requires Varint.Decode(s, i).value.1 <= |t| && s[..Varint.Decode(s, i).value.1] <= t
    ensures Varint.Decode(t, i) == Varint.Decode(s, i)
    decreases |s|
  {
    var n := Varint.Decode(s, i).value.1;
    assert t[0] == s[..n][0] == s[0];
    if s[0] >= 128 {
      assert s[1..][..n - 1] == s[..n][1..] && t[1..][..n - 1] == t[..n][1..];
      VarintSection(s[1..], t[1..], i + 1);
    }
  }

  // ---------------------------------------------------------------- reading headers

  /** readLengthType. */
  method ReadLengthType(r: ByteStream) returns (res: Option<(int, nat)>)
    modifies r`pos
    ensures match DecodeLengthType(old(r.Rest()))
      case Some(LengthType(typ, size, n)) =>
        && res == Some((typ, size)) && n <= |old(r.Rest())|
        && r.Rest() == old(r.Rest())[n..] && r.pos == old(r.pos) + n
      case None => res == None
  {
    ghost var s := r.Rest();
    var first := r.ReadByte();
    if first.None? {
      return None;
    }
    var typ := (first.value / 16) % 8;
    if typ == 0 || typ == 5 {
      return None;
    }
    var n := first.value % 16;
    if first.value >= 128 {
      var nn := Varint.Read(r);
      if nn.None? || nn.value >= SIZE_LIMIT / 16 {
        return None;
      }
      ghost var m := Varint.Decode(s[1..], 0).value.1;
      assert s[1..][m..] == s[m + 1..];
      n := n + 16 * nn.value;
    }
    res := Some((typ, n));
  }

  /** readObjectHeader. */
  method ReadObjectHeader(offset: nat, r: ByteStream) returns (hdr: Option<Header>)
    modifies r`pos
    ensures match DecodeHeader(offset, old(r.Rest()))
      case Some(Parsed(h, n)) =>
        && hdr == Some(h) && n <= |old(r.Rest())|
        && r.Rest() == old(r.Rest())[n..] && r.pos == old(r.pos) + n
      case None => hdr == None
  {
    ghost var s := r.Rest();
    var lt := ReadLengthType(r);
    if lt.None? {
      return None;
    }
    ghost var n := DecodeLengthType(s).value.used;
    hdr := ReadTail(offset, lt.value.0, lt.value.1, n, r);
    if hdr.Some? {
      ghost var m := DecodeTail(offset, lt.value.0, lt.value.1, n, s[n..]).value.used - n;
      assert s[n..][m..] == s[n + m..];
    }
  }

  /** The switch on the type in readObjectHeader. */
  method ReadTail(offset: nat, typ: int, size: nat, ghost n: nat, r: ByteStream) returns (hdr: Option<Header>)
    modifies r`pos
    ensures match DecodeTail(offset, typ, size, n, old(r.Rest()))
      case Some(Parsed(h, k)) =>
        && hdr == Some(h) && n <= k && k - n <= |old(r.Rest())|
        && r.Rest() == old(r.Rest())[k - n..] && r.pos == old(r.pos) + k - n
      case None => hdr == None
  {
    ghost var s := r.Rest();
    if typ == OFFSET_DELTA {
      var off := OffsetCode.ReadOffset(r);
      if off.None? {
        return None;
      }
      OffsetCode.EncodeDecode(s);
      hdr := Some(Header(offset, typ, size, offset + off.value, ZERO_ID));
    } else if typ == REF_DELTA {
      var id := r.ReadFull(20);
      if id.None? {
        return None;
      }
      hdr := Some(Header(offset, typ, size, 0, id.value));
    } else {
      hdr := Some(Header(offset, typ, size, 0, ZERO_ID));
    }
  }
}
