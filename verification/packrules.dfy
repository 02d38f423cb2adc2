/** The packfile format by the bytes that Git's pack-format names. */
module PackRules {
  import opened Common
  import opened BigEndian
  import opened ByteStrings
  import opened DeltaBytes
  import opened PackFormat
  import opened PackBytes
  import opened PackFile
  import OffsetCode
  import Varint

  /** A file starts with "PACK", version 2 and the number of objects, each 32 bits big-endian. */
  lemma FileHeaderByRule(file: seq<byte>)
    ensures FileHeader(file).Some? <==>
      |file| >= 12 && file[..8] == [0x50, 0x41, 0x43, 0x4b, 0, 0, 0, 2]
    ensures FileHeader(file).Some? ==> FileHeader(file).value == Word32(file, 8)
  {
    if FileHeader(file).Some? {
      WordIs(file, 8);
    }
  }

  /** So does a file that was written, and it ends with the hash of all that. */
  lemma WrittenByRule(lib: Library, items: seq<Item>)
    requires Typed(items) && |items| < 0x1_0000_0000
    ensures var f := FileBytes(lib, items);
      && |f| >= 32 && f[..8] == [0x50, 0x41, 0x43, 0x4b, 0, 0, 0, 2] && Word32(f, 8) == |items|
      && f[|f| - 20..] == lib.sha1(f[..|f| - 20])
  {
    hide Body, Word32, FileStart;
    var s := FileStart(|items|) + Body(lib, items);
    Framed(|items|, Body(lib, items), lib.sha1(s));
    Fits32(|items|);
    WordIs(FileBytes(lib, items), 8);
  }

  // ---------------------------------------------------------------- distances

  /** The low seven bits of each byte, the first being the highest. */
  function SevenBitDigits(s: seq<byte>): nat {
    if s == [] then 0 else 128 * SevenBitDigits(Front(s)) + Last(s) % 128
  }

  /** 2^7 + 2^14 + ... + 2^(7 * (n - 1)). */
  function Skipped(n: nat): nat {
    if n <= 1 then 0 else Skipped(n - 1) + Pow128(n - 1)
  }

  lemma {:induction false} SkippedStep(n: nat)
    requires n > 0
    ensures Skipped(n + 1) == 128 * (Skipped(n) + 1)
  {
    if n == 1 {
      assert Pow128(1) == 128 * Pow128(0) && Skipped(2) == Skipped(1) + Pow128(1);
    } else {
      SkippedStep(n - 1);
      assert Pow128(n) == 128 * Pow128(n - 1);
    }
  }

  /** Each further byte of a distance adds the numbers that shorter forms already express. */
  lemma {:induction false} DistanceByRule(s: seq<byte>)
    requires s != []
    ensures OffsetCode.Value(s) == SevenBitDigits(s) + Skipped(|s|)
  {
    if |s| == 1 {
      assert Front(s) == [] && Last(s) == s[0];
    } else {
      DistanceByRule(Front(s));
      SkippedStep(|s| - 1);
    }
  }

  lemma ShortDistance(a: byte, b: byte)
    requires a < 128 && b < 128
    ensures OffsetCode.Complete([a]) && OffsetCode.Value([a]) == a
    ensures OffsetCode.Complete([128 + a, b]) && OffsetCode.Value([128 + a, b]) == 128 * ((a as int) + 1) + b
  {
    assert Front([128 + a, b]) == [128 + a] && Last([128 + a, b]) == b && Front([a]) == [];
  }

  // ---------------------------------------------------------------- object headers

  /** Groups of seven bits of a size below 2^63, beyond its lowest four bits. */
  predicate SizeGroups(more: seq<byte>) {
    && |more| <= 9 && (forall i :: 0 <= i < |more| ==> more[i] < 128)
    && GroupsNumber(more) < 0x800_0000_0000_0000
  }

  /** The first byte: a flag for more size, three bits of type, four of size; then more size. */
  function SizeBytes(typ: byte, low: byte, more: seq<byte>): seq<byte>
    requires typ < 8 && low < 16 && SizeGroups(more)
  {
    if more == [] then [16 * typ + low] else [128 + 16 * typ + low] + Groups(more)
  }

  lemma LengthTypeByRule(typ: byte, low: byte, more: seq<byte>, rest: seq<byte>)
    requires typ < 8 && low < 16 && SizeGroups(more)
    ensures DecodeLengthType(SizeBytes(typ, low, more) + rest) ==
      if typ == 0 || typ == 5 then None
      else Some(LengthType(typ, low + 16 * GroupsNumber(more), 1 + |more|))
  {
    hide GroupsNumber, Varint.Decode, Groups;
    var s := SizeBytes(typ, low, more) + rest;
    FirstByte(typ, low);
    if more == [] {
      NoGroups();
      assert s[0] == 16 * typ + low;
    } else {
      DecodeGroups(more, 0, rest);
      assert s[0] == 128 + 16 * typ + low && s[1..] == Groups(more) + rest;
    }
  }

  lemma FirstByte(typ: byte, low: byte)
    requires typ < 8 && low < 16
    ensures (16 * typ + low) / 16 % 8 == typ && (16 * typ + low) % 16 == low && 16 * typ + low < 128
    ensures (128 + 16 * typ + low) / 16 % 8 == typ && (128 + 16 * typ + low) % 16 == low
  {
  }

  lemma NoGroups()
    ensures GroupsNumber([]) == 0
  {
  }

  /** What follows type and size: a distance of at most eight bytes, an ID, or nothing. */
  predicate TailFits(typ: int, tail: seq<byte>) {
    if typ == 6 then OffsetCode.Complete(tail) && |tail| <= 8 else |tail| == (if typ == 7 then 20 else 0)
  }

  /**
   The header of an object at `offset`: type codes 1 to 4 are whole objects, 6 is a delta with
   the distance back to its base, 7 one with the ID of its base; 0 and 5 are refused. `tail`
   is the distance or the ID.
   */
  lemma HeaderByRule(offset: nat, typ: byte, low: byte, more: seq<byte>, tail: seq<byte>, rest: seq<byte>)
    requires typ < 8 && low < 16 && SizeGroups(more) && TailFits(typ, tail)
    ensures DecodeHeader(offset, SizeBytes(typ, low, more) + (tail + rest)) ==
      if typ == 0 || typ == 5 then None
      else
        Some(Parsed(Header(offset, typ, low + 16 * GroupsNumber(more),
                           if typ == 6 then offset - (SevenBitDigits(tail) + Skipped(|tail|)) else 0,
                           if typ == 7 then tail else ZERO_ID),
                    1 + |more| + |tail|))
  {
    hide GroupsNumber, SevenBitDigits, Skipped, DecodeLengthType, DecodeTail, DecodeHeader, SizeBytes, SizeGroups, TailFits;
    var h := SizeBytes(typ, low, more);
    LengthTypeByRule(typ, low, more, tail + rest);
    SizeBytesLength(typ, low, more);
    HeaderParts(offset, h, tail + rest);
    if typ != 0 && typ != 5 {
      TailByRule(offset, typ, low + 16 * GroupsNumber(more), 1 + |more|, tail, rest);
    }
  }

  lemma HeaderParts(offset: nat, h: seq<byte>, t: seq<byte>)
    ensures var lt := DecodeLengthType(h + t);
      && (lt.None? ==> DecodeHeader(offset, h + t) == None)
      && (lt.Some? && lt.value.used == |h| ==>
        DecodeHeader(offset, h + t) == DecodeTail(offset, lt.value.typ, lt.value.size, |h|, t))
  {
    hide DecodeLengthType, DecodeTail;
    FirstPart(h, t);
  }

  lemma TailByRule(offset: nat, typ: int, size: nat, n: nat, tail: seq<byte>, rest: seq<byte>)
    requires typ < 8 && TailFits(typ, tail)
    ensures DecodeTail(offset, typ, size, n, tail + rest) ==
      Some(Parsed(Header(offset, typ, size,
                         if typ == 6 then offset - (SevenBitDigits(tail) + Skipped(|tail|)) else 0,
                         if typ == 7 then tail else ZERO_ID),
                  n + |tail|))
  {
    hide SevenBitDigits, Skipped, OffsetCode.Decode, OffsetCode.Complete;
    FirstPart(tail, rest);
    if typ == 6 {
      DistanceRead(tail, rest);
    }
  }

  lemma DistanceRead(tail: seq<byte>, rest: seq<byte>)
    requires OffsetCode.Complete(tail) && |tail| <= 8
    ensures OffsetCode.Decode(tail + rest) == Some((SevenBitDigits(tail) + Skipped(|tail|), |tail|))
  {
    hide SevenBitDigits, Skipped, OffsetCode.Groups, OffsetCode.Value;
    FirstPart(tail, rest);
    OffsetCode.GroupsOfComplete(tail, rest);
    DistanceByRule(tail);
  }

  lemma SizeBytesLength(typ: byte, low: byte, more: seq<byte>)
    requires typ < 8 && low < 16 && SizeGroups(more)
    ensures |SizeBytes(typ, low, more)| == 1 + |more|
  {
    if more != [] {
      DecodeGroups(more, 0, []);
    }
  }

  /** An object in a file: its header as above, then the zlib stream of its data. */
  lemma ObjectByRule(lib: Library, before: seq<byte>, typ: byte, low: byte, more: seq<byte>, tail: seq<byte>, rest: seq<byte>)
    requires typ < 8 && low < 16 && SizeGroups(more) && TailFits(typ, tail)
    ensures var o := |before|;
      var body := o + 1 + |more| + |tail|;
      ReadAt(lib, before + (SizeBytes(typ, low, more) + (tail + rest)), o) ==
      if typ == 0 || typ == 5 || lib.inflate(rest).None? || lib.inflate(rest).value.used > |rest| then None
      else
        Some(Stored(Header(o, typ, low + 16 * GroupsNumber(more),
                           if typ == 6 then o - (SevenBitDigits(tail) + Skipped(|tail|)) else 0,
                           if typ == 7 then tail else ZERO_ID),
                    lib.inflate(rest).value.data, body + lib.inflate(rest).value.used))
  {
    hide GroupsNumber, SevenBitDigits, Skipped, DecodeHeader, SizeBytes, ReadAt, SizeGroups, TailFits;
    var o, h := |before|, SizeBytes(typ, low, more);
    HeaderByRule(o, typ, low, more, tail, rest);
    SizeBytesLength(typ, low, more);
    Regroup(h, tail, rest);
    ReadParts(lib, before, h + (tail + rest), h + tail, rest);
  }

  lemma ReadParts(lib: Library, before: seq<byte>, s: seq<byte>, header: seq<byte>, rest: seq<byte>)
    requires s == header + rest
    ensures var o := |before|;
      var h := DecodeHeader(o, s);
      && (h.None? ==> ReadAt(lib, before + s, o) == None)
      && (h.Some? && h.value.used == |header| ==>
        ReadAt(lib, before + s, o) ==
        if lib.inflate(rest).None? || lib.inflate(rest).value.used > |rest| then None
        else Some(Stored(h.value.hdr, lib.inflate(rest).value.data, o + |header| + lib.inflate(rest).value.used)))
  {
    hide DecodeHeader;
    assert (before + s)[|before|..] == s && (before + s)[|before| + |header|..] == rest;
  }

  /** The type of an object is bits 4 to 6 of the byte at its offset. */
  lemma CodeAt(offset: nat, s: seq<byte>)
    requires DecodeHeader(offset, s).Some?
    ensures s != [] && DecodeHeader(offset, s).value.hdr.typ == s[0] / 16 % 8
    ensures DecodeHeader(offset, s).value.hdr.offset == offset
    ensures 1 <= s[0] / 16 % 8 <= 7 && s[0] / 16 % 8 != 5
  {
  }

  // ---------------------------------------------------------------- what is refused

  /** A size of 2^63 or more is refused. */
  lemma SizeTooLarge(typ: byte, low: byte, more: seq<byte>, rest: seq<byte>)
    requires typ < 8 && low < 16 && Size64(more) && GroupsNumber(more) >= 0x800_0000_0000_0000
    ensures DecodeLengthType([128 + 16 * typ + low] + (Groups(more) + rest)) == None
  {
    hide GroupsNumber, Varint.Decode, Groups;
    DecodeGroups(more, 0, rest);
    assert ([128 + 16 * typ + low] + (Groups(more) + rest))[1..] == Groups(more) + rest;
  }

  /** A distance of more than eight bytes is refused. */
  lemma DistanceTooLong(tail: seq<byte>, rest: seq<byte>)
    requires OffsetCode.Complete(tail) && |tail| > 8
    ensures OffsetCode.Decode(tail + rest) == None
  {
    OffsetCode.GroupsOfComplete(tail, rest);
  }

  // ---------------------------------------------------------------- whole files

  /** The objects lie end to end between `from` and `to`, each as long as its header says. */
  predicate Tiles(lib: Library, file: seq<byte>, objs: seq<Stored>, from: nat, to: int) {
    && (if objs == [] then from == to else objs[0].hdr.offset == from && Last(objs).end == to)
    && (forall i :: 0 <= i < |objs| - 1 ==> objs[i].end == objs[i + 1].hdr.offset)
    && (forall i :: 0 <= i < |objs| ==>
          ReadAt(lib, file, objs[i].hdr.offset) == Some(objs[i]) && |objs[i].data| == objs[i].hdr.size)
  }

  lemma {:induction false} ObjectsTile(lib: Library, file: seq<byte>, o: nat, n: nat, objs: seq<Stored>)
    ensures Objects(lib, file, o, n) == Some(objs) <==> |objs| == n && Tiles(lib, file, objs, o, EndOf(o, objs))
    decreases n
  {
    hide ReadAt;
    if n > 0 {
      var st := ReadAt(lib, file, o);
      if st.Some? {
        ReadAtUses(lib, file, o);
      }
      if Objects(lib, file, o, n) == Some(objs) {
        ObjectsTile(lib, file, st.value.end, n - 1, objs[1..]);
        assert objs == [st.value] + objs[1..];
      }
      if |objs| == n && Tiles(lib, file, objs, o, EndOf(o, objs)) {
        assert objs == [objs[0]] + objs[1..] && st == Some(objs[0]);
        ObjectsTile(lib, file, st.value.end, n - 1, objs[1..]);
      }
    }
  }

  /**
   A file is a pack of the objects `objs` exactly when it starts with "PACK", version 2 and
   their number, they lie end to end behind that, and its last twenty bytes, right behind
   them, are the hash of all the others.
   */
  lemma PackByRule(lib: Library, file: seq<byte>, objs: seq<Stored>)
    ensures PackObjects(lib, file) == Some(objs) <==>
      && |file| >= 20 && file[..8] == [0x50, 0x41, 0x43, 0x4b, 0, 0, 0, 2]
      && |objs| == Word32(file, 8) && Tiles(lib, file, objs, 12, |file| - 20)
      && file[|file| - 20..] == lib.sha1(file[..|file| - 20])
  {
    hide Tiles, Objects, Word32;
    FileHeaderByRule(file);
    if FileHeader(file).Some? {
      ObjectsTile(lib, file, 12, FileHeader(file).value, objs);
      TilesEnd(lib, file, objs, 12, |file| - 20);
    }
  }

  lemma TilesEnd(lib: Library, file: seq<byte>, objs: seq<Stored>, from: nat, to: int)
    ensures Tiles(lib, file, objs, from, to) ==> EndOf(from, objs) == to
    ensures forall i :: 0 <= i < |objs| && Tiles(lib, file, objs, from, EndOf(from, objs)) ==> objs[i].end <= |file|
  {
    hide ReadAt;
    if Tiles(lib, file, objs, from, EndOf(from, objs)) {
      forall i | 0 <= i < |objs|
        ensures objs[i].end <= |file|
      {
        ReadAtUses(lib, file, objs[i].hdr.offset);
      }
    }
  }
}
