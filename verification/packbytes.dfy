/**
 The bytes of a complete packfile for a list of objects, as the Writer leaves them and the
 Reader and the indexer find them: the file header, each object at its offset, and the trailing
 checksum; and that they can be read back object by object.
 */
module PackBytes {
  import opened Common
  import opened BigEndian
  import opened PackFormat
  import opened PackFile
  import OffsetCode

  /** An object as it is handed to a Writer. */
  datatype Item = Item(hdr: Header, data: seq<byte>)

  /** The objects one behind the other, from offset 12 on. */
  function Body(lib: Library, items: seq<Item>): seq<byte>
    requires forall i :: 0 <= i < |items| ==> IsValidType(items[i].hdr.typ)
  {
    if items == [] then [] else Body(lib, Front(items)) + ItemBytes(lib, Last(items), 12 + |Body(lib, Front(items))|)
  }

  function ItemBytes(lib: Library, it: Item, offset: nat): seq<byte>
    requires IsValidType(it.hdr.typ)
  {
    HeaderBytes(it.hdr, offset) + lib.deflate(it.data)
  }

  /** EncodeHeader, and nothing where it has no meaning. */
  function HeaderBytes(h: Header, offset: nat): seq<byte>
    requires IsValidType(h.typ)
  {
    if h.typ == OFFSET_DELTA && h.baseOffset > offset then [] else EncodeHeader(h, offset)
  }

  function FileStart(count: nat): seq<byte> {
    MAGIC + Bytes(count, 4)
  }

  predicate Typed(items: seq<Item>) {
    forall i :: 0 <= i < |items| ==> IsValidType(items[i].hdr.typ)
  }

  /** Where item `i` starts. */
  function OffsetOf(lib: Library, items: seq<Item>, i: nat): nat
    requires Typed(items) && i <= |items|
  {
    12 + |Body(lib, items[..i])|
  }

  /**
   What a Writer demands of its caller, and that every base is near enough to be read back:
   each object as long as declared, bases before their deltas.
   */
  ghost predicate Writable(lib: Library, items: seq<Item>) {
    && Typed(items) && |items| < 0x1_0000_0000
    && forall i :: 0 <= i < |items| ==> WritableAt(items[i], OffsetOf(lib, items, i))
  }

  predicate WritableAt(it: Item, offset: nat) {
    && |it.data| == it.hdr.size < SIZE_LIMIT
    && it.hdr.baseOffset >= 0
    && (it.hdr.typ == OFFSET_DELTA ==> it.hdr.baseOffset <= offset && offset - it.hdr.baseOffset < OffsetCode.LIMIT)
  }

  /** A complete packfile. */
  function FileBytes(lib: Library, items: seq<Item>): seq<byte>
    requires Typed(items)
  {
    var s := FileStart(|items|) + Body(lib, items);
    s + lib.sha1(s)
  }

  lemma BodyNext(lib: Library, items: seq<Item>, i: nat)
    requires Typed(items) && i < |items|
    ensures Body(lib, items[..i + 1]) == Body(lib, items[..i]) + ItemBytes(lib, items[i], OffsetOf(lib, items, i))
  {
    assert Front(items[..i + 1]) == items[..i];
  }

  lemma {:induction false} BodyPrefix(lib: Library, items: seq<Item>, i: nat)
    requires Typed(items) && i <= |items|
    ensures Body(lib, items[..i]) <= Body(lib, items)
    decreases |items| - i
  {
    if i == |items| {
      assert items[..i] == items;
    } else {
      BodyNext(lib, items, i);
      BodyPrefix(lib, items, i + 1);
    }
  }

  /** A piece of the middle part of three. */
  lemma Piece(start: seq<byte>, body: seq<byte>, tail: seq<byte>, before: seq<byte>, item: seq<byte>)
    requires before + item <= body
    ensures var f := start + body + tail;
      var o := |start| + |before|;
      o + |item| <= |f| && f[o..] == item + f[o + |item|..]
  {
    var f := start + body + tail;
    var o := |start| + |before|;
    assert body[|before|..|before| + |item|] == item;
    assert f[o..o + |item|] == item;
  }

  /** What lies in the file from object `i` on starts with that object. */
  lemma FileAt(lib: Library, items: seq<Item>, extra: seq<byte>, i: nat)
    requires Typed(items) && i < |items|
    ensures var o := OffsetOf(lib, items, i);
      var file := FileBytes(lib, items) + extra;
      && o + |ItemBytes(lib, items[i], o)| == OffsetOf(lib, items, i + 1) <= |file|
      && file[o..] == ItemBytes(lib, items[i], o) + file[OffsetOf(lib, items, i + 1)..]
  {
    BodyNext(lib, items, i);
    BodyPrefix(lib, items, i + 1);
    hide Body, ItemBytes;
    var start, body := FileStart(|items|), Body(lib, items);
    Piece(start, body, lib.sha1(start + body) + extra, Body(lib, items[..i]), ItemBytes(lib, items[i], OffsetOf(lib, items, i)));
    assert FileBytes(lib, items) + extra == start + body + (lib.sha1(start + body) + extra);
  }

  /** Each written object can be read at its offset, with its header and data. */
  lemma WrittenAt(lib: Library, items: seq<Item>, extra: seq<byte>, i: nat)
    requires InflatesDeflated(lib) && Writable(lib, items) && i < |items|
    ensures ReadAt(lib, FileBytes(lib, items) + extra, OffsetOf(lib, items, i)) == Some(StoredAt(lib, items, i))
  {
    hide ReadAt, FileBytes, ItemBytes;
    var o := OffsetOf(lib, items, i);
    assert WritableAt(items[i], o);
    FileAt(lib, items, extra, i);
    hide OffsetOf, WritableAt;
    ReadItem(lib, items[i], o, FileBytes(lib, items) + extra, (FileBytes(lib, items) + extra)[OffsetOf(lib, items, i + 1)..]);
  }

  lemma ReadItem(lib: Library, it: Item, o: nat, file: seq<byte>, rest: seq<byte>)
    requires InflatesDeflated(lib) && IsValidType(it.hdr.typ) && WritableAt(it, o)
    requires o <= |file| && file[o..] == ItemBytes(lib, it, o) + rest
    ensures ReadAt(lib, file, o) == Some(Stored(Normal(it.hdr, o), it.data, o + |ItemBytes(lib, it, o)|))
  {
    var hb, z := EncodeHeader(it.hdr, o), lib.deflate(it.data);
    assert file[o..] == hb + (z + rest);
    HeaderRoundTrip(it.hdr, o, z + rest);
    assert file[o + |hb|..] == file[o..][|hb|..] == z + rest;
    assert Inflates(lib, it.data, rest);
  }

  function StoredAt(lib: Library, items: seq<Item>, i: nat): Stored
    requires Typed(items) && i < |items|
  {
    Stored(Normal(items[i].hdr, OffsetOf(lib, items, i)), items[i].data, OffsetOf(lib, items, i + 1))
  }

  function StoredFrom(lib: Library, items: seq<Item>, i: nat): seq<Stored>
    requires Typed(items) && i <= |items|
    decreases |items| - i
  {
    if i == |items| then [] else [StoredAt(lib, items, i)] + StoredFrom(lib, items, i + 1)
  }

  /** The objects read are the items, in order, and the last one ends where the body ends. */
  lemma {:induction false} StoredItems(lib: Library, items: seq<Item>, i: nat, k: nat)
    requires Typed(items) && i <= |items| && k < |items| - i
    ensures |StoredFrom(lib, items, i)| == |items| - i && StoredFrom(lib, items, i)[k] == StoredAt(lib, items, i + k)
    decreases |items| - i
  {
    hide OffsetOf;
    if i + 1 < |items| {
      StoredItems(lib, items, i + 1, if k > 0 then k - 1 else 0);
    }
  }

  lemma {:induction false} ObjectsWritten(lib: Library, items: seq<Item>, i: nat)
    requires InflatesDeflated(lib) && Writable(lib, items) && i <= |items|
    ensures Objects(lib, FileBytes(lib, items), OffsetOf(lib, items, i), |items| - i) == Some(StoredFrom(lib, items, i))
    decreases |items| - i
  {
    hide ReadAt, FileBytes, OffsetOf;
    if i < |items| {
      WrittenAt(lib, items, [], i);
      assert FileBytes(lib, items) + [] == FileBytes(lib, items);
      assert WritableAt(items[i], OffsetOf(lib, items, i));
      ObjectsWritten(lib, items, i + 1);
    }
  }

  lemma Framed(count: nat, body: seq<byte>, sum: seq<byte>)
    requires |sum| == 20
    ensures var s := FileStart(count) + body;
      var file := s + sum;
      && |s| == 12 + |body| && |file| == |s| + 20
      && file[..8] == MAGIC && file[8..12] == Bytes(count, 4)
      && file[..|s|] == s && file[|s|..] == sum
  {
  }

  /** A file that a Writer completed passes the serial pass of BuildIndex, object for object. */
  lemma WrittenIndexes(lib: Library, items: seq<Item>)
    requires InflatesDeflated(lib) && Writable(lib, items)
    ensures PackObjects(lib, FileBytes(lib, items)) == Some(StoredFrom(lib, items, 0))
  {
    var body := Body(lib, items);
    Framed(|items|, body, lib.sha1(FileStart(|items|) + body));
    Fits32(|items|);
    ObjectsWritten(lib, items, 0);
    assert OffsetOf(lib, items, 0) == 12 by {
      assert items[..0] == [];
    }
    assert OffsetOf(lib, items, |items|) == 12 + |body| by {
      assert items[..|items|] == items;
    }
    hide Objects, OffsetOf, Body, FileStart;
    if |items| > 0 {
      StoredItems(lib, items, 0, |items| - 1);
    }
  }
}
