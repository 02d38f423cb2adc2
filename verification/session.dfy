/**
 Whole sessions: a file written object by object, each in pieces of any size, and read back
 with whatever is skipped; and what an arbitrary sequence of calls of the Writer amounts to when
 it is closed at the end.
 */
module Session {
  import opened Common
  import opened BigEndian
  import opened PackFormat
  import opened PackFile
  import opened PackBytes
  import opened PackWriter
  import opened PackReader

  /** What a caller of the Writer must keep to: sizes as declared, bases before their deltas. */
  ghost predicate Acceptable(lib: Library, items: seq<Item>) {
    && Typed(items) && |items| < 0x1_0000_0000
    && |Body(lib, items)| < 0x7fff_0000_0000_0000
    && forall i :: 0 <= i < |items| ==> AcceptableAt(items[i], OffsetOf(lib, items, i))
  }

  predicate AcceptableAt(it: Item, offset: nat) {
    |it.data| == it.hdr.size && it.hdr.baseOffset >= 0 && (it.hdr.typ == OFFSET_DELTA ==> it.hdr.baseOffset <= offset)
  }

  /** Write the data of one object in pieces of arbitrary size. */
  method WriteData(w: Writer, data: seq<byte>)
    requires w.Valid() && w.zw == Open([]) && w.dataRemaining == |data| && w.spoiled == []
    modifies w`zw, w`dataRemaining, w`history
    ensures w.Valid() && w.zw == Open(data) && w.dataRemaining == 0
  {
    hide Image;
    var done: nat := 0;
    while done < |data|
      invariant done <= |data| && w.Valid() && w.zw == Open(data[..done]) && w.dataRemaining == |data| - done
    {
      var k: nat :| 1 <= k <= |data| - done;
      var n, ok := w.Write(data[done..done + k]);
      assert data[..done] + data[done..done + k][..n] == data[..done + k];
      done := done + k;
    }
    assert data[..done] == data;
  }

  lemma OffsetFits(lib: Library, items: seq<Item>, i: nat)
    requires Typed(items) && i <= |items| && |Body(lib, items)| < 0x7fff_0000_0000_0000
    ensures OffsetOf(lib, items, i) < 0x8000_0000_0000_0000
  {
    BodyPrefix(lib, items, i);
  }

  /** With the data of object `i` closed, the file reaches to object `i + 1`. */
  lemma NextLies(lib: Library, count: nat, items: seq<Item>, i: nat)
    requires Typed(items) && i < |items|
    ensures |Image(lib, count, items[..i], Some(items[i].hdr), [])| + |lib.deflate(items[i].data)| == OffsetOf(lib, items, i + 1)
  {
    assert items[..i] + [items[i]] == items[..i + 1];
    assert items[i] == Item(items[i].hdr, items[i].data);
    ImageClose(lib, count, items[..i], items[i].hdr, items[i].data);
    ImageLength(lib, count, items[..i + 1]);
  }

  /** The Writer has taken the first `i` objects completely. */
  ghost predicate Between(w: Writer, items: seq<Item>, i: nat)
    requires Typed(items) && i <= |items|
    reads w
  {
    && w.Valid() && w.declared == |items| && w.spoiled == []
    && w.dataRemaining == 0 && !w.zw.Closed? && w.nobjs == |items| - i
    && w.Begun() == items[..i] && w.NextOffset() == OffsetOf(w.lib, items, i)
  }

  /** Write one object. */
  method WriteOne(w: Writer, items: seq<Item>, i: nat) returns (offset: nat)
    requires Acceptable(w.lib, items) && i < |items| && Between(w, items, i)
    modifies w
    ensures Between(w, items, i + 1) && offset == OffsetOf(w.lib, items, i)
  {
    hide Body, Image, FileBytes, OffsetOf;
    OffsetFits(w.lib, items, i);
    assert AcceptableAt(items[i], OffsetOf(w.lib, items, i));
    var o := w.WriteHeader(items[i].hdr);
    offset := o.value;
    WriteData(w, items[i].data);
    NextLies(w.lib, |items|, items, i);
    assert items[i] == Item(items[i].hdr, items[i].data);
    assert items[..i] + [items[i]] == items[..i + 1];
  }

  lemma StartLies(lib: Library, items: seq<Item>)
    requires Typed(items)
    ensures items[..0] == [] && OffsetOf(lib, items, 0) == 12
  {
    assert items[..0] == [];
  }

  /** A Writer given the objects it was promised produces their file, and says where each lies. */
  method WriteSession(lib: Library, items: seq<Item>) returns (file: seq<byte>, offsets: seq<nat>)
    requires Acceptable(lib, items)
    ensures file == FileBytes(lib, items)
    ensures |offsets| == |items| && forall i :: 0 <= i < |items| ==> offsets[i] == OffsetOf(lib, items, i)
  {
    hide Body, Image, FileBytes, OffsetOf, Acceptable;
    assert Acceptable(lib, items) && Typed(items) && |items| < 0x1_0000_0000 by {
      AcceptableTyped(lib, items);
    }
    var w := new Writer(lib, |items|);
    offsets := [];
    StartLies(lib, items);
    for i := 0 to |items|
      invariant fresh(w) && w.lib == lib && Between(w, items, i)
      invariant |offsets| == i && forall k :: 0 <= k < i ==> offsets[k] == OffsetOf(lib, items, k)
    {
      var offset := WriteOne(w, items, i);
      offsets := offsets + [offset];
    }
    assert items[..|items|] == items;
    var ok := w.Close();
    file := w.out;
  }

  /** What a caller may ask of a Writer. */
  datatype Call = Head(hdr: Header) | Data(p: seq<byte>) | Finish

  /** `h` is what came of `calls`, in order; only a header may have been left out. */
  predicate Traces(h: seq<Event>, calls: seq<Call>)
    decreases |calls|
  {
    if calls == [] then h == []
    else
      match Last(calls)
      case Head(hdr) =>
        || Traces(h, Front(calls))
        || (h != [] && Last(h).Headed? && Last(h).hdr == hdr && Traces(Front(h), Front(calls)))
      case Data(p) => h != [] && Last(h).Wrote? && Last(h).n <= |p| && Traces(Front(h), Front(calls))
      case Finish => h != [] && Last(h).Finished? && Traces(Front(h), Front(calls))
  }

  /** Make the calls, leaving out headers whose base would lie behind them, which no caller may offer. */
  method Perform(w: Writer, calls: seq<Call>)
    requires w.Valid() && w.history == []
    modifies w
    ensures w.Valid() && Traces(w.history, calls)
  {
    hide Image;
    for i := 0 to |calls|
      invariant w.Valid() && Traces(w.history, calls[..i])
    {
      assert Front(calls[..i + 1]) == calls[..i] && Last(calls[..i + 1]) == calls[i];
      ghost var before := w.history;
      match calls[i]
      case Head(hdr) =>
        var next := w.NextOffset();
        if next < 0x8000_0000_0000_0000 && (hdr.typ == OFFSET_DELTA ==> hdr.baseOffset <= next) {
          var o := w.WriteHeader(hdr);
          assert Front(w.history) == before;
        }
      case Data(p) =>
        var n, ok := w.Write(p);
        assert Front(w.history) == before;
      case Finish =>
        var ok := w.Close();
        assert Front(w.history) == before;
    }
    assert calls[..|calls|] == calls;
  }

  /**
   Any session, and a Close at its end. It succeeds exactly when the objects promised were begun
   and nothing is missing of the last; the output is then the complete file of the objects if
   and only if no call before it was a header too many or a Close that succeeded.
   */
  method AnySession(lib: Library, count: nat, calls: seq<Call>) returns (w: Writer, ok: bool, ghost h: seq<Event>)
    requires count < 0x1_0000_0000 && ReclosesVisibly(lib)
    ensures w.Valid() && w.lib == lib && w.declared == count
    ensures Traces(h, calls) && w.history == h + [Finished(ok)]
    ensures ok <==> Begins(h) == count && Missing(h) == 0
    ensures ok ==> (w.out == FileBytes(lib, w.items) <==> forall i :: 0 <= i < |h| ==> !Spoils(h[..i], h[i]))
  {
    hide Image, Body, FileBytes, Spoils;
    w := new Writer(lib, count);
    Perform(w, calls);
    h := w.history;
    SpoiltIff(h);
    ok := w.Close();
  }

  /** One empty object, one header too many, and Close: it succeeds, and the file is not complete. */
  method SurplusHeader(lib: Library) returns (w: Writer, ok: bool)
    requires ReclosesVisibly(lib)
    ensures ok && w.lib == lib && w.declared == 1 && |w.items| == 1
    ensures Typed(w.items) && w.out != FileBytes(lib, w.items)
  {
    hide Image, Body, FileBytes;
    w := new Writer(lib, 1);
    var hdr := Header(0, BLOB, 0, 0, ZERO_ID);
    var first := w.WriteHeader(hdr);
    ghost var before := w.history;
    var second := w.WriteHeader(hdr);
    assert Front(w.history) == before && Last(w.history) == Headed(hdr, false);
    ok := w.Close();
  }

  lemma AcceptableTyped(lib: Library, items: seq<Item>)
    requires Acceptable(lib, items)
    ensures Typed(items) && |items| < 0x1_0000_0000
  {
  }

  /** The reads that ask for anything. */
  function Asking(sizes: seq<nat>): nat {
    if sizes == [] then 0 else Asking(Front(sizes)) + if Last(sizes) > 0 then 1 else 0
  }

  /** `part` is a prefix, and all of the data if there were as many asking reads as bytes. */
  predicate ReadBy(part: seq<byte>, data: seq<byte>, sizes: seq<nat>) {
    part <= data && (Asking(sizes) >= |data| ==> part == data)
  }

  /** Read some of the current object, with buffers of the given sizes. */
  method ReadSome(r: Reader, sizes: seq<nat>) returns (part: seq<byte>)
    requires r.dataReader.Some? && |r.dataReader.value| == r.remaining
    modifies r`dataReader, r`remaining
    ensures r.dataReader.Some? && |r.dataReader.value| == r.remaining
    ensures old(r.dataReader.value) == part + r.dataReader.value
    ensures ReadBy(part, old(r.dataReader.value), sizes)
  {
    part := [];
    assert sizes[..|sizes|] == sizes;
    for i := 0 to |sizes|
      invariant r.dataReader.Some? && |r.dataReader.value| == r.remaining
      invariant old(r.dataReader.value) == part + r.dataReader.value
      invariant r.dataReader.value != [] ==> |part| >= Asking(sizes[..i])
    {
      assert Front(sizes[..i + 1]) == sizes[..i] && Last(sizes[..i + 1]) == sizes[i];
      ghost var rest := r.dataReader.value;
      var p, res := r.Read(sizes[i]);
      Grow(part, rest, |p|);
      part := part + p;
    }
  }

  lemma Grow(part: seq<byte>, rest: seq<byte>, k: nat)
    requires k <= |rest|
    ensures part + rest == (part + rest[..k]) + rest[k..]
  {
  }

  /** The Reader has handed out the first `i` objects and is inside the last of them. */
  ghost predicate At(r: Reader, items: seq<Item>, i: nat)
    requires Typed(items) && i <= |items|
    reads r, r.r
  {
    if i == 0 then r.r.pos == 0 && r.dataReader == None
    else
      && r.r.pos == OffsetOf(r.lib, items, i) && r.nobjs == |items| - i
      && r.dataReader.Some? && |r.dataReader.value| == r.remaining
  }

  /** Read one header, and some of the data. */
  method ReadOne(r: Reader, items: seq<Item>, extra: seq<byte>, i: nat, sizes: seq<nat>)
      returns (hdr: Header, part: seq<byte>)
    requires InflatesDeflated(r.lib) && Writable(r.lib, items) && i < |items|
    requires r.r.data == FileBytes(r.lib, items) + extra && At(r, items, i)
    modifies r, r.r`pos
    ensures At(r, items, i + 1)
    ensures hdr == Normal(items[i].hdr, OffsetOf(r.lib, items, i)) && ReadBy(part, items[i].data, sizes)
  {
    hide ReadAt, FileBytes, OffsetOf, FileHeader;
    HeaderOf(r.lib, items, extra);
    OffsetPositive(r.lib, items, i);
    OffsetPositive(r.lib, items, i + 1);
    WrittenAt(r.lib, items, extra, i);
    assert WritableAt(items[i], OffsetOf(r.lib, items, i));
    var res := r.Next();
    hdr := res.hdr;
    part := ReadSome(r, sizes);
  }

  lemma OffsetPositive(lib: Library, items: seq<Item>, i: nat)
    requires Typed(items) && i <= |items|
    ensures OffsetOf(lib, items, i) >= 12
  {
  }

  /**
   Reading a completed file back gives every header, normalized and at its offset, and then the
   end, whatever is skipped; and of each object's data a prefix however reads are split, all of
   it if as many reads ask for something as there are bytes.
   */
  method ReadSession(lib: Library, items: seq<Item>, extra: seq<byte>, plan: seq<seq<nat>>)
      returns (hdrs: seq<Header>, parts: seq<seq<byte>>, end: NextResult)
    requires InflatesDeflated(lib) && Writable(lib, items) && |plan| == |items|
    ensures |hdrs| == |parts| == |items| && end == EndOfPack
    ensures forall i :: 0 <= i < |items| ==>
      hdrs[i] == Normal(items[i].hdr, OffsetOf(lib, items, i)) && ReadBy(parts[i], items[i].data, plan[i])
  {
    hide ReadAt, FileBytes, OffsetOf, FileHeader, WritableAt, ReadBy;
    var r := new Reader(lib, FileBytes(lib, items) + extra);
    hdrs, parts := [], [];
    for i := 0 to |items|
      invariant fresh(r) && fresh(r.r) && r.lib == lib && r.r.data == FileBytes(lib, items) + extra
      invariant At(r, items, i)
      invariant |hdrs| == |parts| == i
      invariant forall k :: 0 <= k < i ==>
        hdrs[k] == Normal(items[k].hdr, OffsetOf(lib, items, k)) && ReadBy(parts[k], items[k].data, plan[k])
    {
      var hdr, part := ReadOne(r, items, extra, i, plan[i]);
      hdrs, parts := hdrs + [hdr], parts + [part];
    }
    HeaderOf(lib, items, extra);
    OffsetPositive(lib, items, |items|);
    end := r.Next();
  }

  /** The file header, where the first object lies, and that the trailer follows the last. */
  lemma HeaderOf(lib: Library, items: seq<Item>, extra: seq<byte>)
    requires Typed(items) && |items| < 0x1_0000_0000
    ensures FileHeader(FileBytes(lib, items) + extra) == Some(|items|)
    ensures OffsetOf(lib, items, 0) == 12
    ensures |FileBytes(lib, items) + extra| >= OffsetOf(lib, items, |items|) + 20
  {
    var body := Body(lib, items);
    Framed(|items|, body, lib.sha1(FileStart(|items|) + body));
    Fits32(|items|);
    assert items[..0] == [] && items[..|items|] == items;
    var file := FileBytes(lib, items);
    assert (file + extra)[..8] == file[..8] && (file + extra)[8..12] == file[8..12];
  }
}
