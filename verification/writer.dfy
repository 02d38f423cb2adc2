/** The packfile Writer: a state machine that must be given exactly the objects it was promised. */
module PackWriter {
  import opened Common
  import opened BigEndian
  import opened PackFormat
  import opened PackFile
  import opened PackBytes
  import OffsetCode
  import Varint

  /** appendVarint. */
  method AppendVarint(dst: seq<byte>, x: nat) returns (r: seq<byte>)
    ensures r == dst + Varint.Encode(x)
  {
    var y := x;
    r := dst;
    while y >= 128
      invariant dst + Varint.Encode(x) == r + Varint.Encode(y)
    {
      assert r + ([128 + y % 128] + Varint.Encode(y / 128)) == r + [128 + y % 128] + Varint.Encode(y / 128);
      r := r + [y % 128 + 128];
      y := y / 128;
    }
    r := r + [y];
  }

  lemma Behind(dst: seq<byte>, c: byte, more: seq<byte>)
    ensures (dst + [c]) + more == dst + ([c] + more)
  {
  }

  /** appendLengthType. */
  method AppendLengthType(dst: seq<byte>, typ: int, n: nat) returns (r: seq<byte>)
    requires IsValidType(typ)
    ensures r == dst + EncodeLengthType(typ, n)
  {
    hide Varint.Encode;
    var msb: nat := if n >= 16 then 128 else 0;
    var c: byte := typ * 16 + n % 16 + msb;
    r := dst + [c];
    if msb != 0 {
      Behind(dst, c, Varint.Encode(n / 16));
      r := AppendVarint(r, n / 16);
    }
  }

  /** A zlib.Writer by what was written to it: not made yet, accepting data, or closed. */
  datatype ZWriter = Absent | Open(data: seq<byte>) | Closed(data: seq<byte>)

  /** The output: the file so far, the header of the object being written, and stray bytes. */
  ghost function Image(lib: Library, count: nat, items: seq<Item>, current: Option<Header>, spoiled: seq<byte>): seq<byte>
    requires Typed(items) && (current.Some? ==> IsValidType(current.value.typ))
  {
    var body := Body(lib, items);
    FileStart(count) + body + (if current.Some? then HeaderBytes(current.value, 12 + |body|) else []) + spoiled
  }

  lemma ImageStart(lib: Library, count: nat)
    ensures Image(lib, count, [], None, []) == FileStart(count) && |FileStart(count)| == 12
  {
    assert FileStart(count) + [] + [] + [] == FileStart(count);
  }

  /** The data stream completes the current object. */
  lemma ImageClose(lib: Library, count: nat, items: seq<Item>, h: Header, d: seq<byte>)
    requires Typed(items) && IsValidType(h.typ)
    ensures Typed(items + [Item(h, d)])
    ensures Image(lib, count, items, Some(h), []) + lib.deflate(d) == Image(lib, count, items + [Item(h, d)], None, [])
  {
    assert Front(items + [Item(h, d)]) == items;
    hide HeaderBytes;
    StreamBehind(FileStart(count), Body(lib, items), HeaderBytes(h, 12 + |Body(lib, items)|), lib.deflate(d));
  }

  lemma StreamBehind(a: seq<byte>, b: seq<byte>, c: seq<byte>, d: seq<byte>)
    ensures a + b + c + [] + d == a + (b + (c + d)) + [] + []
  {
  }

  lemma ImageSpoil(lib: Library, count: nat, items: seq<Item>, spoiled: seq<byte>, more: seq<byte>)
    requires Typed(items)
    ensures Image(lib, count, items, None, spoiled) + more == Image(lib, count, items, None, spoiled + more)
  {
  }

  lemma ImageLength(lib: Library, count: nat, items: seq<Item>)
    requires Typed(items)
    ensures |Image(lib, count, items, None, [])| == 12 + |Body(lib, items)|
  {
  }

  lemma ImageHead(lib: Library, count: nat, items: seq<Item>, h: Header)
    requires Typed(items) && IsValidType(h.typ) && (h.typ == OFFSET_DELTA ==> h.baseOffset <= 12 + |Body(lib, items)|)
    ensures Image(lib, count, items, None, []) + EncodeHeader(h, 12 + |Body(lib, items)|) == Image(lib, count, items, Some(h), [])
  {
  }

  lemma ImageDone(lib: Library, items: seq<Item>)
    requires Typed(items)
    ensures var s := Image(lib, |items|, items, None, []); s + lib.sha1(s) == FileBytes(lib, items)
  {
    var s := FileStart(|items|) + Body(lib, items);
    assert s + [] + [] == s;
  }

  // ---------------------------------------------------------------- sessions

  /** A call of a Writer's caller, and what came of it. */
  datatype Event = Headed(hdr: Header, accepted: bool) | Wrote(n: nat) | Finished(ok: bool)

  /** The objects begun. */
  function Begins(h: seq<Event>): nat {
    if h == [] then 0
    else Begins(Front(h)) + if Last(h).Headed? && Last(h).accepted then 1 else 0
  }

  /** The bytes that the last object begun still lacks. */
  function Missing(h: seq<Event>): int {
    if h == [] then 0
    else
      match Last(h)
      case Headed(hdr, accepted) => if accepted then hdr.size else Missing(Front(h))
      case Wrote(n) => Missing(Front(h)) - n
      case Finished(_) => Missing(Front(h))
  }

  predicate Sensible(hdr: Header) {
    IsValidType(hdr.typ) && hdr.baseOffset >= 0
  }

  /**
   The call leaves stray bytes to come: a header refused although it makes sense and the last
   of the objects begun is complete, so one too many; or a Close that succeeded.
   */
  predicate Spoils(before: seq<Event>, e: Event) {
    match e
    case Headed(hdr, accepted) => !accepted && Sensible(hdr) && Begins(before) > 0 && Missing(before) == 0
    case Wrote(_) => false
    case Finished(ok) => ok
  }

  predicate Spoilt(h: seq<Event>) {
    h != [] && (Spoilt(Front(h)) || Spoils(Front(h), Last(h)))
  }

  /** What one more call changes. */
  lemma OneMore(h: seq<Event>, e: Event)
    ensures Begins(h + [e]) == Begins(h) + if e.Headed? && e.accepted then 1 else 0
    ensures Missing(h + [e]) ==
      match e
      case Headed(hdr, accepted) => if accepted then hdr.size else Missing(h)
      case Wrote(n) => Missing(h) - n
      case Finished(_) => Missing(h)
    ensures Spoilt(h + [e]) <==> Spoilt(h) || Spoils(h, e)
  {
    assert Front(h + [e]) == h;
  }

  lemma {:induction false} SpoiltIff(h: seq<Event>)
    ensures Spoilt(h) <==> exists i :: 0 <= i < |h| && Spoils(h[..i], h[i])
  {
    hide Spoils;
    if h != [] {
      var front := Front(h);
      SpoiltIff(front);
      forall i | 0 <= i < |front|
        ensures Spoils(h[..i], h[i]) == Spoils(front[..i], front[i])
      {
        assert h[..i] == front[..i];
      }
      assert h[..|front|] == front && h[|front|] == Last(h);
    }
  }

  /** Closing a zlib.Writer again emits something. */
  ghost predicate ReclosesVisibly(lib: Library) {
    forall d :: Recloses(lib, d)
  }

  predicate Recloses(lib: Library, d: seq<byte>) {
    lib.reclose(d) != []
  }

  /** Only without stray bytes can the output be the file. */
  lemma StrayLength(lib: Library, items: seq<Item>, stray: seq<byte>)
    requires Typed(items)
    ensures var s := Image(lib, |items|, items, None, stray);
      s + lib.sha1(s) == FileBytes(lib, items) <==> stray == []
  {
    var s := Image(lib, |items|, items, None, stray);
    ImageDone(lib, items);
    ImageLength(lib, |items|, items);
    ImageSpoil(lib, |items|, items, [], stray);
    assert [] + stray == stray;
    assert |s + lib.sha1(s)| == 12 + |Body(lib, items)| + |stray| + 20;
    assert |FileBytes(lib, items)| == 12 + |Body(lib, items)| + 20;
  }

  class Writer {
    const lib: Library
    var out: seq<byte>
    var nobjs: nat
    var zw: ZWriter
    var dataRemaining: nat

    /** The objects whose data has been closed, the one being written, and what does not belong to any. */
    ghost const declared: nat
    ghost var items: seq<Item>
    ghost var current: Option<Header>
    ghost var spoiled: seq<byte>
    /** The calls so far. */
    ghost var history: seq<Event>

    /** The output is the file so far, and what remains to be written adds up. */
    ghost predicate Core()
      reads this
    {
      && declared < 0x1_0000_0000
      && Typed(items) && (current.Some? ==> IsValidType(current.value.typ))
      && nobjs + |items| + (if current.Some? then 1 else 0) == declared
      && (current.Some? <==> zw.Open?)
      && (zw.Absent? ==> items == [])
      && (spoiled != [] ==> nobjs == 0 && !zw.Open?)
      && (if zw.Open? then |zw.data| + dataRemaining == current.value.size else dataRemaining == 0)
      && (out == [] ==> zw.Absent? && spoiled == [])
      && (out != [] ==> out == Image(lib, declared, items, current, spoiled))
      && forall i :: 0 <= i < |items| ==> |items[i].data| == items[i].hdr.size
    }

    /** What the calls so far say of the state. */
    ghost predicate Recorded()
      reads this
    {
      && Begins(history) + nobjs == declared && Missing(history) == dataRemaining
      && (zw.Absent? <==> Begins(history) == 0)
      && (zw.Closed? <==> Begins(history) > 0 && Spoilt(history))
      && (Spoilt(history) ==> nobjs == 0)
      && (spoiled != [] ==> Spoilt(history))
      && (Begins(history) == 0 && Spoilt(history) ==> spoiled != [])
    }

    ghost predicate Valid()
      reads this
    {
      Core() && Recorded()
    }

    /** What lies, or will lie when the last stream is closed, between the objects and the trailer. */
    ghost function Stray(): seq<byte>
      reads this
    {
      spoiled + if zw.Closed? then lib.reclose(zw.data) else []
    }

    /** The output is free of stray bytes exactly as long as no call has spoilt it. */
    lemma StrayIffSpoilt()
      requires Valid() && ReclosesVisibly(lib)
      ensures Stray() == [] <==> !Spoilt(history)
    {
      if zw.Closed? {
        assert Recloses(lib, zw.data);
      }
    }

    /** All objects begun so far, the last with what was written to it. */
    ghost function Begun(): seq<Item>
      reads this
    {
      if current.Some? && zw.Open? then items + [Item(current.value, zw.data)] else items
    }

    /** Where the next header will lie. */
    function NextOffset(): nat
      reads this
    {
      if out == [] then 12
      else |out| + if zw.Open? then |lib.deflate(zw.data)| else if zw.Closed? then |lib.reclose(zw.data)| else 0
    }

    constructor (lib: Library, objectCount: nat)
      requires objectCount < 0x1_0000_0000
      ensures Valid() && this.lib == lib && declared == objectCount
      ensures out == [] && Begun() == [] && zw == Absent && Stray() == [] && history == []
    {
      this.lib := lib;
      out, nobjs, zw, dataRemaining := [], objectCount, Absent, 0;
      declared, items, current, spoiled, history := objectCount, [], None, [], [];
    }

    /** init: write the file header before anything else. */
    method Init()
      requires Core()
      modifies this`out
      ensures Core() && out != [] && |out| == if old(out) == [] then 12 else old(|out|)
    {
      if |out| > 0 {
        return;
      }
      ImageStart(lib, declared);
      out := MAGIC + Bytes(nobjs, 4);
    }

    /** Close the zlib.Writer, if there is one; closing it again emits bytes that belong nowhere. */
    method CloseData()
      requires Core() && out != [] && dataRemaining == 0 && (zw.Closed? ==> nobjs == 0)
      modifies this`out, this`zw, this`items, this`current, this`spoiled
      ensures Core() && out != []
      ensures zw == if old(zw).Open? then Closed(old(zw).data) else old(zw)
      ensures spoiled == old(Stray())
      ensures |out| == old(NextOffset()) && items == old(Begun()) && current == None
    {
      hide Image;
      match zw
      case Absent =>
        assert spoiled + [] == spoiled;
      case Open(d) =>
        assert spoiled + [] == spoiled;
        ImageClose(lib, declared, items, current.value, d);
        out := out + lib.deflate(d);
        items, current, zw := items + [Item(current.value, d)], None, Closed(d);
      case Closed(d) =>
        ImageSpoil(lib, declared, items, spoiled, lib.reclose(d));
        out := out + lib.reclose(d);
        spoiled := spoiled + lib.reclose(d);
    }

    /** The second half of WriteHeader: put the header and make ready for the data. */
    method Begin(hdr: Header) returns (offset: nat)
      requires Core() && out != [] && !zw.Open? && spoiled == [] && nobjs > 0
      requires IsValidType(hdr.typ) && hdr.baseOffset >= 0 && |out| < 0x8000_0000_0000_0000
      requires hdr.typ == OFFSET_DELTA ==> hdr.baseOffset <= |out|
      modifies this`out, this`nobjs, this`zw, this`dataRemaining, this`current
      ensures Core() && out != []
      ensures offset == old(|out|) == 12 + |Body(lib, items)|
      ensures current == Some(hdr) && zw == Open([])
      ensures nobjs == old(nobjs) - 1 && dataRemaining == hdr.size
    {
      hide Image, Body;
      ImageLength(lib, declared, items);
      ImageHead(lib, declared, items, hdr);
      nobjs := nobjs - 1;
      offset := |out|;
      var buf := AppendLengthType([], hdr.typ, hdr.size);
      if hdr.typ == OFFSET_DELTA {
        buf := OffsetCode.AppendOffset(buf, hdr.baseOffset - offset);
      } else if hdr.typ == REF_DELTA {
        buf := buf + hdr.baseId;
      }
      assert buf == EncodeHeader(hdr, offset);
      out := out + buf;
      zw, current, dataRemaining := Open([]), Some(hdr), hdr.size;
    }

    /**
     WriteHeader: begin the next object. It fails if the header makes no sense, the previous
     object is incomplete, or all declared objects were begun; in the last case it has closed
     the stream of the last object all the same.
     */
    method WriteHeader(hdr: Header) returns (offset: Option<nat>)
      requires Valid()
      requires Sensible(hdr) && dataRemaining == 0 && nobjs > 0 ==>
        NextOffset() < 0x8000_0000_0000_0000 && (hdr.typ == OFFSET_DELTA ==> hdr.baseOffset <= NextOffset())
      modifies this
      ensures Valid() && history == old(history) + [Headed(hdr, offset.Some?)]
      ensures offset.Some? <==>
        hdr.typ in [1, 2, 3, 4, 6, 7] && hdr.baseOffset >= 0 && old(dataRemaining) == 0 && old(nobjs) > 0
      ensures offset.Some? ==>
        && offset.value == old(NextOffset()) == 12 + |Body(lib, items)|
        && items == old(Begun()) && current == Some(hdr) && zw == Open([])
        && nobjs == old(nobjs) - 1 && dataRemaining == hdr.size && spoiled == []
      ensures offset.None? ==> Begun() == old(Begun()) && nobjs == old(nobjs) && dataRemaining == old(dataRemaining)
      ensures offset.None? && Sensible(hdr) && old(dataRemaining) == 0 ==>
        && zw == (if old(zw).Open? then Closed(old(zw).data) else old(zw))
        && items == old(Begun()) && current == None && spoiled == old(Stray()) && |out| == old(NextOffset())
      ensures offset.None? && !(Sensible(hdr) && old(dataRemaining) == 0) ==>
        out == old(out) && zw == old(zw) && items == old(items) && current == old(current) && spoiled == old(spoiled)
    {
      hide Image, Body, Begins, Missing, Spoilt;
      if !IsValidType(hdr.typ) || hdr.baseOffset < 0 || dataRemaining > 0 {
        OneMore(history, Headed(hdr, false));
        history := history + [Headed(hdr, false)];
        return None;
      }
      Init();
      CloseData();
      if nobjs == 0 {
        OneMore(history, Headed(hdr, false));
        history := history + [Headed(hdr, false)];
        return None;
      }
      var o := Begin(hdr);
      OneMore(history, Headed(hdr, true));
      history := history + [Headed(hdr, true)];
      offset := Some(o);
    }

    /** Write: at most the declared size of the current object. */
    method Write(p: seq<byte>) returns (n: nat, ok: bool)
      requires Valid()
      modifies this`zw, this`dataRemaining, this`history
      ensures Valid() && history == old(history) + [Wrote(n)]
      ensures zw.Absent? <==> old(zw).Absent?
      ensures old(zw).Absent? ==> n == 0 && !ok
      ensures !old(zw).Absent? ==> n == Min(|p|, old(dataRemaining)) && (ok <==> |p| <= old(dataRemaining))
      ensures old(zw).Open? ==> zw == Open(old(zw).data + p[..n]) && dataRemaining == old(dataRemaining) - n
      ensures !old(zw).Open? ==> zw == old(zw) && dataRemaining == old(dataRemaining)
    {
      hide Image, Begins, Missing, Spoilt;
      n, ok := 0, false;
      if !zw.Absent? && |p| == 0 {
        if zw.Open? {
          assert zw.data + p[..0] == zw.data;
        }
        ok := true;
      } else if !zw.Absent? {
        n := Min(|p|, dataRemaining);
        ok := |p| <= dataRemaining;
        if zw.Open? {
          zw := Open(zw.data + p[..n]);
        }
        dataRemaining := dataRemaining - n;
      }
      OneMore(history, Wrote(n));
      history := history + [Wrote(n)];
    }

    /**
     Close: write the trailer. It succeeds exactly when every declared object was begun and the
     last one is complete. The output is then the objects, the stray bytes and a checksum of
     both; it is the complete file of those objects if and only if there are no stray bytes,
     which is to say that no header was offered in excess and no Close had succeeded before.
     */
    method Close() returns (ok: bool)
      requires Valid()
      modifies this
      ensures Valid() && history == old(history) + [Finished(ok)]
      ensures ok <==> old(nobjs) == 0 && old(dataRemaining) == 0
      ensures ok ==> items == old(Begun()) && |items| == declared
      ensures ok ==>
        var s := Image(lib, declared, items, None, old(Stray())); out == s + lib.sha1(s)
      ensures ok ==> (out == FileBytes(lib, items) <==> old(Stray()) == [])
      ensures ok && ReclosesVisibly(lib) ==> (out == FileBytes(lib, items) <==> !Spoilt(old(history)))
      ensures !ok ==> out == old(out) && Begun() == old(Begun()) && Stray() == old(Stray())
    {
      hide Image, FileBytes, Begins, Missing, Spoilt;
      if nobjs > 0 || dataRemaining > 0 {
        OneMore(history, Finished(false));
        history := history + [Finished(false)];
        return false;
      }
      if ReclosesVisibly(lib) {
        StrayIffSpoilt();
      }
      Init();
      CloseData();
      StrayLength(lib, items, spoiled);
      var sum := lib.sha1(out);
      ImageSpoil(lib, declared, items, spoiled, sum);
      out := out + sum;
      spoiled := spoiled + sum;
      OneMore(history, Finished(true));
      history := history + [Finished(true)];
      ok := true;
    }
  }
}
