/**
 Demultiplexing the packets that carry a packfile, progress messages and errors, by a reader
 whose leftover is a window onto the packet buffer and not a copy.
 */
module PackStream {
  import opened ByteStrings
  import opened Common
  import opened PktLine

  /** How a stream of packets ends. */
  datatype Ending = Eof | BadPacket | EmptyPacket | ServerError(message: seq<byte>) | BadCode(code: byte)

  /** What a stream of packets holds: the pack's bytes, the progress messages, and how it ends. */
  datatype Content = Content(pack: seq<byte>, progress: seq<seq<byte>>, ending: Ending)

  function TrimLF(line: seq<byte>): seq<byte> {
    if line == [] || Last(line) != NL then line else Front(line)
  }

  /** Channel by channel, independent of how it is read. */
  function Demux(data: seq<byte>): Content
    decreases |data|
  {
    match ParsePacket(data)
    case None => Content([], [], BadPacket)
    case Some(p) =>
      if p.packet.kind != Data then Content([], [], Eof)
      else if p.packet.payload == [] then Content([], [], EmptyPacket)
      else
        var code, body := p.packet.payload[0], p.packet.payload[1..];
        if code == 1 then Prefixed(body, [], Demux(p.rest))
        else if code == 2 then Prefixed([], [body], Demux(p.rest))
        else if code == 3 then Content([], [], ServerError(TrimLF(body)))
        else Content([], [], BadCode(code))
  }

  function Prefixed(pack: seq<byte>, progress: seq<seq<byte>>, c: Content): Content {
    Content(pack + c.pack, progress + c.progress, c.ending)
  }

  lemma PrefixedTwice(a: seq<byte>, b: seq<byte>, x: seq<seq<byte>>, y: seq<seq<byte>>, c: Content)
    ensures Prefixed(a, x, Prefixed(b, y, c)) == Prefixed(a + b, x + y, c)
    ensures Prefixed([], [], c) == c
  {
    Regroup(a, b, c.pack);
    assert x + (y + c.progress) == x + y + c.progress;
    assert [] + c.pack == c.pack && [] + c.progress == c.progress;
  }

  lemma PrefixedEnd(pack: seq<byte>, sent: seq<seq<byte>>, more: seq<seq<byte>>, e: Ending)
    ensures Prefixed(pack, sent, Content([], more, e)) == Content(pack, sent + more, e)
  {
    assert pack + [] == pack;
  }

  /** One packet of a stream, behind the messages sent before it. */
  lemma DemuxStep(sent: seq<seq<byte>>, data: seq<byte>)
    ensures var all := Prefixed([], sent, Demux(data));
      match ParsePacket(data)
      case None => all == Content([], sent, BadPacket)
      case Some(p) =>
        if p.packet.kind != Data then all == Content([], sent, Eof)
        else if p.packet.payload == [] then all == Content([], sent, EmptyPacket)
        else
          var code, body := p.packet.payload[0], p.packet.payload[1..];
          if code == 1 then all == Prefixed(body, sent, Demux(p.rest))
          else if code == 2 then all == Prefixed([], sent + [body], Demux(p.rest))
          else all == Content([], sent, if code == 3 then ServerError(TrimLF(body)) else BadCode(code))
  {
    hide ParsePacket;
    assert sent + [] == sent;
    var p := ParsePacket(data);
    if p.Some? && p.value.packet.payload != [] {
      var body := p.value.packet.payload[1..];
      PrefixedTwice([], body, sent, [], Demux(p.value.rest));
      PrefixedTwice([], [], sent, [body], Demux(p.value.rest));
      assert [] + body == body;
    }
  }

  /** A message on a channel. */
  datatype Message = Message(code: byte, body: seq<byte>)

  predicate Deliverable(ms: seq<Message>) {
    forall i :: 0 <= i < |ms| ==> (ms[i].code == 1 || ms[i].code == 2) && |ms[i].body| < MAX_SIZE
  }

  function PacketOf(m: Message): Packet {
    Packet(Data, [m.code] + m.body)
  }

  /** The messages as a server sends them, and the packet that ends them. */
  function Send(ms: seq<Message>, last: Packet): seq<byte>
    requires Deliverable(ms) && Sendable(last)
  {
    if ms == [] then Encode(last) else Encode(PacketOf(ms[0])) + Send(ms[1..], last)
  }

  function PackOf(ms: seq<Message>): seq<byte> {
    if ms == [] then [] else (if ms[0].code == 1 then ms[0].body else []) + PackOf(ms[1..])
  }

  function ProgressOf(ms: seq<Message>): seq<seq<byte>> {
    if ms == [] then [] else (if ms[0].code == 2 then [ms[0].body] else []) + ProgressOf(ms[1..])
  }

  function EndingOf(last: Packet): Ending {
    if last.kind != Data then Eof
    else if last.payload == [] then EmptyPacket
    else if last.payload[0] == 3 then ServerError(TrimLF(last.payload[1..]))
    else BadCode(last.payload[0])
  }

  /** What was sent on each channel arrives in order, up to the packet that ends the stream. */
  lemma {:induction false} DemuxSent(ms: seq<Message>, last: Packet, rest: seq<byte>)
    requires Deliverable(ms) && Sendable(last)
    requires last.kind == Data ==> last.payload[0] != 1 && last.payload[0] != 2
    ensures Demux(Send(ms, last) + rest) == Content(PackOf(ms), ProgressOf(ms), EndingOf(last))
  {
    hide ParsePacket, Encode;
    if ms == [] {
      ParseEncoded(last, rest);
    } else {
      var p := PacketOf(ms[0]);
      assert p.payload[1..] == ms[0].body;
      Regroup(Encode(p), Send(ms[1..], last), rest);
      ParseEncoded(p, Send(ms[1..], last) + rest);
      DemuxSent(ms[1..], last, rest);
    }
  }

  /** What one call returned. */
  datatype Result = Bytes(n: nat) | Ended(ending: Ending)

  /** packfileReader: `curr` is a window onto the packet reader's buffer, not a copy. */
  class PackfileReader {
    const packReader: PktLine.Reader
    /** What the progress writer has been given. */
    var progress: seq<seq<byte>>
    var currBuf: array<byte>
    var lo: nat
    var hi: nat
    var packError: Option<Ending>

    constructor (packReader: PktLine.Reader)
      requires packReader.Valid() && !packReader.failed
      ensures this.packReader == packReader && Valid() && fresh(currBuf) && progress == []
      ensures Owed() == Demux(packReader.r.Rest())
    {
      this.packReader := packReader;
      progress := [];
      currBuf := new byte[0];
      lo, hi := 0, 0;
      packError := None;
      new;
      PrefixedTwice([], [], [], [], Demux(packReader.r.Rest()));
    }

    ghost predicate Shape()
      reads this, packReader
    {
      packReader.Valid() && lo <= hi <= currBuf.Length
    }

    ghost predicate Valid()
      reads this, packReader
    {
      Shape() && (packReader.failed ==> packError.Some?)
    }

    /** The part of the current packet not delivered yet. */
    ghost function Curr(): seq<byte>
      requires lo <= hi <= currBuf.Length
      reads this, currBuf
    {
      currBuf[lo..hi]
    }

    /** Everything a caller has still to get. */
    ghost function Owed(): Content
      requires Valid()
      reads this, packReader, packReader.r, currBuf
    {
      Prefixed(Curr(), [],
               match packError
               case None => Demux(packReader.r.Rest())
               case Some(e) => Content([], [], e))
    }

    /** What separates the reader from the end of its input. */
    ghost function Left(): nat
      requires Shape()
      reads this, packReader, packReader.r
    {
      hi - lo + |packReader.r.Rest()|
    }

    /** copy(p, curr), and the window moved behind what was copied. */
    method Copy(p: array<byte>) returns (n: nat)
      requires Shape() && p != currBuf
      modifies p, `lo
      ensures Shape() && n == Min(p.Length, |old(Curr())|) && lo == old(lo) + n
      ensures old(Curr()) == p[..n] + Curr()
    {
      n := Min(p.Length, hi - lo);
      forall i | 0 <= i < n {
        p[i] := currBuf[lo + i];
      }
      lo := lo + n;
    }

    /** Pack data: the window is put on the packet behind its code, and read from. */
    method Deliver(p: array<byte>) returns (n: nat)
      requires Shape() && packReader.len > 0 && p != packReader.buf
      modifies this, p
      ensures Shape() && currBuf == packReader.buf && n <= p.Length && hi - lo + n == packReader.len - 1
      ensures packReader.buf[..packReader.len][1..] == p[..n] + Curr()
      ensures packError == old(packError) && progress == old(progress)
    {
      currBuf, lo, hi := packReader.buf, 1, packReader.len;
      assert Curr() == packReader.buf[..packReader.len][1..];
      n := Copy(p);
    }

    /**
     read: packets are taken until one carries pack data or ends the stream. The window is empty
     when this is called, so no byte still owed is overwritten with the buffer.
     */
    method ReadPackets(p: array<byte>) returns (r: Result)
      requires Valid() && lo == hi && packError.None? && p != packReader.buf
      modifies this, packReader, packReader.buf, packReader.r`pos, p
      ensures Shape() && (packReader.buf == old(packReader.buf) || fresh(packReader.buf))
      ensures packError.None? && old(progress) <= progress
      ensures r.Bytes? ==>
        && r.n <= p.Length && Valid() && currBuf == packReader.buf && Left() < old(Left())
        && Demux(old(packReader.r.Rest())) ==
             Prefixed(p[..r.n], progress[|old(progress)|..], Prefixed(Curr(), [], Demux(packReader.r.Rest())))
      ensures r.Ended? ==>
        && lo == hi && currBuf == old(currBuf)
        && Demux(old(packReader.r.Rest())) == Content([], progress[|old(progress)|..], r.ending)
    {
      hide Demux, ParsePacket, Prefixed;
      ghost var all := Demux(packReader.r.Rest());
      PrefixedTwice([], [], [], [], all);
      assert progress[|progress|..] == [];
      while true
        invariant Valid() && lo == hi && packError.None? && p != packReader.buf
        invariant currBuf == old(currBuf) && lo == old(lo)
        invariant packReader.buf == old(packReader.buf) || fresh(packReader.buf)
        invariant old(progress) <= progress && |packReader.r.Rest()| <= |old(packReader.r.Rest())|
        invariant all == Prefixed([], progress[|old(progress)|..], Demux(packReader.r.Rest()))
        decreases |packReader.r.Rest()|
      {
        ghost var data := packReader.r.Rest();
        ghost var sent := progress[|old(progress)|..];
        DemuxStep(sent, data);
        var ok := packReader.Next();
        if !ok {
          return Ended(BadPacket);
        }
        var pkt := packReader.Current();
        if pkt.kind != Data {
          return Ended(Eof);
        }
        if pkt.payload == [] {
          return Ended(EmptyPacket);
        }
        ghost var rest := packReader.r.Rest();
        var code, body := pkt.payload[0], pkt.payload[1..];
        if code == 1 {
          var n := Deliver(p);
          PrefixedTwice(p[..n], Curr(), sent, [], Demux(rest));
          assert sent + [] == sent;
          return Bytes(n);
        } else if code == 2 {
          progress := progress + [body];
          assert progress[|old(progress)|..] == sent + [body];
        } else if code == 3 {
          return Ended(ServerError(TrimLF(body)));
        } else {
          return Ended(BadCode(code));
        }
      }
    }

    /**
     Read: the bytes put into `p` are the next ones owed, the messages written are the next
     ones owed, and an ending is reported only when nothing is left, and stays.
     */
    method Read(p: array<byte>) returns (r: Result)
      requires Valid() && p != currBuf && p != packReader.buf
      modifies this, packReader, packReader.buf, packReader.r`pos, p
      ensures Valid() && (packReader.buf == old(packReader.buf) || fresh(packReader.buf))
      ensures currBuf == old(currBuf) || currBuf == packReader.buf
      ensures old(progress) <= progress
      ensures r.Bytes? ==>
        && r.n <= p.Length
        && old(Owed()) == Prefixed(p[..r.n], progress[|old(progress)|..], Owed())
      ensures r.Bytes? && p.Length > 0 ==> Left() < old(Left())
      ensures r.Ended? ==>
        && Owed() == Content([], [], r.ending)
        && old(Owed()) == Content([], progress[|old(progress)|..], r.ending)
    {
      hide Demux;
      assert progress[|progress|..] == [];
      if hi - lo > 0 {
        ghost var later := match packError case None => Demux(packReader.r.Rest()) case Some(e) => Content([], [], e);
        ghost var curr := Curr();
        var n := Copy(p);
        PrefixedTwice(p[..n], Curr(), [], [], later);
        return Bytes(n);
      }
      assert Curr() == [];
      if packError.Some? {
        return Ended(packError.value);
      }
      PrefixedTwice([], [], [], [], Demux(packReader.r.Rest()));
      r := ReadPackets(p);
      if r.Ended? {
        packError := Some(r.ending);
        assert Curr() == [];
      }
    }
  }

  /** Reading to the end, with buffers of any sizes. */
  method ReadAll(pr: PackfileReader) returns (pack: seq<byte>, ending: Ending)
    requires pr.Valid()
    modifies pr, pr.packReader, pr.packReader.buf, pr.packReader.r`pos
    ensures pr.Valid() && old(pr.progress) <= pr.progress
    ensures old(pr.Owed()) == Content(pack, pr.progress[|old(pr.progress)|..], ending)
  {
    hide Prefixed, Demux, PackfileReader.Owed;
    pack := [];
    PrefixedTwice([], [], [], [], pr.Owed());
    assert pr.progress[|pr.progress|..] == [];
    while true
      invariant pr.Valid() && old(pr.progress) <= pr.progress
      invariant pr.packReader.buf == old(pr.packReader.buf) || fresh(pr.packReader.buf)
      invariant old(pr.Owed()) == Prefixed(pack, pr.progress[|old(pr.progress)|..], pr.Owed())
      decreases pr.Left()
    {
      var size: nat :| size > 0;
      var p := new byte[size](_ => 0);
      ghost var before, sent := pr.progress, pr.progress[|old(pr.progress)|..];
      var r := pr.Read(p);
      ghost var more := pr.progress[|before|..];
      assert pr.progress[|old(pr.progress)|..] == sent + more;
      if r.Ended? {
        PrefixedEnd(pack, sent, more, r.ending);
        return pack, r.ending;
      }
      PrefixedTwice(pack, p[..r.n], sent, more, pr.Owed());
      pack := pack + p[..r.n];
    }
  }
}
