/** The pkt-line format (Git protocol-common): packets and their reader. */
module PktLine {
  import opened ByteStrings
  import opened Common
  import opened HexLines
  import opened Streams

  /** The most bytes a packet may carry. */
  const MAX_SIZE: nat := 65516

  datatype Kind = Flush | Delim | Data

  datatype Packet = Packet(kind: Kind, payload: seq<byte>)

  datatype Parsed = Parsed(packet: Packet, rest: seq<byte>)

  function Word(length: seq<byte>): nat
    requires |length| == 2
  {
    var high: nat, low: nat := length[0], length[1];
    256 * high + low
  }

  /** read: the first packet of the input, or nothing when there is no valid one. */
  function ParsePacket(data: seq<byte>): (p: Option<Parsed>)
    ensures p.Some? ==> |p.value.packet.payload| + |p.value.rest| + 4 == |data|
  {
    if |data| < 4 then None
    else
      match Unhex(data[..4])
      case None => None
      case Some(length) => ParseSized(Word(length), data[4..])
  }

  function ParseSized(length: nat, data: seq<byte>): (p: Option<Parsed>)
    ensures p.Some? ==> |p.value.packet.payload| + |p.value.rest| == |data|
  {
    if length == 0 then Some(Parsed(Packet(Flush, []), data))
    else if length == 1 then Some(Parsed(Packet(Delim, []), data))
    else if length < 4 || length - 4 > MAX_SIZE || length - 4 > |data| then None
    else Some(Parsed(Packet(Data, data[..length - 4]), data[length - 4..]))
  }

  /** What can be appended: packets without data, and data packets that are neither empty nor too large. */
  predicate Sendable(p: Packet) {
    if p.kind == Data then 0 < |p.payload| <= MAX_SIZE else p.payload == []
  }

  function LengthOf(p: Packet): nat {
    match p.kind
    case Flush => 0
    case Delim => 1
    case Data => |p.payload| + 4
  }

  /** Append, AppendFlush and AppendDelim. */
  function Encode(p: Packet): seq<byte>
    requires Sendable(p)
  {
    Hex([LengthOf(p) / 256, LengthOf(p) % 256]) + p.payload
  }

  lemma ParseEncoded(p: Packet, rest: seq<byte>)
    requires Sendable(p)
    ensures ParsePacket(Encode(p) + rest) == Some(Parsed(p, rest))
  {
    hide Hex, Unhex;
    var length := [LengthOf(p) / 256, LengthOf(p) % 256];
    UnhexHex(length);
    Regroup(Hex(length), p.payload, rest);
    FirstPart(Hex(length), p.payload + rest);
    assert Word(length) == LengthOf(p);
    FirstPart(p.payload, rest);
    assert [] + rest == rest;
  }

  /** A packet is consumed exactly, and only data packets without data and upper-case lengths are not printed alike. */
  lemma EncodeParsed(data: seq<byte>)
    requires ParsePacket(data).Some?
    ensures var p := ParsePacket(data).value;
      Sendable(p.packet) && Encode(p.packet) + p.rest == data <==>
        LowerHex(data[..4]) && !(p.packet.kind == Data && p.packet.payload == [])
  {
    hide Hex, LowerHex;
    var p := ParsePacket(data).value;
    var length := Unhex(data[..4]).value;
    HexUnhex(data[..4]);
    hide Unhex;
    var n := Word(length);
    assert LengthOf(p.packet) == n;
    assert length == [n / 256, n % 256];
    assert data == data[..4] + data[4..];
    assert data[4..] == p.packet.payload + p.rest;
    if Sendable(p.packet) {
      Regroup(Hex(length), p.packet.payload, p.rest);
      FirstPart(Hex(length), data[4..]);
      FirstPart(data[..4], data[4..]);
    }
  }

  function EncodeAll(ps: seq<Packet>): seq<byte>
    requires forall i :: 0 <= i < |ps| ==> Sendable(ps[i])
  {
    if ps == [] then [] else Encode(ps[0]) + EncodeAll(ps[1..])
  }

  datatype Packets = Packets(packets: seq<Packet>, rest: seq<byte>)

  /** The first `n` packets, and what is behind them. */
  function ParseMany(data: seq<byte>, n: nat): Option<Packets>
    decreases n
  {
    if n == 0 then Some(Packets([], data))
    else
      match ParsePacket(data)
      case None => None
      case Some(p) =>
        match ParseMany(p.rest, n - 1)
        case None => None
        case Some(ps) => Some(Packets([p.packet] + ps.packets, ps.rest))
  }

  /** Every sequence of packets is read back as it was appended, and what follows is left alone. */
  lemma {:induction false} AppendThenRead(ps: seq<Packet>, rest: seq<byte>)
    requires forall i :: 0 <= i < |ps| ==> Sendable(ps[i])
    ensures ParseMany(EncodeAll(ps) + rest, |ps|) == Some(Packets(ps, rest))
  {
    hide ParsePacket, Encode;
    if ps == [] {
      assert [] + rest == rest;
    } else {
      Regroup(Encode(ps[0]), EncodeAll(ps[1..]), rest);
      ParseEncoded(ps[0], EncodeAll(ps[1..]) + rest);
      AppendThenRead(ps[1..], rest);
      assert ps == [ps[0]] + ps[1..];
    }
  }

  /** pktline.Reader: one buffer for all packets, replaced only by a larger one. */
  class Reader {
    const r: ByteStream
    var kind: Kind
    var buf: array<byte>
    var len: nat
    var failed: bool

    constructor (r: ByteStream)
      ensures this.r == r && !failed && len == 0 && fresh(buf) && Valid()
    {
      this.r := r;
      kind := Flush;
      buf := new byte[1024](_ => 0);
      len := 0;
      failed := false;
    }

    ghost predicate Valid()
      reads this
    {
      len <= buf.Length
    }

    /** Type and Bytes: the packet read last. */
    function Current(): Packet
      requires len <= buf.Length
      reads this, buf
    {
      Packet(kind, buf[..len])
    }

    /** Next: an error is final. */
    method Next() returns (ok: bool)
      requires Valid()
      modifies this, buf, r`pos
      ensures Valid() && (buf == old(buf) || fresh(buf))
      ensures old(failed) ==> !ok && failed && r.Rest() == old(r.Rest())
      ensures !old(failed) ==> ok == ParsePacket(old(r.Rest())).Some? && failed == !ok
      ensures ok ==> Current() == ParsePacket(old(r.Rest())).value.packet
      ensures ok ==> r.Rest() == ParsePacket(old(r.Rest())).value.rest
    {
      hide Unhex;
      if failed {
        return false;
      }
      ghost var data := r.Rest();
      kind, len, failed := Flush, 0, true;
      var lengthHex := r.ReadFull(4);
      if lengthHex.None? {
        return false;
      }
      var length := Unhex(lengthHex.value);
      if length.None? {
        return false;
      }
      var n := Word(length.value);
      if n == 0 {
        failed := false;
        return true;
      }
      if n == 1 {
        kind, failed := Delim, false;
        return true;
      }
      if n < 4 {
        return false;
      }
      n := n - 4;
      if n == 0 {
        kind, failed := Data, false;
        return true;
      }
      if n > MAX_SIZE {
        return false;
      }
      ok := Fill(n, data[4..]);
    }

    /** The payload, into the buffer if it is large enough. */
    method Fill(n: nat, ghost data: seq<byte>) returns (ok: bool)
      requires failed && len == 0 && kind == Flush && r.Rest() == data
      modifies this, buf, r`pos
      ensures Valid() && (buf == old(buf) || fresh(buf))
      ensures ok == (n <= |data|) && failed == !ok
      ensures ok ==> Current() == Packet(Data, data[..n]) && r.Rest() == data[n..]
    {
      if n > buf.Length {
        buf := new byte[n](_ => 0);
      }
      var payload := r.ReadFull(n);
      if payload.None? {
        return false;
      }
      forall i | 0 <= i < n {
        buf[i] := payload.value[i];
      }
      kind, len, failed := Data, n, false;
      assert buf[..n] == payload.value;
      ok := true;
    }
  }
}
