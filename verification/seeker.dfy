/**
 Buffering in front of a source that can seek: whatever is called in whatever order, the
 answers are ones that the source itself may give at the position the caller sees.
 */
module Seeker {
  import opened Common
  import opened Streams

  /** bufio.Reader as far as it is used: a window `lo..hi` of read-ahead, and an error kept for later. */
  class Bufio {
    const rd: ByteStream
    const buf: array<byte>
    var lo: nat
    var hi: nat
    var eof: bool

    constructor (rd: ByteStream, size: nat)
      requires size > 0
      ensures Valid() && this.rd == rd && fresh(buf) && Position() == rd.pos
    {
      this.rd := rd;
      buf := new byte[size](_ => 0);
      lo, hi, eof := 0, 0, false;
    }

    ghost predicate Valid()
      reads this, buf, rd
    {
      && 0 < buf.Length && lo <= hi <= buf.Length
      && (lo < hi ==> hi - lo <= rd.pos <= |rd.data| && buf[lo..hi] == rd.data[rd.pos - (hi - lo)..rd.pos])
      && (eof ==> rd.Rest() == [])
    }

    function Buffered(): nat
      requires lo <= hi
      reads this
    {
      hi - lo
    }

    /** The position the caller sees: what is buffered has not been read yet. */
    ghost function Position(): nat
      requires Valid()
      reads this, buf, rd
    {
      rd.pos - (hi - lo)
    }

    /** What a plain source at that position would still give. */
    ghost function Rest(): seq<byte>
      requires Valid()
      reads this, buf, rd
    {
      if Position() <= |rd.data| then rd.data[Position()..] else []
    }

    /** One read of the source into the buffer, which is empty. */
    method Fill()
      requires Valid() && lo == hi && !eof
      modifies this, buf, rd`pos
      ensures Valid() && Position() == old(Position()) && Rest() == old(Rest())
      ensures old(Rest()) != [] ==> lo < hi
      ensures old(Rest()) == [] ==> lo == hi && eof
    {
      lo, hi := 0, 0;
      var p, e := rd.Read(buf.Length);
      forall i | 0 <= i < |p| {
        buf[i] := p[i];
      }
      hi, eof := |p|, e;
      assert buf[..|p|] == p;
    }

    /** copy(p, b.buf[b.r:b.w]) */
    method Copy(k: nat) returns (p: seq<byte>)
      requires Valid() && lo < hi && k > 0
      modifies `lo
      ensures Valid() && 0 < |p| <= k && p <= old(Rest())
      ensures Position() == old(Position()) + |p| && Rest() == old(Rest())[|p|..]
    {
      ghost var n0 := hi - lo;
      assert buf[lo..hi] == Rest()[..n0];
      var n := Min(k, hi - lo);
      p := buf[lo..lo + n];
      assert p == buf[lo..hi][..n];
      lo := lo + n;
    }

    /** Reading past the empty buffer. */
    method ReadThrough(k: nat) returns (p: seq<byte>, end: bool)
      requires Valid() && lo == hi && !eof && k > 0
      modifies rd`pos
      ensures Valid() && |p| <= k && p <= old(Rest())
      ensures Position() == old(Position()) + |p| && Rest() == old(Rest())[|p|..]
      ensures old(Rest()) != [] ==> p != []
      ensures old(Rest()) == [] ==> end
      ensures end ==> Rest() == []
    {
      p, end := rd.Read(k);
    }

    /** Up to `k` bytes, from at most one read of the source; an error is reported once. */
    method Read(k: nat) returns (p: seq<byte>, end: bool)
      requires Valid()
      modifies this, buf, rd`pos
      ensures Valid() && |p| <= k && p <= old(Rest())
      ensures Position() == old(Position()) + |p| && Rest() == old(Rest())[|p|..]
      ensures k > 0 && old(Rest()) != [] ==> p != []
      ensures k > 0 && old(Rest()) == [] ==> end
      ensures end ==> Rest() == []
    {
      if k == 0 {
        end := lo == hi && eof;
        eof := eof && lo < hi;
        return [], end;
      }
      if lo == hi {
        if eof {
          eof := false;
          return [], true;
        }
        if k >= buf.Length {
          p, end := ReadThrough(k);
          return;
        }
        Fill();
        if lo == hi {
          eof := false;
          return [], true;
        }
      }
      p := Copy(k);
      end := false;
    }

    method ReadByte() returns (b: Option<byte>)
      requires Valid()
      modifies this, buf, rd`pos
      ensures Valid()
      ensures b == if old(Rest()) == [] then None else Some(old(Rest())[0])
      ensures Position() == old(Position()) + if b.Some? then 1 else 0
      ensures Rest() == if b.Some? then old(Rest())[1..] else old(Rest())
    {
      if lo == hi {
        if !eof {
          Fill();
        }
        if lo == hi {
          eof := false;
          return None;
        }
      }
      var c := TakeByte();
      b := Some(c);
    }

    method TakeByte() returns (c: byte)
      requires Valid() && lo < hi
      modifies `lo
      ensures Valid() && Position() == old(Position()) + 1
      ensures old(Rest()) != [] && c == old(Rest())[0] && Rest() == old(Rest())[1..]
    {
      c := buf[lo];
      assert c == buf[lo..hi][0];
      lo := lo + 1;
    }

    method Discard(n: nat)
      requires Valid() && n <= hi - lo
      modifies `lo
      ensures Valid() && Position() == old(Position()) + n
    {
      lo := lo + n;
    }

    method Reset()
      requires 0 < buf.Length
      modifies this
      ensures Valid() && Position() == rd.pos
    {
      lo, hi, eof := 0, 0, false;
    }
  }

  /** BufferedReadSeeker: the same contracts as the plain source, at the position the caller sees. */
  class BufferedReadSeeker {
    const r: ByteStream
    const b: Bufio

    constructor (r: ByteStream, size: nat)
      requires size > 0
      ensures Valid() && this.r == r && fresh(b) && fresh(b.buf) && b.Position() == r.pos
    {
      this.r := r;
      b := new Bufio(r, size);
    }

    ghost predicate Valid()
      reads this, b, b.buf, b.rd
    {
      b.Valid() && b.rd == r
    }

    /** Seek. Moving forward inside the buffer costs no read-ahead; any other move drops it. */
    method Seek(offset: int, whence: Whence) returns (newPos: Option<nat>)
      requires Valid()
      modifies b, r`pos
      ensures Valid()
      ensures newPos == Target(old(b.Position()), |r.data|, offset, whence)
      ensures b.Position() == if newPos.Some? then newPos.value else old(b.Position())
    {
      var off := offset;
      if whence == Current {
        if 0 <= offset <= b.Buffered() {
          var currPos := r.SeekFrom(0, Current);
          b.Discard(offset);
          return Some(currPos.value - b.Buffered());
        }
        off := off - b.Buffered();
      }
      newPos := r.SeekFrom(off, whence);
      if newPos.None? {
        return None;
      }
      b.Reset();
    }
  }

  // ---------------------------------------------------------------- whole runs

  datatype Op = ReadByte | Read(k: nat) | ReadFull(k: nat) | Seek(offset: int, whence: Whence)

  datatype Answer =
    | Byte(b: Option<byte>)
    | Piece(p: seq<byte>, end: bool)
    | Full(all: Option<seq<byte>>)
    | Pos(newPos: Option<nat>)

  function From(data: seq<byte>, pos: nat): seq<byte> {
    if pos <= |data| then data[pos..] else []
  }

  /**
   What an unbuffered source of `data` at `pos` may answer. A single read may return less than
   asked for, but something if there is anything, and reports the end only behind the last byte.
   */
  predicate Allowed(data: seq<byte>, pos: nat, op: Op, a: Answer) {
    var rest := From(data, pos);
    match op
    case ReadByte => a == Byte(if rest == [] then None else Some(rest[0]))
    case Read(k) =>
      && a.Piece? && |a.p| <= k && a.p <= rest
      && (k > 0 && rest != [] ==> a.p != [])
      && (k > 0 && rest == [] ==> a.end)
      && (a.end ==> a.p == rest)
    case ReadFull(k) => a == Full(if |rest| >= k then Some(rest[..k]) else None)
    case Seek(offset, whence) => a == Pos(Target(pos, |data|, offset, whence))
  }

  /** Where it is after that answer. */
  function After(data: seq<byte>, pos: nat, op: Op, a: Answer): nat {
    match a
    case Byte(b) => if b.Some? then pos + 1 else pos
    case Piece(p, _) => pos + |p|
    case Full(p) => if p.Some? then pos + |p.value| else pos + |From(data, pos)|
    case Pos(newPos) => if newPos.Some? then newPos.value else pos
  }

  predicate PlainRun(data: seq<byte>, pos: nat, ops: seq<Op>, answers: seq<Answer>)
    decreases |ops|
  {
    if ops == [] then answers == []
    else
      && answers != [] && Allowed(data, pos, ops[0], answers[0])
      && PlainRun(data, After(data, pos, ops[0], answers[0]), ops[1..], answers[1..])
  }

  function PosAfter(data: seq<byte>, pos: nat, ops: seq<Op>, answers: seq<Answer>): nat
    requires |answers| == |ops|
    decreases |ops|
  {
    if ops == [] then pos else PosAfter(data, After(data, pos, ops[0], answers[0]), ops[1..], answers[1..])
  }

  /**
   Where a seek leads: relative to the start, the position or the end, and nowhere when that
   is before the start. A read behind it gives the bytes there, if there are enough.
   */
  lemma SeekThenRead(data: seq<byte>, pos: nat, offset: int, whence: Whence, n: nat, answers: seq<Answer>)
    requires PlainRun(data, pos, [Seek(offset, whence), ReadFull(n)], answers)
    ensures |answers| == 2
    ensures var t := match whence case Start => offset case Current => pos + offset case End => |data| + offset;
      && answers[0] == Pos(if t < 0 then None else Some(t))
      && var from := if t < 0 then pos else t;
      answers[1] == Full(if from + n <= |data| then Some(data[from..from + n]) else if n == 0 then Some([]) else None)
  {
    var ops := [Seek(offset, whence), ReadFull(n)];
    assert ops[1..] == [ReadFull(n)] && ops[1..][1..] == [];
    var from := After(data, pos, ops[0], answers[0]);
    assert PlainRun(data, from, ops[1..], answers[1..]);
    assert PlainRun(data, After(data, from, ReadFull(n), answers[1]), ops[1..][1..], answers[1..][1..]);
    if from <= |data| && from + n <= |data| {
      assert data[from..][..n] == data[from..from + n];
    }
  }

  /** One more operation at the end of a run. */
  lemma {:induction false} RunAppend(data: seq<byte>, pos: nat, ops: seq<Op>, answers: seq<Answer>, op: Op, a: Answer)
    requires |answers| == |ops| && PlainRun(data, pos, ops, answers)
    requires Allowed(data, PosAfter(data, pos, ops, answers), op, a)
    ensures PlainRun(data, pos, ops + [op], answers + [a])
    ensures PosAfter(data, pos, ops + [op], answers + [a]) == After(data, PosAfter(data, pos, ops, answers), op, a)
    decreases |ops|
  {
    hide Allowed, After;
    if ops == [] {
      assert [] + [op] == [op] && [] + [a] == [a];
    } else {
      assert (ops + [op])[1..] == ops[1..] + [op] && (answers + [a])[1..] == answers[1..] + [a];
      RunAppend(data, After(data, pos, ops[0], answers[0]), ops[1..], answers[1..], op, a);
    }
  }

  /** `p` has been read since the source was at `start` with `rest` to come. */
  ghost predicate Got(b: Bufio, start: nat, rest: seq<byte>, p: seq<byte>)
    reads b, b.buf, b.rd
  {
    b.Valid() && p <= rest && b.Rest() == rest[|p|..] && b.Position() == start + |p|
  }

  method GetMore(b: Bufio, k: nat, p: seq<byte>, ghost start: nat, ghost rest: seq<byte>)
      returns (q: seq<byte>, end: bool)
    requires Got(b, start, rest, p) && |p| < k
    modifies b, b.buf, b.rd`pos
    ensures Got(b, start, rest, q) && |q| <= k
    ensures if end then |q| < k ==> q == rest else |p| < |q|
  {
    hide Bufio.Valid, Bufio.Rest, Bufio.Position;
    var more: seq<byte>;
    more, end := b.Read(k - |p|);
    q := p + more;
    assert rest[|q|..] == rest[|p|..][|more|..];
  }

  /** io.ReadFull on the buffered source: what was got, and whether it is all. */
  method Gather(b: Bufio, k: nat) returns (p: seq<byte>, ok: bool)
    requires b.Valid()
    modifies b, b.buf, b.rd`pos
    ensures b.Valid() && Got(b, old(b.Position()), old(b.Rest()), p)
    ensures if ok then |p| == k else |p| == |old(b.Rest())| < k
  {
    ghost var rest, start := b.Rest(), b.Position();
    p := [];
    assert Got(b, start, rest, p);
    var end := false;
    hide Bufio.Valid, Bufio.Rest, Bufio.Position;
    while |p| < k && !end
      invariant Got(b, start, rest, p) && |p| <= k && (end && |p| < k ==> p == rest)
      decreases !end, k - |p|
    {
      p, end := GetMore(b, k, p, start, rest);
    }
    ok := |p| == k;
  }

  method ReadFullFrom(rs: BufferedReadSeeker, k: nat) returns (r: Option<seq<byte>>)
    requires rs.Valid()
    modifies rs.b, rs.b.buf, rs.r`pos
    ensures rs.Valid() && Allowed(rs.r.data, old(rs.b.Position()), ReadFull(k), Full(r))
    ensures rs.b.Position() == After(rs.r.data, old(rs.b.Position()), ReadFull(k), Full(r))
  {
    ghost var start, rest := rs.b.Position(), rs.b.Rest();
    RestIs(rs.b);
    hide Bufio.Rest, Bufio.Position, Bufio.Valid, Allowed, After;
    var p, ok := Gather(rs.b, k);
    r := if ok then Some(p) else None;
    FullAnswer(rs.r.data, start, rest, p, k);
  }

  lemma RestIs(b: Bufio)
    requires b.Valid()
    ensures b.Rest() == From(b.rd.data, b.Position())
  {
  }

  lemma FullAnswer(data: seq<byte>, pos: nat, rest: seq<byte>, p: seq<byte>, k: nat)
    requires rest == From(data, pos)
    requires p <= rest && |p| <= k && (|p| < k ==> |p| == |rest|)
    ensures var a := Full(if |p| == k then Some(p) else None);
      Allowed(data, pos, ReadFull(k), a) && After(data, pos, ReadFull(k), a) == pos + |p|
  {
    assert p == rest[..|p|];
  }

  method ReadFrom(rs: BufferedReadSeeker, k: nat) returns (a: Answer)
    requires rs.Valid()
    modifies rs.b, rs.b.buf, rs.r`pos
    ensures rs.Valid() && Allowed(rs.r.data, old(rs.b.Position()), Read(k), a)
    ensures rs.b.Position() == After(rs.r.data, old(rs.b.Position()), Read(k), a)
  {
    RestIs(rs.b);
    ghost var rest := rs.b.Rest();
    hide Bufio.Rest, Bufio.Position, Bufio.Valid, From;
    var p, end := rs.b.Read(k);
    assert end ==> p == rest;
    a := Piece(p, end);
  }

  method Step(rs: BufferedReadSeeker, op: Op) returns (a: Answer)
    requires rs.Valid()
    modifies rs.b, rs.b.buf, rs.r`pos
    ensures rs.Valid() && Allowed(rs.r.data, old(rs.b.Position()), op, a)
    ensures rs.b.Position() == After(rs.r.data, old(rs.b.Position()), op, a)
  {
    match op
    case ReadByte =>
      RestIs(rs.b);
      var b := rs.b.ReadByte();
      a := Byte(b);
    case Read(k) =>
      a := ReadFrom(rs, k);
    case ReadFull(k) =>
      var p := ReadFullFrom(rs, k);
      a := Full(p);
    case Seek(offset, whence) =>
      var t := rs.Seek(offset, whence);
      a := Pos(t);
  }

  /**
   Whatever is called in whatever order, the buffered source answers as the plain one may, for
   every buffer size and however short the reads of the source are; only the length of a
   single short read is open, as it is for the plain source.
   */
  method Run(rs: BufferedReadSeeker, ops: seq<Op>) returns (answers: seq<Answer>)
    requires rs.Valid()
    modifies rs.b, rs.b.buf, rs.r`pos
    ensures rs.Valid() && |answers| == |ops| && PlainRun(rs.r.data, old(rs.b.Position()), ops, answers)
    ensures rs.b.Position() == PosAfter(rs.r.data, old(rs.b.Position()), ops, answers)
  {
    hide Allowed, After, Bufio.Valid, Bufio.Position;
    answers := [];
    ghost var start := rs.b.Position();
    for i := 0 to |ops|
      invariant rs.Valid() && |answers| == i && PlainRun(rs.r.data, start, ops[..i], answers)
      invariant rs.b.Position() == PosAfter(rs.r.data, start, ops[..i], answers)
    {
      var a := Step(rs, ops[i]);
      RunAppend(rs.r.data, start, ops[..i], answers, ops[i], a);
      assert ops[..i + 1] == ops[..i] + [ops[i]];
      answers := answers + [a];
    }
    assert ops[..|ops|] == ops;
  }
}
