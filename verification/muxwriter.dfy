/** Lines of several writers merged into one sink that may fail at any time. */
module MuxWriter {
  import opened ByteStrings
  import opened Common

  /** The size of a handle's buffer. */
  const CAPACITY: nat := 1024

  /** A byte in the sink, and the handle it came from. */
  datatype Tagged = Tagged(b: byte, owner: nat)

  function Tag(s: seq<byte>, owner: nat): seq<Tagged> {
    seq(|s|, i requires 0 <= i < |s| => Tagged(s[i], owner))
  }

  /** The bytes of the sink that came from handle `h`. */
  function Share(log: seq<Tagged>, h: nat): seq<byte> {
    if log == [] then []
    else Share(Front(log), h) + if Last(log).owner == h then [Last(log).b] else []
  }

  /** What a call of the sink's Write returns: a short count comes with an error. */
  datatype Outcome = Outcome(n: nat, err: bool)

  predicate Honest(o: Outcome, p: seq<byte>) {
    o.n <= |p| && (o.n < |p| ==> o.err)
  }

  /** What an operation did: bytes sent to the sink, the buffer behind it, and what it returned. */
  datatype Effect = Effect(sent: seq<byte>, buf: seq<byte>, n: nat, err: bool)

  /** flushLocked; it counts as accepting nothing. */
  function FlushEffect(buf: seq<byte>, o: Outcome): Effect
    requires buf != [] ==> Honest(o, buf)
  {
    if buf == [] then Effect([], [], 0, false) else Effect(buf[..o.n], buf[o.n..], 0, o.err)
  }

  /** Whole lines behind a flushed buffer, and the start of a line to be buffered. */
  function LinesEffect(flushed: seq<byte>, lines: seq<byte>, trailing: seq<byte>, p: Outcome): Effect
    requires Honest(p, lines)
  {
    if p.err || |trailing| > CAPACITY then Effect(flushed + lines[..p.n], [], p.n, true)
    else Effect(flushed + lines, trailing, |lines| + |trailing|, false)
  }

  /** Write, when the sink answers `o` to the flush and `p` to the new lines. */
  function WriteEffect(buf: seq<byte>, data: seq<byte>, o: Outcome, p: Outcome): Effect
    requires buf != [] ==> Honest(o, buf)
    requires var lines := LastCut(data, NL); lines.Some? ==> Honest(p, lines.value.before + [NL])
  {
    if data == [] then Effect([], buf, 0, false)
    else
      match LastCut(data, NL)
      case None =>
        if |buf| + |data| > CAPACITY then Effect([], buf, 0, true) else Effect([], buf + data, |data|, false)
      case Some(f) =>
        var flush := FlushEffect(buf, o);
        if flush.err then flush else LinesEffect(flush.sent, f.before + [NL], f.after, p)
  }

  lemma Halves(s: seq<byte>, n: nat)
    requires n <= |s|
    ensures s[..n] + s[n..] == s
  {
  }

  lemma LinesConserve(flushed: seq<byte>, lines: seq<byte>, trailing: seq<byte>, p: Outcome)
    requires Honest(p, lines)
    ensures var e := LinesEffect(flushed, lines, trailing, p);
      && e.n <= |lines + trailing| && (e.n < |lines + trailing| ==> e.err)
      && e.sent + e.buf == flushed + (lines + trailing)[..e.n]
  {
    assert (lines + trailing)[..p.n] == lines[..p.n];
    assert (flushed + lines[..p.n]) + [] == flushed + lines[..p.n];
    Regroup(flushed, lines, trailing);
    assert (lines + trailing)[..|lines| + |trailing|] == lines + trailing;
  }

  lemma DataSplit(data: seq<byte>, f: Field)
    requires data == f.before + ([NL] + f.after)
    ensures data == (f.before + [NL]) + f.after && data[..0] == [] && data[..|data|] == data
  {
  }

  lemma Unsent(buf: seq<byte>)
    ensures buf + [] == buf && [] + buf == buf
  {
  }

  /** No byte is lost or doubled: what was buffered and what is accepted now is sent or buffered. */
  lemma WriteConserves(buf: seq<byte>, data: seq<byte>, o: Outcome, p: Outcome)
    requires buf != [] ==> Honest(o, buf)
    requires var lines := LastCut(data, NL); lines.Some? ==> Honest(p, lines.value.before + [NL])
    ensures var e := WriteEffect(buf, data, o, p);
      && e.n <= |data| && (e.n < |data| ==> e.err)
      && e.sent + e.buf == buf + data[..e.n]
  {
    hide LastCut, LinesEffect, FlushEffect;
    Unsent(buf);
    assert data[..0] == [];
    if data != [] {
      match LastCut(data, NL)
      case None =>
        Unsent(buf + data);
        assert data[..|data|] == data;
      case Some(f) =>
        DataSplit(data, f);
        FlushConserves(buf, o);
        LinesConserve(buf, f.before + [NL], f.after, p);
    }
  }

  lemma FlushConserves(buf: seq<byte>, o: Outcome)
    requires buf != [] ==> Honest(o, buf)
    ensures var e := FlushEffect(buf, o); e.n == 0 && e.sent + e.buf == buf && (!e.err ==> e.sent == buf && e.buf == [])
    ensures FlushEffect(buf, o).err <==> buf != [] && o.err
  {
    if buf != [] {
      Halves(buf, o.n);
    }
  }

  /** The buffer holds the start of one line, and fits its array. */
  predicate Pending(buf: seq<byte>) {
    NL !in buf && |buf| <= CAPACITY
  }

  lemma WritePending(buf: seq<byte>, data: seq<byte>, o: Outcome, p: Outcome)
    requires Pending(buf) && (buf != [] ==> Honest(o, buf))
    requires var lines := LastCut(data, NL); lines.Some? ==> Honest(p, lines.value.before + [NL])
    ensures Pending(WriteEffect(buf, data, o, p).buf)
  {
    hide LastCut;
  }

  /** A sink that takes everything gets nothing, or text that ends a line. */
  lemma WriteWholeLines(buf: seq<byte>, data: seq<byte>, o: Outcome, p: Outcome)
    requires buf != [] ==> Honest(o, buf) && !o.err
    requires var lines := LastCut(data, NL); lines.Some? ==> Honest(p, lines.value.before + [NL]) && !p.err
    ensures var e := WriteEffect(buf, data, o, p); e.sent == [] || Last(e.sent) == NL
  {
    hide LastCut;
  }

  // ---------------------------------------------------------------- what is accepted

  /** `lines` are the lines that end in `data`, and `trailing` is the start of one. */
  predicate SplitsInto(data: seq<byte>, lines: seq<byte>, trailing: seq<byte>) {
    data == lines + trailing && lines != [] && Last(lines) == 0x0a && 0x0a !in trailing
  }

  lemma SplitIsCut(data: seq<byte>, lines: seq<byte>, trailing: seq<byte>)
    requires SplitsInto(data, lines, trailing)
    ensures LastCut(data, NL) == Some(Field(Front(lines), trailing)) && Front(lines) + [NL] == lines && NL in data
  {
    hide LastCut;
    assert Front(lines) + [NL] == lines;
    Regroup(Front(lines), [NL], trailing);
    LastCutField(Front(lines), NL, trailing);
    assert data[|lines| - 1] == NL;
  }

  lemma CutIsSplit(data: seq<byte>)
    ensures 0x0a in data <==> exists lines, trailing :: SplitsInto(data, lines, trailing)
  {
    hide LastCut;
    var f := LastCut(data, NL);
    if f.Some? {
      DataSplit(data, f.value);
      assert SplitsInto(data, f.value.before + [NL], f.value.after);
    }
    if lines, trailing :| SplitsInto(data, lines, trailing) {
      SplitIsCut(data, lines, trailing);
    }
  }

  /**
   Text without a line end is taken, all of it and without an error, exactly when it fits the
   1024 bytes of the buffer; nothing changes otherwise, and the sink is not called.
   */
  lemma StartAccepted(buf: seq<byte>, data: seq<byte>, o: Outcome, p: Outcome)
    requires |buf| <= 1024 && (buf != [] ==> Honest(o, buf)) && 0x0a !in data
    ensures var e := WriteEffect(buf, data, o, p);
      && (!e.err <==> |buf| + |data| <= 1024)
      && e.sent == [] && e.buf == (if e.err then buf else buf + data) && e.n == (if e.err then 0 else |data|)
  {
    hide LastCut;
  }

  /**
   Text with a line end is taken, all of it and without an error, exactly when the sink takes
   what was buffered and then the lines, and at most 1024 bytes follow the last line end. The
   sink then has the buffered text and the lines, and the rest is buffered. After an error
   the sink has what it took, and what is left of the buffer was buffered before.
   */
  lemma LinesAccepted(buf: seq<byte>, data: seq<byte>, lines: seq<byte>, trailing: seq<byte>, o: Outcome, p: Outcome)
    requires (buf != [] ==> Honest(o, buf)) && SplitsInto(data, lines, trailing) && Honest(p, lines)
    ensures LastCut(data, NL) == Some(Field(Front(lines), trailing)) && Front(lines) + [NL] == lines
    ensures var e := WriteEffect(buf, data, o, p);
      && (!e.err <==> (buf == [] || !o.err) && !p.err && |trailing| <= 1024)
      && (!e.err ==> e.n == |data| && e.sent == buf + lines && e.buf == trailing)
      && (buf != [] && o.err ==> e.n == 0 && e.sent == buf[..o.n] && e.buf == buf[o.n..])
      && (e.err && (buf == [] || !o.err) ==> e.n == p.n && e.sent == buf + lines[..p.n] && e.buf == [])
  {
    hide LastCut;
    SplitIsCut(data, lines, trailing);
    Halves(lines, |lines|);
  }

  // ---------------------------------------------------------------- any number of handles

  /**
   An operation of a handle, with the sink's answers. The buffer is the handle's own and the
   sink is used under the lock, so operations of different handles do not overlap.
   */
  datatype Op = Write(h: nat, data: seq<byte>, o: Outcome, p: Outcome) | Flush(h: nat, o: Outcome)

  /** The sink, the handles' buffers, and what each handle has been told was accepted. */
  datatype State = State(log: seq<Tagged>, bufs: seq<seq<byte>>, accepted: seq<seq<byte>>)

  predicate Possible(s: State, op: Op) {
    && op.h < |s.bufs| == |s.accepted|
    && (s.bufs[op.h] != [] ==> Honest(op.o, s.bufs[op.h]))
    && (op.Write? && LastCut(op.data, NL).Some? ==> Honest(op.p, LastCut(op.data, NL).value.before + [NL]))
  }

  function EffectOf(s: State, op: Op): Effect
    requires Possible(s, op)
  {
    match op
    case Write(h, data, o, p) => WriteEffect(s.bufs[h], data, o, p)
    case Flush(h, o) => FlushEffect(s.bufs[h], o)
  }

  function Taken(s: State, op: Op): (t: seq<byte>)
    requires Possible(s, op)
  {
    match op
    case Write(h, data, o, p) =>
      WriteConserves(s.bufs[h], data, o, p);
      data[..EffectOf(s, op).n]
    case Flush(h, o) => []
  }

  function Step(s: State, op: Op): State
    requires Possible(s, op)
  {
    var e := EffectOf(s, op);
    State(s.log + Tag(e.sent, op.h), s.bufs[op.h := e.buf], s.accepted[op.h := s.accepted[op.h] + Taken(s, op)])
  }

  predicate Run(s: State, ops: seq<Op>, s': State)
    decreases |ops|
  {
    if ops == [] then s' == s else Possible(s, ops[0]) && Run(Step(s, ops[0]), ops[1..], s')
  }

  /** Each handle's accepted bytes are its share of the sink and then its buffer. */
  ghost predicate Conserved(s: State) {
    && |s.bufs| == |s.accepted|
    && forall h :: 0 <= h < |s.bufs| ==> Pending(s.bufs[h]) && Share(s.log, h) + s.bufs[h] == s.accepted[h]
  }

  lemma {:induction false} ShareAppend(log: seq<Tagged>, more: seq<Tagged>, h: nat)
    ensures Share(log + more, h) == Share(log, h) + Share(more, h)
  {
    if more == [] {
      assert log + more == log;
    } else {
      assert Front(log + more) == log + Front(more) && Last(log + more) == Last(more);
      ShareAppend(log, Front(more), h);
      Regroup(Share(log, h), Share(Front(more), h), if Last(more).owner == h then [Last(more).b] else []);
    }
  }

  lemma {:induction false} ShareOfTag(s: seq<byte>, owner: nat, h: nat)
    ensures Share(Tag(s, owner), h) == if h == owner then s else []
  {
    if s != [] {
      assert Front(Tag(s, owner)) == Tag(Front(s), owner) && Last(Tag(s, owner)) == Tagged(Last(s), owner);
      ShareOfTag(Front(s), owner, h);
      assert s == Front(s) + [Last(s)];
    }
  }

  lemma EffectConserves(s: State, op: Op)
    requires Possible(s, op) && Pending(s.bufs[op.h])
    ensures var e := EffectOf(s, op); Pending(e.buf) && e.sent + e.buf == s.bufs[op.h] + Taken(s, op)
  {
    hide WriteEffect, LastCut;
    var buf := s.bufs[op.h];
    match op
    case Write(h, data, o, p) =>
      WriteConserves(buf, data, o, p);
      WritePending(buf, data, o, p);
    case Flush(h, o) =>
      FlushConserves(buf, o);
      assert buf + [] == buf;
  }

  lemma StepConserves(s: State, op: Op)
    requires Conserved(s) && Possible(s, op)
    ensures Conserved(Step(s, op))
  {
    hide EffectOf, Taken, Share, Possible;
    var s', e := Step(s, op), EffectOf(s, op);
    HandleExists(s, op);
    EffectConserves(s, op);
    forall h | 0 <= h < |s.bufs|
      ensures Pending(s'.bufs[h]) && Share(s'.log, h) + s'.bufs[h] == s'.accepted[h]
    {
      ShareAppend(s.log, Tag(e.sent, op.h), h);
      ShareOfTag(e.sent, op.h, h);
      if h == op.h {
        Regroup(Share(s.log, h), e.sent, e.buf);
        Regroup(Share(s.log, h), s.bufs[h], Taken(s, op));
      } else {
        assert Share(s.log, h) + [] == Share(s.log, h);
      }
    }
  }

  lemma HandleExists(s: State, op: Op)
    requires Possible(s, op)
    ensures op.h < |s.bufs| == |s.accepted|
  {
  }

  /** In every run, whatever the sink accepts and whenever it fails. */
  lemma {:induction false} RunConserves(s: State, ops: seq<Op>, s': State)
    requires Conserved(s) && Run(s, ops, s')
    ensures Conserved(s')
    decreases |ops|
  {
    hide Conserved, Possible, Step;
    if ops != [] {
      StepConserves(s, ops[0]);
      RunConserves(Step(s, ops[0]), ops[1..], s');
    }
  }

  // ---------------------------------------------------------------- whole lines

  /** The sink ends with a line end, and inside a line the owner does not change. */
  predicate WholeLines(log: seq<Tagged>) {
    && (log == [] || Last(log).b == NL)
    && forall i :: 0 <= i < |log| - 1 && log[i].b != NL ==> log[i + 1].owner == log[i].owner
  }

  /** The sink took all it was given, and nobody asked for a flush. */
  predicate Smooth(s: State, op: Op)
    requires Possible(s, op)
  {
    && op.Write?
    && (s.bufs[op.h] != [] ==> !op.o.err)
    && (LastCut(op.data, NL).Some? ==> !op.p.err)
  }

  predicate SmoothRun(s: State, ops: seq<Op>)
    decreases |ops|
  {
    ops == [] || (Possible(s, ops[0]) && Smooth(s, ops[0]) && SmoothRun(Step(s, ops[0]), ops[1..]))
  }

  lemma LinesAppend(log: seq<Tagged>, s: seq<byte>, h: nat)
    requires WholeLines(log) && (s == [] || Last(s) == NL)
    ensures WholeLines(log + Tag(s, h))
  {
    var more := Tag(s, h);
    var all := log + more;
    forall i | 0 <= i < |all| - 1 && all[i].b != NL
      ensures all[i + 1].owner == all[i].owner
    {
      if i < |log| - 1 {
        assert all[i] == log[i] && all[i + 1] == log[i + 1];
      } else if i >= |log| {
        assert all[i] == more[i - |log|] && all[i + 1] == more[i + 1 - |log|];
      }
    }
  }

  lemma StepLines(s: State, op: Op)
    requires WholeLines(s.log) && Possible(s, op) && Smooth(s, op)
    ensures WholeLines(Step(s, op).log)
  {
    hide WriteEffect, LastCut, WholeLines;
    WriteWholeLines(s.bufs[op.h], op.data, op.o, op.p);
    LinesAppend(s.log, EffectOf(s, op).sent, op.h);
  }

  /**
   As long as the sink accepts every write and there is no explicit flush, the sink holds
   whole lines only, each of one handle; by RunConserves they are in that handle's order.
   */
  lemma {:induction false} RunLines(s: State, ops: seq<Op>, s': State)
    requires WholeLines(s.log) && Run(s, ops, s') && SmoothRun(s, ops)
    ensures WholeLines(s'.log)
    decreases |ops|
  {
    hide WholeLines, Possible, Step, Smooth;
    if ops != [] {
      StepLines(s, ops[0]);
      RunLines(Step(s, ops[0]), ops[1..], s');
    }
  }

  function Fresh(handles: nat): State {
    var none := seq(handles, h requires 0 <= h < handles => []);
    State([], none, none)
  }

  /** Both from the start. */
  lemma FreshRuns(handles: nat, ops: seq<Op>, s': State)
    requires Run(Fresh(handles), ops, s')
    ensures Conserved(s')
    ensures SmoothRun(Fresh(handles), ops) ==> WholeLines(s'.log)
  {
    hide Run, SmoothRun;
    var s := Fresh(handles);
    assert Conserved(s);
    RunConserves(s, ops, s');
    if SmoothRun(s, ops) {
      RunLines(s, ops, s');
    }
  }

  // ---------------------------------------------------------------- the writer itself

  /** The shared sink; `log` remembers whose bytes it holds, `answers` what it returned. */
  class Sink {
    var data: seq<byte>
    ghost var log: seq<Tagged>
    ghost var answers: seq<Outcome>

    constructor ()
      ensures data == [] && log == [] && answers == []
    {
      data, log, answers := [], [], [];
    }

    /** io.Writer: any part of `p`, with an error unless it is all of it. */
    method Write(p: seq<byte>, ghost owner: nat) returns (n: nat, err: bool)
      modifies this
      ensures Honest(Outcome(n, err), p)
      ensures data == old(data) + p[..n] && log == old(log) + Tag(p[..n], owner)
      ensures answers == old(answers) + [Outcome(n, err)]
    {
      n :| 0 <= n <= |p|;
      err := *;
      err := err || n < |p|;
      data := data + p[..n];
      log := log + Tag(p[..n], owner);
      answers := answers + [Outcome(n, err)];
    }
  }

  /** muxWriterStream: one handle, with a buffer of fixed size. */
  class Stream {
    const sink: Sink
    const buf: array<byte>
    var len: nat
    ghost const id: nat

    constructor (sink: Sink, ghost id: nat)
      ensures this.sink == sink && this.id == id && fresh(buf) && Valid() && Contents() == []
    {
      this.sink := sink;
      this.id := id;
      buf := new byte[CAPACITY](_ => 0);
      len := 0;
    }

    ghost predicate Valid()
      reads this, buf
    {
      buf.Length == CAPACITY && len <= CAPACITY
    }

    ghost function Contents(): seq<byte>
      requires len <= buf.Length
      reads this, buf
    {
      buf[..len]
    }

    /** append(stream.buf, data...), where it fits. */
    method Append(data: seq<byte>)
      requires Valid() && len + |data| <= CAPACITY
      modifies this, buf
      ensures Valid() && Contents() == old(Contents()) + data
    {
      forall i | 0 <= i < |data| {
        buf[len + i] := data[i];
      }
      len := len + |data|;
      assert buf[..len] == old(buf[..len]) + data;
    }

    /** What the sink did not take is moved to the front. */
    method Shift(n: nat)
      requires Valid() && n <= len
      modifies this, buf
      ensures Valid() && Contents() == old(Contents())[n..]
    {
      var rest := len - n;
      forall i | 0 <= i < rest {
        buf[i] := buf[n + i];
      }
      len := rest;
      assert buf[..rest] == old(buf[..len])[n..];
    }

    /** flushLocked. */
    method FlushLocked() returns (err: bool, ghost o: Outcome)
      requires Valid()
      modifies this, buf, sink
      ensures Valid() && (old(Contents()) != [] ==> Honest(o, old(Contents())))
      ensures var e := FlushEffect(old(Contents()), o);
        Contents() == e.buf && err == e.err && sink.log == old(sink.log) + Tag(e.sent, id)
      ensures sink.answers == old(sink.answers) + if old(Contents()) == [] then [] else [o]
      ensures err <==> old(Contents()) != [] && o.err
      ensures old(Contents()) != [] ==>
        Contents() == old(Contents())[o.n..] && sink.log == old(sink.log) + Tag(old(Contents())[..o.n], id)
    {
      if len == 0 {
        return false, Outcome(0, false);
      }
      ghost var before := Contents();
      var n: nat;
      n, err := sink.Write(buf[..len], id);
      o := Outcome(n, err);
      if n < len {
        Shift(n);
      } else {
        len := 0;
        assert before[n..] == [];
      }
    }

    /** The lines behind a flushed buffer, and the start of a line into it. */
    method WriteLines(lines: seq<byte>, trailing: seq<byte>, ghost log: seq<Tagged>, ghost flushed: seq<byte>)
        returns (n: nat, err: bool, ghost p: Outcome)
      requires Valid() && Contents() == [] && sink.log == log + Tag(flushed, id)
      modifies this, buf, sink
      ensures Valid() && Honest(p, lines)
      ensures var e := LinesEffect(flushed, lines, trailing, p);
        n == e.n && err == e.err && Contents() == e.buf && sink.log == log + Tag(e.sent, id)
      ensures sink.answers == old(sink.answers) + [p]
    {
      n, err := sink.Write(lines, id);
      p := Outcome(n, err);
      TagAppend(flushed, lines[..n], id);
      if err {
        return n, true, p;
      }
      if |trailing| > CAPACITY {
        return n, true, p;
      }
      assert lines[..n] == lines;
      Append(trailing);
      assert [] + trailing == trailing;
      n := |lines| + |trailing|;
    }

    /**
     Write: whole lines go to the sink behind what was buffered, the start of a line is
     buffered. `o` and `p` are what the sink returned for the buffer and for the lines, as far
     as it was called.
     */
    method Write(data: seq<byte>) returns (n: nat, err: bool, ghost o: Outcome, ghost p: Outcome)
      requires Valid()
      modifies this, buf, sink
      ensures Valid() && (old(Contents()) != [] ==> Honest(o, old(Contents())))
      ensures var f := LastCut(data, NL); f.Some? ==> Honest(p, f.value.before + [NL])
      ensures var e := WriteEffect(old(Contents()), data, o, p);
        && n == e.n && err == e.err && Contents() == e.buf
        && sink.log == old(sink.log) + Tag(e.sent, id)
      ensures 0x0a !in data ==>
        && (!err <==> |old(Contents())| + |data| <= 1024)
        && (!err ==> n == |data| && Contents() == old(Contents()) + data)
        && sink.log == old(sink.log) && sink.answers == old(sink.answers)
      ensures forall lines, trailing :: SplitsInto(data, lines, trailing) ==>
        && (!err <==> (old(Contents()) == [] || !o.err) && !p.err && |trailing| <= 1024)
        && (!err ==> n == |data| && Contents() == trailing && sink.log == old(sink.log) + Tag(old(Contents()) + lines, id))
      ensures 0x0a in data ==>
        sink.answers == old(sink.answers) + (if old(Contents()) == [] then [] else [o]) +
          (if old(Contents()) != [] && o.err then [] else [p])
    {
      hide LastCut, WriteEffect, LinesEffect, FlushEffect;
      o, p := Outcome(len, false), Outcome(|data|, false);
      ghost var before, log := Contents(), sink.log;
      NothingTagged(sink.log, id);
      CutIsSplit(data);
      if 0x0a !in data {
        StartAccepted(before, data, o, p);
      }
      if |data| == 0 {
        EmptyWrite(before, o, p);
        return 0, false, o, p;
      }
      var f := LastCut(data, NL);
      if f.None? {
        if len + |data| > CAPACITY {
          return 0, true, o, p;
        }
        Append(data);
        return |data|, false, o, p;
      }
      var lines := f.value.before + [NL];
      p := Outcome(|lines|, false);
      DataSplit(data, f.value);
      err, o := FlushLocked();
      n := 0;
      FlushConserves(before, o);
      if !err {
        n, err, p := WriteLines(lines, f.value.after, log, before);
      }
      EffectOfLines(before, data, f.value, o, p);
      AcceptedOnly(before, data, o, p);
    }
  }

  lemma EmptyWrite(buf: seq<byte>, o: Outcome, p: Outcome)
    requires buf != [] ==> Honest(o, buf)
    ensures WriteEffect(buf, [], o, p) == Effect([], buf, 0, false) && LastCut([], NL).None?
  {
  }

  lemma EffectOfLines(buf: seq<byte>, data: seq<byte>, f: Field, o: Outcome, p: Outcome)
    requires (buf != [] ==> Honest(o, buf)) && LastCut(data, NL) == Some(f) && Honest(p, f.before + [NL])
    ensures WriteEffect(buf, data, o, p) ==
      var flush := FlushEffect(buf, o);
      if flush.err then flush else LinesEffect(flush.sent, f.before + [NL], f.after, p)
  {
    hide LastCut, FlushEffect, LinesEffect;
    assert data != [];
  }

  lemma AcceptedOnly(buf: seq<byte>, data: seq<byte>, o: Outcome, p: Outcome)
    requires (buf != [] ==> Honest(o, buf)) && LastCut(data, NL).Some?
    requires Honest(p, LastCut(data, NL).value.before + [NL])
    ensures var e := WriteEffect(buf, data, o, p);
      forall lines, trailing :: SplitsInto(data, lines, trailing) ==>
        && (!e.err <==> (buf == [] || !o.err) && !p.err && |trailing| <= 1024)
        && (!e.err ==> e.n == |data| && e.buf == trailing && e.sent == buf + lines)
  {
    hide LastCut, WriteEffect;
    forall lines, trailing | SplitsInto(data, lines, trailing)
      ensures var e := WriteEffect(buf, data, o, p);
        && (!e.err <==> (buf == [] || !o.err) && !p.err && |trailing| <= 1024)
        && (!e.err ==> e.n == |data| && e.buf == trailing && e.sent == buf + lines)
    {
      SplitIsCut(data, lines, trailing);
      LinesAccepted(buf, data, lines, trailing, o, p);
    }
  }

  lemma NothingTagged(log: seq<Tagged>, h: nat)
    ensures log + Tag([], h) == log
  {
  }

  lemma TagAppend(a: seq<byte>, b: seq<byte>, h: nat)
    ensures Tag(a + b, h) == Tag(a, h) + Tag(b, h)
  {
  }
}
