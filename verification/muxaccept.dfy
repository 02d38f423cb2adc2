/** Which writes through the handles of a shared sink are accepted. */
module MuxAccept {
  import opened ByteStrings
  import opened Common
  import opened MuxWriter

  /** The write fits: the buffered text with the new, or what follows the last line end, is at most 1024 bytes. */
  ghost predicate Fits(buf: seq<byte>, data: seq<byte>) {
    && (0x0a !in data ==> |buf| + |data| <= 1024)
    && forall lines, trailing :: SplitsInto(data, lines, trailing) ==> |trailing| <= 1024
  }

  /** The sink reported no error to what the write sent it. */
  predicate SinkTakes(buf: seq<byte>, op: Op)
    requires op.Write?
  {
    0x0a in op.data ==> (buf == [] || !op.o.err) && !op.p.err
  }

  lemma AcceptedIff(s: State, op: Op)
    requires Possible(s, op) && op.Write? && Pending(s.bufs[op.h])
    ensures !EffectOf(s, op).err <==> Fits(s.bufs[op.h], op.data) && SinkTakes(s.bufs[op.h], op)
    ensures !EffectOf(s, op).err ==> Taken(s, op) == op.data
  {
    hide LastCut, WriteEffect;
    var buf, data := s.bufs[op.h], op.data;
    CutIsSplit(data);
    if 0x0a in data {
      var lines, trailing :| SplitsInto(data, lines, trailing);
      SplitIsCut(data, lines, trailing);
      LinesAccepted(buf, data, lines, trailing, op.o, op.p);
      forall l, t | SplitsInto(data, l, t)
        ensures t == trailing
      {
        SplitIsCut(data, l, t);
      }
    } else {
      StartAccepted(buf, data, op.o, op.p);
    }
    Halves(data, |data|);
  }

  /** Every operation is a write that fits, and the sink never fails. */
  ghost predicate Untroubled(s: State, ops: seq<Op>)
    decreases |ops|
  {
    ops == [] ||
    (Possible(s, ops[0]) && ops[0].Write? && Fits(s.bufs[ops[0].h], ops[0].data) &&
     SinkTakes(s.bufs[ops[0].h], ops[0]) && Untroubled(Step(s, ops[0]), ops[1..]))
  }

  /** Every operation is a write, and none returns an error. */
  predicate NoErrors(s: State, ops: seq<Op>)
    decreases |ops|
  {
    ops == [] ||
    (Possible(s, ops[0]) && ops[0].Write? && !EffectOf(s, ops[0]).err && NoErrors(Step(s, ops[0]), ops[1..]))
  }

  /** All the data that was given to handle `h`, in order. */
  function Given(ops: seq<Op>, h: nat): seq<byte> {
    if ops == [] then []
    else (if ops[0].Write? && ops[0].h == h then ops[0].data else []) + Given(ops[1..], h)
  }

  lemma {:induction false} GivenIsAccepted(s: State, ops: seq<Op>, s': State, h: nat)
    requires Conserved(s) && Run(s, ops, s') && h < |s.bufs|
    ensures NoErrors(s, ops) <==> Untroubled(s, ops)
    ensures NoErrors(s, ops) ==> h < |s'.accepted| && s'.accepted[h] == s.accepted[h] + Given(ops, h)
    decreases |ops|
  {
    hide Fits, SinkTakes, EffectOf, Possible, Taken;
    if ops == [] {
      assert s.accepted[h] + [] == s.accepted[h];
    } else {
      var op := ops[0];
      HandleExists(s, op);
      StepConserves(s, op);
      GivenIsAccepted(Step(s, op), ops[1..], s', h);
      if op.Write? {
        AcceptedIff(s, op);
        var d := if op.h == h then op.data else [];
        Regroup(s.accepted[h], d, Given(ops[1..], h));
        assert s.accepted[h] + [] == s.accepted[h];
      }
    }
  }

  /**
   From fresh handles, writes go without an error exactly when each fits and the sink does
   not fail; the bytes accepted of each handle, which its share of the sink and its buffer
   hold, are then all it was given, in order.
   */
  lemma NothingRefused(handles: nat, ops: seq<Op>, s': State, h: nat)
    requires Run(Fresh(handles), ops, s') && h < handles
    ensures NoErrors(Fresh(handles), ops) <==> Untroubled(Fresh(handles), ops)
    ensures NoErrors(Fresh(handles), ops) ==>
      && h < |s'.accepted| == |s'.bufs|
      && s'.accepted[h] == Given(ops, h) && Share(s'.log, h) + s'.bufs[h] == Given(ops, h)
  {
    hide Run, NoErrors, Untroubled;
    var s := Fresh(handles);
    assert Conserved(s);
    GivenIsAccepted(s, ops, s', h);
    FreshRuns(handles, ops, s');
    assert [] + Given(ops, h) == Given(ops, h);
  }
}
