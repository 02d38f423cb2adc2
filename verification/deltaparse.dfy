/** Every delta taken apart, and with it the exact cause of every ending. */
module DeltaParse {
  import opened ByteStrings
  import opened Common
  import opened Delta
  import opened DeltaEnds
  import opened DeltaSize

  /** Nothing but the start of an instruction: it was cut off inside. */
  ghost predicate CutOff(rest: seq<byte>) {
    exists ins, k: nat :: Sound(ins) && 0 < k < |EncodeInstruction(ins)| && rest == EncodeInstruction(ins)[..k]
  }

  /** A copy that leaves a base of `n` bytes is next. */
  ghost predicate CopyPast(rest: seq<byte>, n: nat) {
    exists ins, tail :: Outside(ins, n) && rest == EncodeInstruction(ins) + tail
  }

  /** The reserved instruction is next. */
  predicate Reserved(rest: seq<byte>) {
    rest != [] && rest[0] == 0
  }

  // ---------------------------------------------------------------- what was read was written

  /** Whatever is gathered is the scattered form of a value that fits. */
  lemma {:induction false} ScatterGather(flags: seq<bool>, s: seq<byte>)
    requires Gather(flags, s).Some?
    ensures var (v, n) := Gather(flags, s).value;
      n <= |s| && Fits(flags, v) && Scatter(flags, v) == s[..n]
    decreases |flags|
  {
    if flags != [] {
      if flags[0] {
        ScatterGather(flags[1..], s[1..]);
        var (v, n) := Gather(flags[1..], s[1..]).value;
        assert s[..n + 1] == [s[0]] + s[1..][..n];
      } else {
        ScatterGather(flags[1..], s);
      }
    }
  }

  /** Where bytes are missing, there is a value whose scattered form goes on. */
  lemma {:induction false} GatherMissing(flags: seq<bool>, s: seq<byte>) returns (v: nat)
    requires Gather(flags, s).None?
    ensures Fits(flags, v) && |s| < |Scatter(flags, v)| && Scatter(flags, v)[..|s|] == s
    decreases |flags|
  {
    if !flags[0] {
      var w := GatherMissing(flags[1..], s);
      v := 256 * w;
    } else if s == [] {
      v := 0;
      ZeroFits(flags);
    } else {
      var w := GatherMissing(flags[1..], s[1..]);
      v := s[0] + 256 * w;
      assert Scatter(flags, v) == [s[0]] + Scatter(flags[1..], w);
      assert s == [s[0]] + s[1..];
    }
  }

  lemma {:induction false} ZeroFits(flags: seq<bool>)
    ensures Fits(flags, 0)
  {
    if flags != [] {
      ZeroFits(flags[1..]);
    }
  }

  /** The copy that was parsed. */
  lemma ParsedCopy(op: byte, s: seq<byte>) returns (ins: Instruction)
    requires op >= 128 && ParseCopy(op, s).Some?
    ensures var c := ParseCopy(op, s).value;
      && ins.Copy? && Sound(ins) && ins.op == op && ins.offset == c.offset && CopySize(ins.field) == c.size
      && c.used <= |s| && EncodeInstruction(ins) == [op] + s[..c.used]
  {
    hide Flags, Gather, Scatter, Fits;
    var (offset, n) := Gather(Flags(op, 0, 4), s).value;
    ScatterGather(Flags(op, 0, 4), s);
    var (field, m) := Gather(Flags(op, 4, 7), s[n..]).value;
    ScatterGather(Flags(op, 4, 7), s[n..]);
    ins := Copy(offset, field, op);
    TwoParts(op, s, n, m);
  }

  lemma TwoParts(op: byte, s: seq<byte>, n: nat, m: nat)
    requires n + m <= |s|
    ensures [op] + s[..n] + s[n..][..m] == [op] + s[..n + m]
  {
  }

  /** The copy that was cut off among its arguments. */
  lemma CutCopyOff(op: byte, s: seq<byte>)
    requires op >= 128 && ParseCopy(op, s).None?
    ensures CutOff([op] + s)
  {
    hide Flags, Gather, Scatter, Fits;
    var low, high := Flags(op, 0, 4), Flags(op, 4, 7);
    if Gather(low, s).None? {
      var offset := GatherMissing(low, s);
      ZeroFits(high);
      StartOfCopy(op, Scatter(low, offset), Scatter(high, 0), s);
      var ins := Copy(offset, 0, op);
      assert Sound(ins) && [op] + s == EncodeInstruction(ins)[..|s| + 1];
    } else {
      var (offset, n) := Gather(low, s).value;
      ScatterGather(low, s);
      var field := GatherMissing(high, s[n..]);
      assert s == s[..n] + s[n..];
      EndOfCopy(op, s[..n], Scatter(high, field), s[n..]);
      var ins := Copy(offset, field, op);
      assert Sound(ins) && [op] + s == EncodeInstruction(ins)[..|s| + 1];
    }
  }

  lemma StartOfCopy(op: byte, a: seq<byte>, b: seq<byte>, s: seq<byte>)
    requires |s| < |a| && a[..|s|] == s
    ensures |s| + 1 < |[op] + a + b| && ([op] + a + b)[..|s| + 1] == [op] + s
  {
  }

  lemma EndOfCopy(op: byte, a: seq<byte>, b: seq<byte>, t: seq<byte>)
    requires |t| < |b| && b[..|t|] == t
    ensures |a + t| + 1 < |[op] + a + b| && ([op] + a + b)[..|a + t| + 1] == [op] + (a + t)
  {
  }

  /** The insertion that was cut off in its data. */
  lemma CutInsertOff(op: byte, s: seq<byte>)
    requires 0 < op < 128 && |s| < op
    ensures CutOff([op] + s)
  {
    var data := s + seq(op - |s|, i => 0);
    var ins := Insert(data);
    assert EncodeInstruction(ins)[..|s| + 1] == [op] + s;
    assert Sound(ins);
  }

  // ---------------------------------------------------------------- taking a delta apart

  /** A delta is good instructions and then one of four things. */
  ghost predicate Apart(d: seq<byte>, n: nat, list: seq<Instruction>, rest: seq<byte>) {
    && AllEncodable(list, n) && d == Encoding(list) + rest
    && (rest == [] || Reserved(rest) || CutOff(rest) || CopyPast(rest, n))
  }

  /** Every string of bytes is such a delta. */
  lemma {:induction false} TakeApart(d: seq<byte>, n: nat) returns (list: seq<Instruction>, rest: seq<byte>)
    ensures Apart(d, n, list, rest)
    decreases |d|
  {
    hide CutOff, CopyPast, EncodeInstruction, Outside, Encodable;
    list, rest := [], d;
    assert [] + d == d;
    if d != [] && d[0] > 0 {
      assert d == [d[0]] + d[1..];
      var r := OneInstruction(d, n);
      if r.Some? {
        var tail := d[|EncodeInstruction(r.value)|..];
        var more: seq<Instruction>;
        more, rest := TakeApart(tail, n);
        list := [r.value] + more;
        assert list[1..] == more;
        Regroup(EncodeInstruction(r.value), Encoding(more), rest);
      }
    }
  }

  /** The first instruction, if it is complete and good for a base of `n` bytes. */
  lemma OneInstruction(d: seq<byte>, n: nat) returns (r: Option<Instruction>)
    requires d != [] && d[0] > 0
    ensures r.Some? ==>
      && Encodable(r.value, n) && 0 < |EncodeInstruction(r.value)| <= |d|
      && d == EncodeInstruction(r.value) + d[|EncodeInstruction(r.value)|..]
    ensures r.None? ==> CutOff(d) || CopyPast(d, n)
  {
    var op, s := d[0], d[1..];
    assert d == [op] + s;
    if op >= 128 {
      r := FirstCopy(op, s, n);
    } else if |s| < op {
      CutInsertOff(op, s);
      r := None;
    } else {
      r := Some(Insert(s[..op]));
      assert d == ([op] + s[..op]) + s[op..];
    }
  }

  lemma FirstCopy(op: byte, s: seq<byte>, n: nat) returns (r: Option<Instruction>)
    requires op >= 128
    ensures var d := [op] + s;
      if r.Some? then
        && Encodable(r.value, n) && 0 < |EncodeInstruction(r.value)| <= |d|
        && d == EncodeInstruction(r.value) + d[|EncodeInstruction(r.value)|..]
      else CutOff(d) || CopyPast(d, n)
  {
    hide ParseCopy, Flags, Fits, CutOff;
    var d := [op] + s;
    if ParseCopy(op, s).None? {
      CutCopyOff(op, s);
      r := None;
    } else {
      var c := ParseCopy(op, s).value;
      var ins := ParsedCopy(op, s);
      assert d == ([op] + s[..c.used]) + s[c.used..] && d[c.used + 1..] == s[c.used..];
      if Encodable(ins, n) {
        r := Some(ins);
      } else {
        assert Outside(ins, n) && d == EncodeInstruction(ins) + s[c.used..];
        r := None;
      }
    }
  }

  // ---------------------------------------------------------------- endings

  /** What is left decides the ending. */
  lemma RestEnds(rest: seq<byte>, base: seq<byte>)
    ensures rest == [] ==> Expand(rest, base).end == Clean
    ensures Reserved(rest) ==> Expand(rest, base).end == Unknown
    ensures CutOff(rest) || CopyPast(rest, |base|) ==> Expand(rest, base).end == Truncated
  {
    if CutOff(rest) {
      var ins, k: nat :| Sound(ins) && 0 < k < |EncodeInstruction(ins)| && rest == EncodeInstruction(ins)[..k];
      CutOffEnds(ins, k, base);
    } else if CopyPast(rest, |base|) {
      var ins, tail :| Outside(ins, |base|) && rest == EncodeInstruction(ins) + tail;
      CopyOutside([], ins, tail, base);
      assert [] + rest == rest;
    }
  }

  lemma CutOffEnds(ins: Instruction, k: nat, base: seq<byte>)
    requires Sound(ins) && 0 < k < |EncodeInstruction(ins)|
    ensures Expand(EncodeInstruction(ins)[..k], base).end == Truncated
  {
    hide Expand, Flags, Fits;
    match ins
    case Copy(offset, field, op) => CutCopy(offset, field, op, k, base);
    case Insert(data) => CutInsert(data, k, base);
  }

  /** The ending of a delta taken apart. */
  lemma ApartEnds(d: seq<byte>, base: seq<byte>, list: seq<Instruction>, rest: seq<byte>)
    requires Apart(d, |base|, list, rest)
    ensures Expand(d, base) == Then(Meaning(list, base), Expand(rest, base))
    ensures Expand(d, base).end == Clean <==> rest == []
    ensures Expand(d, base).end == Unknown <==> Reserved(rest)
    ensures Expand(d, base).end == Truncated <==> CutOff(rest) || CopyPast(rest, |base|)
  {
    hide Expand, CutOff, CopyPast, Encoding, AllEncodable;
    ExpandBehind(list, rest, base);
    RestEnds(rest, base);
  }

  /**
   An unexpected end arises if and only if, behind good instructions, the delta is cut off
   inside an instruction or a copy leaves the base.
   */
  lemma TruncatedIff(d: seq<byte>, base: seq<byte>)
    ensures Expand(d, base).end == Truncated <==>
      exists list, rest ::
        AllEncodable(list, |base|) && d == Encoding(list) + rest && (CutOff(rest) || CopyPast(rest, |base|))
  {
    hide Expand, CutOff, CopyPast, Encoding, AllEncodable;
    if list, rest :| AllEncodable(list, |base|) && d == Encoding(list) + rest && (CutOff(rest) || CopyPast(rest, |base|)) {
      ApartEnds(d, base, list, rest);
    } else {
      var list, rest := TakeApart(d, |base|);
      ApartEnds(d, base, list, rest);
    }
  }

  /** A delta expands cleanly if and only if it is good instructions and nothing else, and then to what they describe. */
  lemma CleanIff(d: seq<byte>, base: seq<byte>)
    ensures Expand(d, base).end == Clean <==> exists list :: AllEncodable(list, |base|) && d == Encoding(list)
    ensures forall list :: AllEncodable(list, |base|) && d == Encoding(list) ==> Expand(d, base).bytes == Meaning(list, base)
  {
    hide Expand, CutOff, CopyPast, Encoding, AllEncodable;
    var list, rest := TakeApart(d, |base|);
    ApartEnds(d, base, list, rest);
    assert Encoding(list) + [] == Encoding(list);
    forall good | AllEncodable(good, |base|) && d == Encoding(good)
      ensures Expand(d, base) == Output(Meaning(good, base), Clean)
    {
      ExpandEncoded(good, base);
    }
  }

  /** An unknown instruction is reported if and only if the byte behind good instructions is zero. */
  lemma UnknownIff(d: seq<byte>, base: seq<byte>)
    ensures Expand(d, base).end == Unknown <==>
      exists list, rest :: AllEncodable(list, |base|) && d == Encoding(list) + rest && Reserved(rest)
  {
    hide Expand, CutOff, CopyPast, Encoding, AllEncodable, Reserved;
    if list, rest :| AllEncodable(list, |base|) && d == Encoding(list) + rest && Reserved(rest) {
      ApartEnds(d, base, list, rest);
    } else {
      var list, rest := TakeApart(d, |base|);
      ApartEnds(d, base, list, rest);
    }
  }

  /** The same for a whole delta, header included: this is the ending Read reports. */
  lemma SemanticsTruncatedIff(delta: seq<byte>, base: seq<byte>)
    ensures Semantics(delta, base).end == Truncated <==>
      && ParseHeader(delta).Some? && ParseHeader(delta).value.1 < MAX_INT64
      && var n := ParseHeader(delta).value.0;
      && n <= |delta|
      && exists list, rest ::
           && AllEncodable(list, |base|) && delta[n..] == Encoding(list) + rest
           && (CutOff(rest) || CopyPast(rest, |base|))
  {
    hide Expand, ParseHeader, CutOff, CopyPast, Encoding, AllEncodable;
    if ParseHeader(delta).Some? && ParseHeader(delta).value.0 <= |delta| {
      TruncatedIff(delta[ParseHeader(delta).value.0..], base);
    }
  }
}
