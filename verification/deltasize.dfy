/** DeltaObjectSize, and instructions as Git defines them. */
module DeltaSize {
  import opened Common
  import opened Streams
  import opened Delta

  /** The sum of the sizes the instructions name, if they parse to the end. */
  function SizeOf(delta: seq<byte>): Option<nat>
    decreases |delta|
  {
    if delta == [] then Some(0)
    else
      var op, s := delta[0], delta[1..];
      if op >= 128 then
        match ParseCopy(op, s)
        case None => None
        case Some(c) => if c.used > |s| then None else Plus(c.size, SizeOf(s[c.used..]))
      else if op > 0 && |s| >= op then Plus(op, SizeOf(s[op..]))
      else None
  }

  function Plus(n: nat, m: Option<nat>): Option<nat> {
    match m
    case None => None
    case Some(k) => Some(n + k)
  }

  /** Every copy instruction stays inside a base of `n` bytes, as far as the delta parses. */
  predicate CopiesInside(delta: seq<byte>, n: nat)
    decreases |delta|
  {
    if delta == [] then true
    else
      var op, s := delta[0], delta[1..];
      if op >= 128 then
        match ParseCopy(op, s)
        case None => true
        case Some(c) => c.used > |s| || (c.offset + c.size <= n && CopiesInside(s[c.used..], n))
      else op == 0 || |s| < op || CopiesInside(s[op..], n)
  }

  /**
   A delta expands cleanly exactly when its size can be computed and no copy leaves the base,
   and then the computed size is the size of the expansion.
   */
  lemma {:induction false} SizeAgrees(delta: seq<byte>, base: seq<byte>)
    ensures Expand(delta, base).end.Clean? <==> SizeOf(delta).Some? && CopiesInside(delta, |base|)
    ensures Expand(delta, base).end.Clean? ==> SizeOf(delta) == Some(|Expand(delta, base).bytes|)
    decreases |delta|
  {
    hide ParseCopy, From, Taking;
    if delta != [] {
      var op, s := delta[0], delta[1..];
      if op >= 128 {
        if ParseCopy(op, s).Some? {
          var c := ParseCopy(op, s).value;
          ParseCopyUses(op, s);
          SizeAgrees(s[c.used..], base);
          CleanCopy(base, c.offset, c.size, Expand(s[c.used..], base));
        }
      } else if op > 0 && |s| >= op {
        SizeAgrees(s[op..], base);
      }
    }
  }

  /** A copy that asks for something ends cleanly exactly when it lies inside the base and what follows is clean. */
  lemma CleanCopy(base: seq<byte>, offset: nat, size: nat, next: Output)
    requires size > 0
    ensures var o := Taking(From(base, offset), size, next);
      && (o.end.Clean? <==> offset + size <= |base| && next.end.Clean?)
      && (o.end.Clean? ==> |o.bytes| == size + |next.bytes|)
  {
  }

  /** DeltaObjectSize of a whole delta. */
  function ObjectSize(delta: seq<byte>): Option<nat> {
    match ParseHeader(delta)
    case None => None
    case Some((n, _)) => if n > |delta| then None else SizeOf(delta[n..])
  }

  /**
   For a whole delta: the interpreter ends cleanly exactly when DeltaObjectSize succeeds, no
   copy leaves the base, and the declared size fits an int64; the sizes then agree.
   */
  lemma ObjectSizeAgrees(delta: seq<byte>, base: seq<byte>)
    ensures Apply(delta, base).Some? <==>
      && ObjectSize(delta).Some?
      && CopiesInside(delta[ParseHeader(delta).value.0..], |base|)
      && ParseHeader(delta).value.1 < MAX_INT64
    ensures Apply(delta, base).Some? ==> ObjectSize(delta) == Some(|Apply(delta, base).value|)
  {
    if ParseHeader(delta).Some? {
      ParseHeaderUses(delta);
      SizeAgrees(delta[ParseHeader(delta).value.0..], base);
    }
  }

  /** copyN into io.Discard: skip exactly `n` bytes, however short the reads are. */
  method Skip(r: ByteStream, n: nat) returns (ok: bool)
    modifies r`pos
    ensures ok == (|old(r.Rest())| >= n)
    ensures ok ==> r.Rest() == old(r.Rest())[n..]
  {
    var left: nat := n;
    ghost var s := r.Rest();
    while left > 0
      invariant left <= n && n - left <= |s| && r.Rest() == s[n - left..]
    {
      var p, eof := r.Read(left);
      left := left - |p|;
      if eof && left > 0 {
        return false;
      }
    }
    ok := true;
  }

  /** The body of the loop: skip what follows instruction `op` and say how much it produces. */
  method InstructionSize(op: byte, delta: ByteStream, ghost whole: seq<byte>) returns (n: Option<nat>)
    requires whole != [] && whole[0] == op && whole[1..] == delta.Rest()
    modifies delta`pos
    ensures n.None? ==> SizeOf(whole).None?
    ensures n.Some? ==> |delta.Rest()| < |whole| && SizeOf(whole) == Plus(n.value, SizeOf(delta.Rest()))
  {
    if op >= 128 {
      var c := ReadCopyBaseInstruction(op, delta);
      n := if c.None? then None else Some(c.value.size);
    } else if op > 0 {
      var ok := Skip(delta, op);
      n := if ok then Some(op) else None;
    } else {
      n := None;
    }
  }

  method DeltaObjectSize(delta: ByteStream) returns (n: Option<nat>)
    modifies delta`pos
    ensures n == ObjectSize(old(delta.Rest()))
  {
    var size := ReadDeltaHeader(delta);
    if size.None? {
      return None;
    }
    n := SumSizes(delta);
  }

  lemma SizeOfNothing()
    ensures SizeOf([]) == Some(0)
  {
  }

  /** The loop of DeltaObjectSize over the instructions. */
  method SumSizes(delta: ByteStream) returns (n: Option<nat>)
    modifies delta`pos
    ensures n == SizeOf(old(delta.Rest()))
  {
    hide SizeOf;
    var sum: nat := 0;
    ghost var total, rest := SizeOf(delta.Rest()), delta.Rest();
    while true
      invariant rest == delta.Rest() && total == Plus(sum, SizeOf(rest))
      decreases |rest|
    {
      var op := delta.ReadByte();
      if op.None? {
        SizeOfNothing();
        return Some(sum);
      }
      var nn := InstructionSize(op.value, delta, rest);
      if nn.None? {
        return None;
      }
      sum := sum + nn.value;
      rest := delta.Rest();
    }
  }

  // ---------------------------------------------------------------- instructions by their meaning

  /**
   Git's two instructions. The low bits of `op` say which of the seven argument bytes of a
   copy are written out; `field` is the size argument, where zero stands for 0x10000.
   */
  datatype Instruction = Copy(offset: nat, field: nat, op: byte) | Insert(data: seq<byte>)

  function CopySize(field: nat): nat {
    if field == 0 then 0x10000 else field
  }

  /** The flagged bytes of `v`, least significant first. */
  function Scatter(flags: seq<bool>, v: nat): seq<byte> {
    if flags == [] then []
    else (if flags[0] then [v % 256] else []) + Scatter(flags[1..], v / 256)
  }

  /** Bytes that are not written out are zero, and no further byte is needed. */
  predicate Fits(flags: seq<bool>, v: nat) {
    if flags == [] then v == 0 else (flags[0] || v % 256 == 0) && Fits(flags[1..], v / 256)
  }

  /** The instruction can be written, whatever base it is for. */
  predicate Sound(ins: Instruction) {
    match ins
    case Copy(offset, field, op) => op >= 128 && Fits(Flags(op, 0, 4), offset) && Fits(Flags(op, 4, 7), field)
    case Insert(data) => 0 < |data| < 128
  }

  /** It can be written, and a copy stays inside a base of `n` bytes. */
  predicate Encodable(ins: Instruction, n: nat) {
    Sound(ins) && (ins.Copy? ==> ins.offset + CopySize(ins.field) <= n)
  }

  predicate AllEncodable(list: seq<Instruction>, n: nat) {
    forall i :: 0 <= i < |list| ==> Encodable(list[i], n)
  }

  function EncodeInstruction(ins: Instruction): seq<byte> {
    match ins
    case Copy(offset, field, op) => [op] + Scatter(Flags(op, 0, 4), offset) + Scatter(Flags(op, 4, 7), field)
    case Insert(data) => if |data| < 128 then [|data|] + data else []
  }

  function Encoding(list: seq<Instruction>): seq<byte> {
    if list == [] then [] else EncodeInstruction(list[0]) + Encoding(list[1..])
  }

  /** What an instruction produces, by its description alone. */
  function Made(ins: Instruction, base: seq<byte>): seq<byte> {
    match ins
    case Copy(offset, field, _) =>
      if offset + CopySize(field) <= |base| then base[offset..offset + CopySize(field)] else []
    case Insert(data) => data
  }

  function Meaning(list: seq<Instruction>, base: seq<byte>): seq<byte> {
    if list == [] then [] else Made(list[0], base) + Meaning(list[1..], base)
  }

  lemma {:induction false} GatherScatter(flags: seq<bool>, v: nat, rest: seq<byte>)
    requires Fits(flags, v)
    ensures Gather(flags, Scatter(flags, v) + rest) == Some((v, |Scatter(flags, v)|))
    decreases |flags|
  {
    if flags != [] {
      GatherScatter(flags[1..], v / 256, rest);
      assert (Scatter(flags, v) + rest)[if flags[0] then 1 else 0..] == Scatter(flags[1..], v / 256) + rest;
    }
  }

  lemma ParseEncodedCopy(offset: nat, field: nat, op: byte, rest: seq<byte>)
    requires Fits(Flags(op, 0, 4), offset) && Fits(Flags(op, 4, 7), field)
    ensures var a := Scatter(Flags(op, 0, 4), offset) + Scatter(Flags(op, 4, 7), field);
      ParseCopy(op, a + rest) == Some(CopyArgs(offset, CopySize(field), |a|))
  {
    var a, b := Scatter(Flags(op, 0, 4), offset), Scatter(Flags(op, 4, 7), field);
    assert a + b + rest == a + (b + rest) && (a + (b + rest))[|a|..] == b + rest;
    GatherScatter(Flags(op, 0, 4), offset, b + rest);
    GatherScatter(Flags(op, 4, 7), field, rest);
  }

  lemma ExpandAt(d: seq<byte>, base: seq<byte>, c: CopyArgs)
    requires d != [] && d[0] >= 128 && ParseCopy(d[0], d[1..]) == Some(c) && c.used < |d|
    ensures Expand(d, base) == Taking(From(base, c.offset), c.size, Expand(d[1..][c.used..], base))
  {
  }

  lemma InstructionParts(op: byte, a: seq<byte>, b: seq<byte>, rest: seq<byte>)
    ensures var d := [op] + a + b + rest;
      d != [] && d[0] == op && d[1..] == a + b + rest && d[1..][|a + b|..] == rest
  {
  }

  lemma ExpandCopy(offset: nat, field: nat, op: byte, rest: seq<byte>, base: seq<byte>)
    requires Encodable(Copy(offset, field, op), |base|)
    ensures Expand(EncodeInstruction(Copy(offset, field, op)) + rest, base)
         == Then(base[offset..offset + CopySize(field)], Expand(rest, base))
  {
    hide Expand, ParseCopy, Flags;
    var a, b := Scatter(Flags(op, 0, 4), offset), Scatter(Flags(op, 4, 7), field);
    ParseEncodedCopy(offset, field, op, rest);
    InstructionParts(op, a, b, rest);
    ExpandAt([op] + a + b + rest, base, CopyArgs(offset, CopySize(field), |a + b|));
    CopyRange(base, offset, CopySize(field), Expand(rest, base));
  }

  lemma CopyRange(base: seq<byte>, offset: nat, size: nat, next: Output)
    requires offset + size <= |base|
    ensures Taking(From(base, offset), size, next) == Then(base[offset..offset + size], next)
  {
    assert base[offset..][..size] == base[offset..offset + size];
  }

  lemma ExpandInsert(data: seq<byte>, rest: seq<byte>, base: seq<byte>)
    requires 0 < |data| < 128
    ensures Expand(EncodeInstruction(Insert(data)) + rest, base) == Then(data, Expand(rest, base))
  {
    var d := EncodeInstruction(Insert(data)) + rest;
    assert d[1..] == data + rest && (data + rest)[|data|..] == rest && (data + rest)[..|data|] == data;
  }

  /** Any list of instructions that fits the base expands to what it describes. */
  lemma {:induction false} ExpandEncoded(list: seq<Instruction>, base: seq<byte>)
    requires AllEncodable(list, |base|)
    ensures Expand(Encoding(list), base) == Output(Meaning(list, base), Clean)
  {
    if list != [] {
      ExpandEncoded(list[1..], base);
      match list[0]
      case Copy(offset, field, op) => ExpandCopy(offset, field, op, Encoding(list[1..]), base);
      case Insert(data) => ExpandInsert(data, Encoding(list[1..]), base);
    }
  }
}
