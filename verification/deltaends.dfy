/**
 Where and how a delta ends when it was cut short at any of its bytes, or when one of its
 copies leaves the base; good instructions in front of either still deliver what they describe,
 and the ending says which of the two it was.
 */
module DeltaEnds {
  import opened ByteStrings
  import opened Common
  import opened Delta
  import opened DeltaSize

  lemma ExpandOne(ins: Instruction, rest: seq<byte>, base: seq<byte>)
    requires Encodable(ins, |base|)
    ensures Expand(EncodeInstruction(ins) + rest, base) == Then(Made(ins, base), Expand(rest, base))
  {
    hide Expand;
    match ins
    case Copy(offset, field, op) => ExpandCopy(offset, field, op, rest, base);
    case Insert(data) => ExpandInsert(data, rest, base);
  }

  /** Good instructions in front produce what they describe, and leave the rest as it was. */
  lemma {:induction false} ExpandBehind(list: seq<Instruction>, rest: seq<byte>, base: seq<byte>)
    requires AllEncodable(list, |base|)
    ensures Expand(Encoding(list) + rest, base) == Then(Meaning(list, base), Expand(rest, base))
  {
    hide Expand, EncodeInstruction, Encodable;
    if list == [] {
      assert [] + rest == rest;
    } else {
      Regroup(EncodeInstruction(list[0]), Encoding(list[1..]), rest);
      ExpandOne(list[0], Encoding(list[1..]) + rest, base);
      ExpandBehind(list[1..], rest, base);
      ThenThen(Made(list[0], base), Meaning(list[1..], base), Expand(rest, base));
    }
  }

  /** A copy that can be written but leaves the base. */
  predicate Outside(ins: Instruction, n: nat) {
    ins.Copy? && Sound(ins) && ins.offset + CopySize(ins.field) > n
  }

  /** It delivers what there is of the base from its offset on, and ends the output with an unexpected end. */
  lemma CopyOutside(list: seq<Instruction>, ins: Instruction, rest: seq<byte>, base: seq<byte>)
    requires AllEncodable(list, |base|) && Outside(ins, |base|)
    ensures Expand(Encoding(list) + (EncodeInstruction(ins) + rest), base)
         == Output(Meaning(list, base) + From(base, ins.offset), Truncated)
  {
    ExpandBehind(list, EncodeInstruction(ins) + rest, base);
    hide Expand, ParseCopy, Flags, Encoding, Meaning;
    var a, b := Scatter(Flags(ins.op, 0, 4), ins.offset), Scatter(Flags(ins.op, 4, 7), ins.field);
    ParseEncodedCopy(ins.offset, ins.field, ins.op, rest);
    InstructionParts(ins.op, a, b, rest);
    ExpandAt([ins.op] + a + b + rest, base, CopyArgs(ins.offset, CopySize(ins.field), |a + b|));
  }

  // ---------------------------------------------------------------- cut short

  /** `k` bytes of the encoding are whole instructions. */
  predicate Boundary(list: seq<Instruction>, k: int) {
    k == 0 || (list != [] && k >= |EncodeInstruction(list[0])| && Boundary(list[1..], k - |EncodeInstruction(list[0])|))
  }

  lemma {:induction false} GatherCut(flags: seq<bool>, v: nat, m: nat)
    requires m < |Scatter(flags, v)|
    ensures Gather(flags, Scatter(flags, v)[..m]) == None
    decreases |flags|
  {
    var s := Scatter(flags, v);
    var t := Scatter(flags[1..], v / 256);
    if flags[0] {
      assert s == [v % 256] + t;
      if m > 0 {
        assert s[..m] == [v % 256] + t[..m - 1];
        assert s[..m][1..] == t[..m - 1];
        GatherCut(flags[1..], v / 256, m - 1);
      }
    } else {
      assert s == t;
      GatherCut(flags[1..], v / 256, m);
    }
  }

  lemma ParseCopyCut(offset: nat, field: nat, op: byte, m: nat)
    requires Fits(Flags(op, 0, 4), offset) && Fits(Flags(op, 4, 7), field)
    requires m < |Scatter(Flags(op, 0, 4), offset) + Scatter(Flags(op, 4, 7), field)|
    ensures ParseCopy(op, (Scatter(Flags(op, 0, 4), offset) + Scatter(Flags(op, 4, 7), field))[..m]) == None
  {
    hide Flags;
    var a, b := Scatter(Flags(op, 0, 4), offset), Scatter(Flags(op, 4, 7), field);
    if m < |a| {
      assert (a + b)[..m] == a[..m];
      GatherCut(Flags(op, 0, 4), offset, m);
    } else {
      var k := m - |a|;
      assert (a + b)[..m] == a + b[..k] && (a + b[..k])[|a|..] == b[..k];
      GatherScatter(Flags(op, 0, 4), offset, b[..k]);
      GatherCut(Flags(op, 4, 7), field, k);
    }
  }

  lemma CutBehind(op: byte, tail: seq<byte>, k: nat)
    requires 0 < k <= |tail|
    ensures var d := ([op] + tail)[..k]; d != [] && d[0] == op && d[1..] == tail[..k - 1]
  {
  }

  lemma NoCopy(d: seq<byte>, base: seq<byte>)
    requires d != [] && d[0] >= 128 && ParseCopy(d[0], d[1..]) == None
    ensures Expand(d, base) == Output([], Truncated)
  {
  }

  lemma CutCopy(offset: nat, field: nat, op: byte, k: nat, base: seq<byte>)
    requires op >= 128 && Fits(Flags(op, 0, 4), offset) && Fits(Flags(op, 4, 7), field)
    requires 0 < k < |EncodeInstruction(Copy(offset, field, op))|
    ensures Expand(EncodeInstruction(Copy(offset, field, op))[..k], base) == Output([], Truncated)
  {
    hide ParseCopy, Flags, Expand, Scatter;
    var a, b := Scatter(Flags(op, 0, 4), offset), Scatter(Flags(op, 4, 7), field);
    assert [op] + a + b == [op] + (a + b);
    CutBehind(op, a + b, k);
    ParseCopyCut(offset, field, op, k - 1);
    NoCopy(([op] + (a + b))[..k], base);
  }

  lemma CutInsert(data: seq<byte>, k: nat, base: seq<byte>)
    requires 0 < |data| < 128 && 0 < k <= |data|
    ensures Expand(EncodeInstruction(Insert(data))[..k], base) == Output(data[..k - 1], Truncated)
  {
    CutBehind(|data|, data, k);
  }

  lemma CutOne(ins: Instruction, k: nat, base: seq<byte>)
    requires Encodable(ins, |base|) && 0 < k < |EncodeInstruction(ins)|
    ensures var o := Expand(EncodeInstruction(ins)[..k], base);
      o.end == Truncated && o.bytes <= Made(ins, base)
  {
    hide Expand;
    match ins
    case Copy(offset, field, op) => CutCopy(offset, field, op, k, base);
    case Insert(data) => CutInsert(data, k, base);
  }

  /**
   An encoding cut anywhere: what comes out is a prefix of what the instructions describe, and
   the end is clean exactly between instructions and unexpected inside of one.
   */
  lemma {:induction false} CutAnywhere(list: seq<Instruction>, k: nat, base: seq<byte>)
    requires AllEncodable(list, |base|) && k <= |Encoding(list)|
    ensures var o := Expand(Encoding(list)[..k], base);
      && o.end == (if Boundary(list, k) then Clean else Truncated)
      && o.bytes <= Meaning(list, base)
    decreases |list|
  {
    hide EncodeInstruction, Encodable, Made, Expand;
    if k == 0 {
      NothingLeft(Encoding(list), base);
    } else {
      var first, rest := EncodeInstruction(list[0]), Encoding(list[1..]);
      if k < |first| {
        CutFront(first, rest, k);
        CutOne(list[0], k, base);
        PrefixBoth(Expand(first[..k], base).bytes, Made(list[0], base), Meaning(list[1..], base));
      } else {
        var l := k - |first|;
        CutBack(first, rest, l);
        ExpandOne(list[0], rest[..l], base);
        CutAnywhere(list[1..], l, base);
        PrefixBehind(Made(list[0], base), Expand(rest[..l], base).bytes, Meaning(list[1..], base));
      }
    }
  }

  lemma NothingLeft(s: seq<byte>, base: seq<byte>)
    ensures Expand(s[..0], base) == Output([], Clean)
  {
  }

  lemma CutFront(first: seq<byte>, rest: seq<byte>, k: nat)
    requires k <= |first|
    ensures (first + rest)[..k] == first[..k]
  {
  }

  lemma CutBack(first: seq<byte>, rest: seq<byte>, l: nat)
    requires l <= |rest|
    ensures (first + rest)[..|first| + l] == first + rest[..l]
  {
  }

  lemma PrefixBoth(p: seq<byte>, a: seq<byte>, b: seq<byte>)
    requires p <= a
    ensures p <= a + b
  {
  }

  lemma PrefixBehind(a: seq<byte>, p: seq<byte>, b: seq<byte>)
    requires p <= b
    ensures a + p <= a + b
  {
  }
}
