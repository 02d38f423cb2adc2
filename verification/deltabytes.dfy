/** Deltas by the rule of Git's pack-format, in plain arithmetic. */
module DeltaBytes {
  import opened Common
  import opened Delta
  import opened DeltaSize
  import Varint

  // ---------------------------------------------------------------- the bits of an instruction

  /** The bits `w`, least significant first, below the number `x`. */
  function Below(w: seq<bool>, x: nat): nat {
    if w == [] then x else (if w[0] then 1 else 0) + 2 * Below(w[1..], x)
  }

  lemma {:induction false} BitBelow(w: seq<bool>, x: nat, i: nat)
    requires i < |w|
    ensures Bit(Below(w, x), i) == w[i]
  {
    if i > 0 {
      BitBelow(w[1..], x, i - 1);
    }
  }

  lemma SevenBits(w: seq<bool>)
    requires |w| == 7
    ensures Below(w, 1) == 128 +
      (if w[0] then 1 else 0) + (if w[1] then 2 else 0) + (if w[2] then 4 else 0) + (if w[3] then 8 else 0) +
      (if w[4] then 16 else 0) + (if w[5] then 32 else 0) + (if w[6] then 64 else 0)
  {
    FewBits(w[..3], Below(w[3..], 1));
    FewBits(w[3..][..3], Below(w[6..], 1));
    BelowSplit(w, 3, 1);
    BelowSplit(w[3..], 3, 1);
    assert w[3..][3..] == w[6..] && w[6..][1..] == [];
  }

  lemma FewBits(w: seq<bool>, x: nat)
    requires |w| == 3
    ensures Below(w, x) ==
      (if w[0] then 1 else 0) + (if w[1] then 2 else 0) + (if w[2] then 4 else 0) + 8 * x
  {
    assert w[1..] == [w[1], w[2]] && [w[1], w[2]][1..] == [w[2]] && [w[2]][1..] == [];
    assert Below([w[2]], x) == (if w[2] then 1 else 0) + 2 * x;
    assert Below([w[1], w[2]], x) == (if w[1] then 1 else 0) + 2 * Below([w[2]], x);
  }

  lemma {:induction false} BelowSplit(w: seq<bool>, n: nat, x: nat)
    requires n <= |w|
    ensures Below(w, x) == Below(w[..n], Below(w[n..], x))
  {
    if n > 0 {
      BelowSplit(w[1..], n - 1, x);
      assert w[..n][1..] == w[1..][..n - 1] && w[n..] == w[1..][n - 1..];
    } else {
      assert w[0..] == w;
    }
  }

  lemma FlagsBelow(w: seq<bool>, op: byte)
    requires |w| == 7 && op == Below(w, 1)
    ensures Flags(op, 0, 4) == w[..4] && Flags(op, 4, 7) == w[4..]
  {
    forall i: nat | i < 7 ensures Bit(op, i) == w[i] {
      BitBelow(w, 1, i);
    }
  }

  // ---------------------------------------------------------------- the argument bytes

  /** The bytes of `b` that are written. */
  function Picked(w: seq<bool>, b: seq<byte>): seq<byte>
    requires |w| == |b|
  {
    if w == [] then [] else If(w[0], b[0]) + Picked(w[1..], b[1..])
  }

  function LittleEndian(b: seq<byte>): nat {
    if b == [] then 0 else b[0] + 256 * LittleEndian(b[1..])
  }

  predicate ZeroUnwritten(w: seq<bool>, b: seq<byte>)
    requires |w| == |b|
  {
    forall i :: 0 <= i < |w| && !w[i] ==> b[i] == 0
  }

  lemma {:induction false} GatherPicked(w: seq<bool>, b: seq<byte>, rest: seq<byte>)
    requires |w| == |b| && ZeroUnwritten(w, b)
    ensures w == [] ==> b == [] && Picked(w, b) == [] && LittleEndian(b) == 0
    ensures Gather(w, Picked(w, b) + rest) == Some((LittleEndian(b), |Picked(w, b)|))
    decreases |w|
  {
    if w != [] {
      hide Picked, LittleEndian;
      GatherPicked(w[1..], b[1..], rest);
      PickedStep(w, b, rest);
    }
  }

  lemma PickedStep(w: seq<bool>, b: seq<byte>, rest: seq<byte>)
    requires |w| == |b| > 0
    ensures var s, t := Picked(w, b) + rest, Picked(w[1..], b[1..]);
      && (w[0] ==> s != [] && s[0] == b[0] && s[1..] == t + rest && |Picked(w, b)| == 1 + |t|)
      && (!w[0] ==> s == t + rest && |Picked(w, b)| == |t|)
    ensures LittleEndian(b) == b[0] + 256 * LittleEndian(b[1..])
  {
  }

  /** A byte that may be written. */
  function If(written: bool, b: byte): seq<byte> {
    if written then [b] else []
  }

  lemma ThreeBytes(w: seq<bool>, b: seq<byte>)
    requires |w| == |b| == 3
    ensures LittleEndian(b) == (b[0] as int) + 0x100 * (b[1] as int) + 0x1_0000 * (b[2] as int)
    ensures Picked(w, b) == If(w[0], b[0]) + If(w[1], b[1]) + If(w[2], b[2])
  {
    assert b[1..] == [b[1], b[2]] && [b[1], b[2]][1..] == [b[2]] && [b[2]][1..] == [];
    assert LittleEndian([b[1], b[2]]) == b[1] + 256 * LittleEndian([b[2]]);
    assert LittleEndian([b[2]]) == b[2] && Picked([w[2]], [b[2]]) == If(w[2], b[2]);
    assert Picked([w[1], w[2]], [b[1], b[2]]) == If(w[1], b[1]) + If(w[2], b[2]);
    assert w[1..] == [w[1], w[2]] && [w[1], w[2]][1..] == [w[2]] && [w[2]][1..] == [];
  }

  lemma FourBytes(w: seq<bool>, b: seq<byte>)
    requires |w| == |b| == 4
    ensures LittleEndian(b) == (b[0] as int) + 0x100 * (b[1] as int) + 0x1_0000 * (b[2] as int) + 0x100_0000 * (b[3] as int)
    ensures Picked(w, b) == If(w[0], b[0]) + If(w[1], b[1]) + If(w[2], b[2]) + If(w[3], b[3])
  {
    ThreeBytes(w[1..], b[1..]);
  }

  lemma ParsePicked(op: byte, w: seq<bool>, b: seq<byte>, rest: seq<byte>)
    requires |w| == |b| == 7 && op == Below(w, 1) && ZeroUnwritten(w, b)
    ensures var offset, size := LittleEndian(b[..4]), LittleEndian(b[4..]);
      var args := Picked(w[..4], b[..4]) + Picked(w[4..], b[4..]);
      ParseCopy(op, args + rest) == Some(CopyArgs(offset, if size == 0 then 0x10000 else size, |args|))
  {
    hide Flags, Gather, Below;
    FlagsBelow(w, op);
    var p, q := Picked(w[..4], b[..4]), Picked(w[4..], b[4..]);
    assert p + q + rest == p + (q + rest) && (p + (q + rest))[|p|..] == q + rest;
    GatherPicked(w[..4], b[..4], q + rest);
    GatherPicked(w[4..], b[4..], rest);
  }

  lemma WrittenBytes(w: seq<bool>, b: seq<byte>)
    requires |w| == |b| == 7
    ensures Picked(w[..4], b[..4]) == If(w[0], b[0]) + If(w[1], b[1]) + If(w[2], b[2]) + If(w[3], b[3])
    ensures Picked(w[4..], b[4..]) == If(w[4], b[4]) + If(w[5], b[5]) + If(w[6], b[6])
    ensures LittleEndian(b[..4]) ==
      (b[0] as int) + 0x100 * (b[1] as int) + 0x1_0000 * (b[2] as int) + 0x100_0000 * (b[3] as int)
    ensures LittleEndian(b[4..]) == (b[4] as int) + 0x100 * (b[5] as int) + 0x1_0000 * (b[6] as int)
  {
    hide Picked, LittleEndian, If;
    FourBytes(w[..4], b[..4]);
    ThreeBytes(w[4..], b[4..]);
  }

  lemma ParsedCopy(op: byte, args: seq<byte>, rest: seq<byte>, base: seq<byte>, c: CopyArgs)
    requires op >= 128 && ParseCopy(op, args + rest) == Some(c) && c.used == |args|
    ensures var delta := [op] + args + rest;
      && (c.offset + c.size <= |base| ==>
        && Expand(delta, base).bytes == base[c.offset..c.offset + c.size] + Expand(rest, base).bytes
        && Expand(delta, base).end == Expand(rest, base).end)
      && SizeOf(delta) == Plus(c.size, SizeOf(rest))
  {
    hide Expand, SizeOf, ParseCopy;
    assert [op] + args + [] == [op] + args;
    InstructionParts(op, args, [], rest);
    assert args + [] == args;
    ExpandAt([op] + args + rest, base, c);
    SizeAt([op] + args + rest, c);
    if c.offset + c.size <= |base| {
      CopyRange(base, c.offset, c.size, Expand(rest, base));
    }
  }

  lemma SizeAt(d: seq<byte>, c: CopyArgs)
    requires d != [] && d[0] >= 128 && ParseCopy(d[0], d[1..]) == Some(c) && c.used < |d|
    ensures SizeOf(d) == Plus(c.size, SizeOf(d[1..][c.used..]))
  {
  }

  /**
   A copy instruction. `b` are four bytes of offset and three of size, least significant
   first; `w` says which are written, the others being zero. The bits of the first byte from
   the lowest up announce them in that order, a size of zero stands for 0x10000, and the
   instruction delivers that range of the base. What computes its size agrees.
   */
  lemma CopyByRule(w: seq<bool>, b: seq<byte>, rest: seq<byte>, base: seq<byte>)
    requires |w| == |b| == 7
    requires forall i :: 0 <= i < 7 && !w[i] ==> b[i] == 0
    ensures var op := 128 +
        (if w[0] then 1 else 0) + (if w[1] then 2 else 0) + (if w[2] then 4 else 0) + (if w[3] then 8 else 0) +
        (if w[4] then 16 else 0) + (if w[5] then 32 else 0) + (if w[6] then 64 else 0);
      var args := (If(w[0], b[0]) + If(w[1], b[1]) + If(w[2], b[2]) + If(w[3], b[3])) +
                  (If(w[4], b[4]) + If(w[5], b[5]) + If(w[6], b[6]));
      var offset: nat :=
        (b[0] as int) + 0x100 * (b[1] as int) + 0x1_0000 * (b[2] as int) + 0x100_0000 * (b[3] as int);
      var size: nat := (b[4] as int) + 0x100 * (b[5] as int) + 0x1_0000 * (b[6] as int);
      var n := if size == 0 then 0x10000 else size;
      var delta := [op] + args + rest;
      && ParseCopy(op, args + rest) == Some(CopyArgs(offset, n, |args|))
      && (offset + n <= |base| ==>
        && Expand(delta, base).bytes == base[offset..offset + n] + Expand(rest, base).bytes
        && Expand(delta, base).end == Expand(rest, base).end)
      && SizeOf(delta) == (match SizeOf(rest) case None => None case Some(k) => Some(n + k))
  {
    hide Expand, SizeOf, ParseCopy, Flags, Below, Picked, LittleEndian, If;
    SevenBits(w);
    WrittenBytes(w, b);
    var op := Below(w, 1);
    ParsePicked(op, w, b, rest);
    var args := Picked(w[..4], b[..4]) + Picked(w[4..], b[4..]);
    ParsedCopy(op, args, rest, base, ParseCopy(op, args + rest).value);
  }

  /** An insertion: its length in the low seven bits, then the bytes. */
  lemma InsertByRule(k: byte, data: seq<byte>, rest: seq<byte>, base: seq<byte>)
    requires 0 < k < 128 && |data| == k
    ensures Expand([k] + data + rest, base).bytes == data + Expand(rest, base).bytes
    ensures Expand([k] + data + rest, base).end == Expand(rest, base).end
    ensures SizeOf([k] + data + rest) == (match SizeOf(rest) case None => None case Some(n) => Some(|data| + n))
  {
    hide ParseCopy, From, Taking;
    var d := [k] + data + rest;
    assert d[1..] == data + rest && (data + rest)[k..] == rest && (data + rest)[..k] == data;
  }

  /** Zero is no instruction. */
  lemma ZeroByRule(rest: seq<byte>, base: seq<byte>)
    ensures Expand([0] + rest, base) == Output([], Unknown) && SizeOf([0] + rest).None?
  {
    hide ParseCopy, From, Taking;
  }

  lemma NothingLeft(base: seq<byte>)
    ensures Expand([], base) == Output([], Clean) && SizeOf([]) == Some(0)
  {
  }

  // ---------------------------------------------------------------- the two sizes

  /** The groups `g` of seven bits as they are written: all but the last are flagged. */
  function Groups(g: seq<byte>): seq<byte>
    requires forall i :: 0 <= i < |g| ==> g[i] < 128
  {
    if |g| <= 1 then g else [128 + g[0]] + Groups(g[1..])
  }

  /** Their number, the first group being the lowest. */
  function GroupsNumber(g: seq<byte>): nat {
    if g == [] then 0 else g[0] + 128 * GroupsNumber(g[1..])
  }

  predicate Size64(g: seq<byte>) {
    && 0 < |g| <= 10 && (|g| == 10 ==> g[9] <= 1)
    && forall i :: 0 <= i < |g| ==> g[i] < 128
  }

  lemma {:induction false} DecodeGroups(g: seq<byte>, k: nat, rest: seq<byte>)
    requires g != [] && |g| + k <= 10 && (|g| + k == 10 ==> Last(g) <= 1)
    requires forall i :: 0 <= i < |g| ==> g[i] < 128
    ensures Varint.Decode(Groups(g) + rest, k) == Some((GroupsNumber(g), |Groups(g)|))
    ensures |Groups(g)| == |g|
    decreases |g|
  {
    var s := Groups(g) + rest;
    if |g| == 1 {
      assert s[0] == g[0];
      assert g[1..] == [];
    } else {
      DecodeGroups(g[1..], k + 1, rest);
      assert s[1..] == Groups(g[1..]) + rest;
    }
  }

  /** Every size that is read is written like that: in at most ten groups, and below 2^64. */
  lemma {:induction false} DecodedGroups(s: seq<byte>, k: nat) returns (g: seq<byte>)
    requires Varint.Decode(s, k).Some?
    ensures g != [] && |g| + k <= 10 && (|g| + k == 10 ==> Last(g) <= 1)
    ensures forall i :: 0 <= i < |g| ==> g[i] < 128
    ensures Groups(g) <= s
    decreases |s|
  {
    if s[0] < 128 {
      g := [s[0]];
    } else {
      var more := DecodedGroups(s[1..], k + 1);
      g := [s[0] - 128] + more;
      assert g[1..] == more && s == [s[0]] + s[1..];
    }
  }

  /** A size is read exactly where one is written. */
  lemma SizeReadIff(s: seq<byte>)
    ensures Varint.Decode(s, 0).Some? <==> exists g :: Size64(g) && Groups(g) <= s
  {
    hide Groups, Varint.Decode;
    if Varint.Decode(s, 0).Some? {
      var g := DecodedGroups(s, 0);
      assert Size64(g);
    }
    if g :| Size64(g) && Groups(g) <= s {
      DecodeGroups(g, 0, s[|Groups(g)|..]);
      assert s == Groups(g) + s[|Groups(g)|..];
    }
  }

  /** A size in one or two bytes. */
  lemma ShortSize(a: byte, b: byte)
    requires a < 128 && b < 128
    ensures Groups([a]) == [a] && GroupsNumber([a]) == a
    ensures Groups([a, b]) == [128 + a, b] && GroupsNumber([a, b]) == a + 128 * b
  {
    assert [a, b][1..] == [b] && [b][1..] == [] && [a][1..] == [];
  }

  /**
   Of the two sizes in front, little-endian in groups of seven bits, the second is the size
   of the result; the instructions follow.
   */
  lemma HeaderByRule(source: seq<byte>, target: seq<byte>, rest: seq<byte>, base: seq<byte>)
    requires Size64(source) && Size64(target)
    ensures var delta := Groups(source) + Groups(target) + rest;
      && ParseHeader(delta) == Some((|source| + |target|, GroupsNumber(target)))
      && (GroupsNumber(target) < 0x8000_0000_0000_0000 ==> Semantics(delta, base) == Expand(rest, base))
      && (GroupsNumber(target) >= 0x8000_0000_0000_0000 ==> Semantics(delta, base) == Output([], BadHeader))
      && ObjectSize(delta) == SizeOf(rest)
  {
    hide Expand, SizeOf, Varint.Decode, Groups;
    var s, t := Groups(source), Groups(target);
    assert s + t + rest == s + (t + rest) && (s + (t + rest))[|s|..] == t + rest;
    DecodeGroups(source, 0, t + rest);
    DecodeGroups(target, 0, rest);
    assert (s + t + rest)[|s| + |t|..] == rest;
  }

  lemma InsertAlone(base: seq<byte>, data: seq<byte>)
    requires 0 < |data| < 128
    ensures Expand([|data|] + data, base) == Output(data, Clean) && SizeOf([|data|] + data) == Some(|data|)
  {
    hide Expand, SizeOf;
    InsertByRule(|data|, data, [], base);
    assert [|data|] + data + [] == [|data|] + data && data + [] == data;
    NothingLeft(base);
  }

  lemma FiveArgs()
    ensures (If(false, 0) + If(false, 0) + If(false, 0) + If(false, 0)) + (If(true, 5) + If(false, 0) + If(false, 0)) == [5]
  {
  }

  lemma CopyFive(base: seq<byte>, rest: seq<byte>)
    requires |base| >= 5
    ensures var d := [0x90, 5] + rest;
      && Expand(d, base).bytes == base[..5] + Expand(rest, base).bytes
      && Expand(d, base).end == Expand(rest, base).end
      && SizeOf(d) == Plus(5, SizeOf(rest))
  {
    hide Expand, SizeOf, ParseCopy, If;
    FiveArgs();
    CopyByRule([false, false, false, false, true, false, false], [0, 0, 0, 0, 5, 0, 0], rest, base);
    assert [0x90] + [5] == [0x90, 5];
    assert base[0..5] == base[..5];
  }

  /** A whole delta in bytes: five bytes of the base from offset 0, then three of its own. */
  lemma CopyThenInsert(base: seq<byte>, x: byte, y: byte, z: byte)
    requires |base| >= 5
    ensures Apply([5, 8, 0x90, 5, 3, x, y, z], base) == Some(base[..5] + [x, y, z])
    ensures ObjectSize([5, 8, 0x90, 5, 3, x, y, z]) == Some(8)
  {
    hide Expand, SizeOf, ParseHeader, ParseCopy, Groups, GroupsNumber;
    var tail := [3] + [x, y, z];
    ShortSize(5, 0);
    ShortSize(8, 0);
    HeaderByRule([5], [8], [0x90, 5] + tail, base);
    assert [5] + [8] + ([0x90, 5] + tail) == [5, 8, 0x90, 5, 3, x, y, z];
    CopyFive(base, tail);
    InsertAlone(base, [x, y, z]);
  }
}
