/** Deltified objects (Git pack-format): what a delta means, and its incremental reader. */
module Delta {
  import opened Common
  import opened Streams
  import Varint

  /** How the expansion of a delta ends; `Clean` is io.EOF, `Truncated` io.ErrUnexpectedEOF. */
  datatype Ending = Clean | Truncated | Unknown | BadHeader

  datatype Output = Output(bytes: seq<byte>, end: Ending)

  function Then(p: seq<byte>, o: Output): Output {
    Output(p + o.bytes, o.end)
  }

  /** Whether bit `i` of `op` is set. */
  predicate Bit(op: nat, i: nat) {
    if i == 0 then op % 2 == 1 else Bit(op / 2, i - 1)
  }

  /** The bits `lo..hi` of an instruction: which bytes of an argument are present. */
  function Flags(op: byte, lo: nat, hi: nat): seq<bool>
    requires lo <= hi
  {
    seq(hi - lo, i requires 0 <= i < hi - lo => Bit(op, lo + i))
  }

  /**
   A little-endian number of `|flags|` bytes of which only the flagged ones are present: the
   number, and how many bytes of `s` it used.
   */
  function Gather(flags: seq<bool>, s: seq<byte>): Option<(nat, nat)> {
    if flags == [] then Some((0, 0))
    else if !flags[0] then
      match Gather(flags[1..], s)
      case Some((v, n)) => Some((256 * v, n))
      case None => None
    else if s == [] then None
    else
      match Gather(flags[1..], s[1..])
      case Some((v, n)) => Some((s[0] + 256 * v, n + 1))
      case None => None
  }

  lemma {:induction false} GatherUses(flags: seq<bool>, s: seq<byte>)
    requires Gather(flags, s).Some?
    ensures Gather(flags, s).value.1 <= |s|
    decreases |flags|
  {
    if flags != [] {
      GatherUses(flags[1..], if flags[0] then s[1..] else s);
    }
  }

  /** Offset, size and length of the arguments of a copy; a size of zero means 0x10000. */
  datatype CopyArgs = CopyArgs(offset: nat, size: nat, used: nat)

  function ParseCopy(op: byte, s: seq<byte>): Option<CopyArgs> {
    match Gather(Flags(op, 0, 4), s)
    case None => None
    case Some((offset, n)) =>
      if n > |s| then None
      else
        match Gather(Flags(op, 4, 7), s[n..])
        case None => None
        case Some((size, m)) => Some(CopyArgs(offset, if size == 0 then 0x10000 else size, n + m))
  }

  lemma ParseCopyUses(op: byte, s: seq<byte>)
    requires ParseCopy(op, s).Some?
    ensures ParseCopy(op, s).value.used <= |s| && ParseCopy(op, s).value.size > 0
  {
    var n := Gather(Flags(op, 0, 4), s).value.1;
    GatherUses(Flags(op, 0, 4), s);
    GatherUses(Flags(op, 4, 7), s[n..]);
  }

  /** The first `n` bytes of `src`, then `next`; what there is of `src` if it is too short. */
  function Taking(src: seq<byte>, n: nat, next: Output): Output {
    if |src| < n then Output(src, Truncated) else Then(src[..n], next)
  }

  /** The same when the bytes come from the delta itself, which then goes on behind them. */
  function TakingOwn(s: seq<byte>, n: nat, base: seq<byte>): Output {
    if |s| < n then Output(s, Truncated) else Then(s[..n], Expand(s[n..], base))
  }

  /** What is left to take after `p` was taken, when more is needed. */
  lemma TakingSplit(src: seq<byte>, n: nat, next: Output, p: seq<byte>)
    requires p <= src && |p| <= n
    ensures Taking(src, n, next) == Then(p, Taking(src[|p|..], n - |p|, next))
    ensures |p| == n ==> Taking(src, n, next) == Then(p, next)
    ensures |p| < n && p == src ==> Taking(src, n, next) == Output(p, Truncated)
  {
    assert src == p + src[|p|..];
    if |src| >= n {
      assert src[..n] == p + src[|p|..][..n - |p|];
      assert Then(src[..n], next).bytes == p + (src[|p|..][..n - |p|] + next.bytes);
    }
  }

  lemma TakingOwnSplit(s: seq<byte>, n: nat, base: seq<byte>, p: seq<byte>)
    requires p <= s && |p| <= n
    ensures TakingOwn(s, n, base) == Then(p, TakingOwn(s[|p|..], n - |p|, base))
    ensures |p| == n ==> TakingOwn(s, n, base) == Then(p, Expand(s[|p|..], base))
    ensures |p| < n && p == s ==> TakingOwn(s, n, base) == Output(p, Truncated)
  {
    if |s| < n {
      TakingSplit(s, n, Output([], Clean), p);
    } else {
      assert s[n..] == s[|p|..][n - |p|..];
      TakingSplit(s, n, Expand(s[n..], base), p);
    }
  }

  function From(base: seq<byte>, offset: nat): seq<byte> {
    if offset <= |base| then base[offset..] else []
  }

  /** The meaning of a list of delta instructions. */
  function Expand(delta: seq<byte>, base: seq<byte>): Output
    decreases |delta|
  {
    if delta == [] then Output([], Clean)
    else
      var op, s := delta[0], delta[1..];
      if op >= 128 then
        match ParseCopy(op, s)
        case None => Output([], Truncated)
        case Some(c) =>
          if c.used > |s| then Output([], Truncated)
          else Taking(From(base, c.offset), c.size, Expand(s[c.used..], base))
      else if op > 0 then
        if |s| < op then Output(s, Truncated) else Then(s[..op], Expand(s[op..], base))
      else Output([], Unknown)
  }

  /** The length of the two sizes in front of the instructions, and the second size. */
  function ParseHeader(delta: seq<byte>): Option<(nat, nat)> {
    match Varint.Decode(delta, 0)
    case None => None
    case Some((_, n)) =>
      if n > |delta| then None
      else
        match Varint.Decode(delta[n..], 0)
        case None => None
        case Some((size, m)) => Some((n + m, size))
  }

  lemma ParseHeaderUses(delta: seq<byte>)
    requires ParseHeader(delta).Some?
    ensures 0 < ParseHeader(delta).value.0 <= |delta|
  {
    Varint.DecodeShort(delta, 0);
    Varint.DecodeShort(delta[Varint.Decode(delta, 0).value.1..], 0);
  }

  const MAX_INT64 := 0x8000_0000_0000_0000

  /** The meaning of a whole delta: header, then instructions. */
  function Semantics(delta: seq<byte>, base: seq<byte>): Output {
    match ParseHeader(delta)
    case None => Output([], BadHeader)
    case Some((n, size)) =>
      if n > |delta| || size >= MAX_INT64 then Output([], BadHeader) else Expand(delta[n..], base)
  }

  /** The object a delta makes from its base, if it expands cleanly. */
  function Apply(delta: seq<byte>, base: seq<byte>): Option<seq<byte>> {
    var o := Semantics(delta, base);
    if o.end.Clean? then Some(o.bytes) else None
  }

  // ---------------------------------------------------------------- reading instructions

  /** readCopyBaseInstruction. */
  method ReadCopyBaseInstruction(op: byte, r: ByteStream) returns (c: Option<CopyArgs>)
    modifies r`pos
    ensures c == ParseCopy(op, old(r.Rest()))
    ensures c.Some? ==> c.value.used <= |old(r.Rest())| && r.Rest() == old(r.Rest())[c.value.used..]
  {
    ghost var s := r.Rest();
    var offset, n := ReadFlagged(op, 0, 4, r);
    if offset.None? {
      return None;
    }
    ghost var s' := r.Rest();
    var size, m := ReadFlagged(op, 4, 7, r);
    if size.None? {
      return None;
    }
    assert s[n..][m..] == s[n + m..];
    c := Some(CopyArgs(offset.value, if size.value == 0 then 0x10000 else size.value, n + m));
  }

  /** `v` moved up by `n` bytes. */
  function Shifted(v: nat, n: nat): nat {
    if n == 0 then v else 256 * Shifted(v, n - 1)
  }

  lemma {:induction false} ShiftedSplit(low: nat, v: nat, n: nat)
    ensures Shifted(low + 256 * v, n) == Shifted(low, n) + Shifted(v, n + 1)
  {
    if n == 0 {
      assert Shifted(v, 1) == 256 * Shifted(v, 0);
    } else {
      ShiftedSplit(low, v, n - 1);
    }
  }

  lemma {:induction false} ShiftedZero(n: nat)
    ensures Shifted(0, n) == 0
  {
    if n > 0 {
      ShiftedZero(n - 1);
    }
  }

  /** One of its two loops, over the bits `lo..hi`. */
  method ReadFlagged(op: byte, lo: nat, hi: nat, r: ByteStream) returns (v: Option<nat>, n: nat)
    requires lo <= hi
    modifies r`pos
    ensures match Gather(Flags(op, lo, hi), old(r.Rest()))
      case Some((x, k)) => v == Some(x) && n == k && n <= |old(r.Rest())| && r.Rest() == old(r.Rest())[n..]
      case None => v == None
  {
    ghost var s := r.Rest();
    ghost var whole := Gather(Flags(op, lo, hi), s);
    var acc := 0;
    n := 0;
    for i := lo to hi
      invariant n <= |s| && r.Rest() == s[n..]
      invariant whole.None? <==> Gather(Flags(op, i, hi), s[n..]).None?
      invariant whole.Some? ==>
        && whole.value.0 == acc + Shifted(Gather(Flags(op, i, hi), s[n..]).value.0, i - lo)
        && whole.value.1 == n + Gather(Flags(op, i, hi), s[n..]).value.1
    {
      assert Flags(op, i, hi)[1..] == Flags(op, i + 1, hi);
      if !Bit(op, i) {
        if whole.Some? {
          ShiftedSplit(0, Gather(Flags(op, i + 1, hi), s[n..]).value.0, i - lo);
          ShiftedZero(i - lo);
        }
        continue;
      }
      var b := r.ReadByte();
      if b.None? {
        return None, 0;
      }
      assert s[n..][1..] == s[n + 1..];
      if whole.Some? {
        ShiftedSplit(b.value, Gather(Flags(op, i + 1, hi), s[n + 1..]).value.0, i - lo);
      }
      acc := acc + Shifted(b.value, i - lo);
      n := n + 1;
    }
    if whole.Some? {
      ShiftedZero(hi - lo);
    }
    v := Some(acc);
  }

  /** readDeltaHeader: the declared size of the result. */
  method ReadDeltaHeader(r: ByteStream) returns (size: Option<nat>)
    modifies r`pos
    ensures match ParseHeader(old(r.Rest()))
      case Some((n, z)) => size == Some(z) && n <= |old(r.Rest())| && r.Rest() == old(r.Rest())[n..]
      case None => size == None
  {
    ghost var s := r.Rest();
    var b := Varint.Read(r);
    if b.None? {
      return None;
    }
    size := Varint.Read(r);
    if size.Some? {
      ghost var n := Varint.Decode(s, 0).value.1;
      ghost var m := Varint.Decode(s[n..], 0).value.1;
      assert s[n..][m..] == s[n + m..];
    }
  }

  // ---------------------------------------------------------------- the reader

  class DeltaReader {
    const base: ByteStream
    const delta: ByteStream
    var inited: bool
    var initError: bool
    var expandedSize: nat
    var curr: ByteStream?
    var remaining: nat

    ghost predicate Valid()
      reads this
    {
      && base != delta
      && (curr == null || curr == base || curr == delta)
      && (curr != null ==> remaining > 0 && inited && !initError)
      && (!inited ==> !initError)
    }

    /** All that is still to come out of the reader, and how it will end. */
    ghost function Pending(): Output
      requires Valid()
      reads this, base, delta
    {
      if curr == base then Taking(base.Rest(), remaining, Expand(delta.Rest(), base.data))
      else if curr == delta then TakingOwn(delta.Rest(), remaining, base.data)
      else if initError then Output([], BadHeader)
      else if inited then Expand(delta.Rest(), base.data)
      else Semantics(delta.Rest(), base.data)
    }

    constructor (base: ByteStream, delta: ByteStream)
      requires base != delta
      ensures this.base == base && this.delta == delta
      ensures Valid() && !inited && curr == null && Pending() == Semantics(delta.Rest(), base.data)
    {
      this.base, this.delta := base, delta;
      inited, initError, expandedSize := false, false, 0;
      curr, remaining := null, 0;
    }

    /** Reads the header once; later calls repeat its verdict. */
    method Init() returns (ok: bool)
      requires Valid()
      modifies this, delta`pos
      ensures Valid() && inited && ok == !initError && curr == old(curr) && remaining == old(remaining)
      ensures Pending() == old(Pending())
      ensures !old(inited) ==> match ParseHeader(old(delta.Rest()))
        case Some((_, size)) => ok == (size < MAX_INT64) && (ok ==> expandedSize == size)
        case None => !ok
      ensures old(inited) ==> expandedSize == old(expandedSize) && delta.pos == old(delta.pos)
    {
      if inited {
        return !initError;
      }
      inited := true;
      var size := ReadDeltaHeader(delta);
      if size.None? || size.value >= MAX_INT64 {
        initError := true;
        return false;
      }
      expandedSize := size.value;
      ok := true;
    }

    /** The size the delta header declares, which the expansion need not match. */
    method Size() returns (n: Option<nat>)
      requires Valid()
      modifies this, delta`pos
      ensures Valid() && Pending() == old(Pending()) && inited
      ensures n.Some? ==> n.value == expandedSize
      ensures n.None? <==> initError
    {
      var ok := Init();
      n := if ok then Some(expandedSize) else None;
    }

    /**
     Reads at most `k` bytes. Without an error the bytes are a prefix of what was pending;
     an error appears exactly where the meaning of the delta has it.
     */
    method Read(k: nat) returns (p: seq<byte>, err: Option<Ending>)
      requires Valid()
      modifies this, base`pos, delta`pos
      ensures Valid() && |p| <= k
      ensures err.None? ==> old(Pending()) == Then(p, Pending()) && (k > 0 ==> p != [])
      ensures err.Some? ==> old(Pending()) == Output(p, err.value)
    {
      p := [];
      if curr == null {
        var ok := Init();
        if !ok {
          return [], Some(BadHeader);
        }
        err := ReadInstruction();
        if err.Some? {
          return;
        }
      }
      p, err := ReadCurrent(k);
    }

    /** The part of Read after an instruction is known. */
    method ReadCurrent(k: nat) returns (p: seq<byte>, err: Option<Ending>)
      requires Valid() && curr != null
      modifies this`curr, this`remaining, base`pos, delta`pos
      ensures Valid() && |p| <= k
      ensures err.None? ==> old(Pending()) == Then(p, Pending()) && (k > 0 ==> p != [])
      ensures err.Some? ==> old(Pending()) == Output(p, err.value)
    {
      hide Expand;
      ghost var src := curr.Rest();
      var eof;
      p, eof := curr.Read(Min(k, remaining));
      if curr == base {
        TakingSplit(src, remaining, Expand(delta.Rest(), base.data), p);
      } else {
        TakingOwnSplit(src, remaining, base.data, p);
      }
      assert eof ==> p == src;
      remaining := remaining - |p|;
      if remaining == 0 {
        eof := false;
        curr := null;
      }
      err := if eof then Some(Truncated) else None;
    }

    /** Decodes one instruction and points `curr` at the source of its bytes. */
    method ReadInstruction() returns (err: Option<Ending>)
      requires Valid() && inited && !initError && curr == null
      modifies this`curr, this`remaining, base`pos, delta`pos
      ensures Valid()
      ensures err.None? ==> curr != null && Pending() == old(Pending())
      ensures err.Some? ==> old(Pending()) == Output([], err.value)
    {
      var op := delta.ReadByte();
      if op.None? {
        return Some(Clean);
      }
      if op.value >= 128 {
        ghost var s := delta.Rest();
        var c := ReadCopyBaseInstruction(op.value, delta);
        if c.None? {
          return Some(Truncated);
        }
        ParseCopyUses(op.value, s);
        base.Seek(c.value.offset);
        curr, remaining := base, c.value.size;
      } else if op.value > 0 {
        curr, remaining := delta, op.value;
      } else {
        return Some(Unknown);
      }
      err := None;
    }
  }

  lemma ThenThen(a: seq<byte>, b: seq<byte>, o: Output)
    ensures Then(a, Then(b, o)) == Then(a + b, o)
    ensures Then(a, Output(b, o.end)) == Output(a + b, o.end)
  {
    assert a + (b + o.bytes) == a + b + o.bytes;
  }

  /** io.Copy from a reader into an empty buffer, whatever sizes it reads. */
  method Drain(d: DeltaReader, dst: Buffer) returns (end: Ending)
    requires d.Valid() && dst.data == []
    modifies d, d.base`pos, d.delta`pos, dst
    ensures old(d.Pending()) == Output(dst.data, end)
  {
    hide Expand, Semantics;
    ghost var whole, rest := d.Pending(), d.Pending();
    while true
      invariant d.Valid() && d.Pending() == rest && whole == Then(dst.data, rest)
      decreases |rest.bytes|
    {
      ghost var out := dst.data;
      var k: nat :| k > 0;
      var p, err := d.Read(k);
      dst.Write(p);
      if err.Some? {
        ThenThen(out, p, rest);
        return err.value;
      }
      ThenThen(out, p, d.Pending());
      rest := d.Pending();
    }
  }
}
