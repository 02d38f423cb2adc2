/**
 Following delta chains through the file and expanding them in two buffers that change roles
 at every step, against a recursive definition of what undeltifying an object means.
 */
module Undeltify {
  import opened Common
  import opened Streams
  import opened Pack
  import opened PackFormat
  import opened PackFile
  import opened Index
  import opened BasePass
  import Delta

  /** The offset at which the base of a delta lies, if it can be found. */
  function BaseOf(idx: Index, h: Header): Option<nat> {
    if h.typ == REF_DELTA then
      var i := Position(idx.ids, h.baseId);
      if 0 <= i < |idx.offsets| && idx.offsets[i] >= 0 then Some(idx.offsets[i]) else None
    else if h.baseOffset >= 0 then Some(h.baseOffset)
    else None
  }

  function HeaderAt(file: seq<byte>, offset: nat): Option<Parsed> {
    if offset > |file| then None else DecodeHeader(offset, file[offset..])
  }

  /** The chain that starts at `offset` ends, in an object or an error, within `n` deltas. */
  predicate Ends(file: seq<byte>, idx: Index, offset: nat, n: nat)
    decreases n
  {
    var h := HeaderAt(file, offset);
    h.Some? && IsDelta(h.value.hdr.typ) ==>
      var base := BaseOf(idx, h.value.hdr);
      base.Some? ==> n > 0 && Ends(file, idx, base.value, n - 1)
  }

  /**
   What undeltification means: an object that is stored whole is its content, and a delta is
   what it makes of the undeltified object it names.
   */
  function Undelta(lib: Library, file: seq<byte>, idx: Index, offset: nat, n: nat): Option<Object>
    requires Ends(file, idx, offset, n)
    decreases n
  {
    var h := HeaderAt(file, offset);
    if h.None? then None
    else if !IsDelta(h.value.hdr.typ) then
      var d := BodyAt(lib, file, offset + h.value.used);
      if d.None? then None else Some(Object(TypeOf(h.value.hdr.typ), d.value))
    else
      var base := BaseOf(idx, h.value.hdr);
      if base.None? then None
      else
        var x := Undelta(lib, file, idx, base.value, n - 1);
        if x.None? then None else Patch(lib, file, offset + h.value.used, x.value)
  }

  /** The data of the zlib stream at `pos`. */
  function BodyAt(lib: Library, file: seq<byte>, pos: nat): Option<seq<byte>> {
    if pos > |file| then None
    else
      var z := Inflate(lib, file[pos..]);
      if z.None? || z.value.used > |file| - pos then None else Some(z.value.data)
  }

  /** Apply the delta whose zlib stream lies at `pos` to an object. */
  function Patch(lib: Library, file: seq<byte>, pos: nat, x: Object): Option<Object> {
    var d := BodyAt(lib, file, pos);
    if d.None? then None
    else
      var y := Delta.Apply(d.value, x.data);
      if y.None? then None else Some(Object(x.typ, y.value))
  }

  // ---------------------------------------------------------------- the chain

  /** The root of a chain, where its content starts, and the deltas on the way, target first. */
  datatype Chain = Chain(root: Header, start: nat, bodies: seq<nat>)

  function Walked(file: seq<byte>, idx: Index, offset: nat, n: nat): Option<Chain>
    requires Ends(file, idx, offset, n)
    decreases n
  {
    var h := HeaderAt(file, offset);
    if h.None? then None
    else if !IsDelta(h.value.hdr.typ) then Some(Chain(h.value.hdr, offset + h.value.used, []))
    else
      var base := BaseOf(idx, h.value.hdr);
      if base.None? then None
      else
        var c := Walked(file, idx, base.value, n - 1);
        if c.None? then None else Some(c.value.(bodies := [offset + h.value.used] + c.value.bodies))
  }

  /** Apply the deltas at `bodies`, the last one first. */
  function PatchAll(lib: Library, file: seq<byte>, bodies: seq<nat>, x: Object): Option<Object> {
    if bodies == [] then Some(x)
    else
      var y := PatchAll(lib, file, bodies[1..], x);
      if y.None? then None else Patch(lib, file, bodies[0], y.value)
  }

  lemma {:induction false} PatchLast(lib: Library, file: seq<byte>, bodies: seq<nat>, x: Object)
    requires bodies != []
    ensures PatchAll(lib, file, bodies, x) ==
      var y := Patch(lib, file, Last(bodies), x);
      if y.None? then None else PatchAll(lib, file, Front(bodies), y.value)
  {
    if |bodies| > 1 {
      PatchLast(lib, file, bodies[1..], x);
      assert Front(bodies)[1..] == Front(bodies[1..]);
    }
  }

  /** The stack walked and the recursive meaning agree, for chains of every length. */
  lemma {:induction false} WalkedMeaning(lib: Library, file: seq<byte>, idx: Index, offset: nat, n: nat)
    requires Ends(file, idx, offset, n)
    ensures var c := Walked(file, idx, offset, n);
      Undelta(lib, file, idx, offset, n) ==
      if c.None? then None
      else
        var d := BodyAt(lib, file, c.value.start);
        if d.None? then None
        else PatchAll(lib, file, c.value.bodies, Object(TypeOf(c.value.root.typ), d.value))
    decreases n
  {
    var h := HeaderAt(file, offset);
    if h.Some? && IsDelta(h.value.hdr.typ) && BaseOf(idx, h.value.hdr).Some? {
      var k := BaseOf(idx, h.value.hdr).value;
      WalkedMeaning(lib, file, idx, k, n - 1);
      var c := Walked(file, idx, k, n - 1);
      if c.Some? {
        assert ([offset + h.value.used] + c.value.bodies)[1..] == c.value.bodies;
      }
    }
  }

  /** A chain with further deltas on top. */
  function Below(stack: seq<nat>, c: Option<Chain>): Option<Chain> {
    match c
    case None => None
    case Some(ch) => Some(ch.(bodies := stack + ch.bodies))
  }

  lemma WalkedStep(file: seq<byte>, idx: Index, offset: nat, n: nat, stack: seq<nat>)
    requires Ends(file, idx, offset, n)
    requires var h := HeaderAt(file, offset); h.Some? && IsDelta(h.value.hdr.typ)
    ensures var h := HeaderAt(file, offset).value;
      var base := BaseOf(idx, h.hdr);
      && (base.None? ==> Walked(file, idx, offset, n) == None)
      && (base.Some? ==> n > 0 && Ends(file, idx, base.value, n - 1))
      && (base.Some? ==>
            Below(stack, Walked(file, idx, offset, n))
            == Below(stack + [offset + h.used], Walked(file, idx, base.value, n - 1)))
  {
    var h := HeaderAt(file, offset).value;
    var base := BaseOf(idx, h.hdr);
    if base.Some? {
      var c := Walked(file, idx, base.value, n - 1);
      if c.Some? {
        assert stack + ([offset + h.used] + c.value.bodies) == stack + [offset + h.used] + c.value.bodies;
      }
    }
  }

  lemma WalkedRoot(file: seq<byte>, idx: Index, offset: nat, n: nat, stack: seq<nat>)
    requires Ends(file, idx, offset, n)
    requires var h := HeaderAt(file, offset); h.Some? ==> !IsDelta(h.value.hdr.typ)
    ensures var h := HeaderAt(file, offset);
      Below(stack, Walked(file, idx, offset, n)) ==
      if h.None? then None else Some(Chain(h.value.hdr, offset + h.value.used, stack))
  {
    assert stack + [] == stack;
  }

  /** Seek to an object and read its header. */
  method HeaderFrom(f: ByteStream, offset: nat) returns (hdr: Option<Header>)
    modifies f`pos
    ensures var h := HeaderAt(f.data, offset);
      if h.None? then hdr == None
      else hdr == Some(h.value.hdr) && f.pos == offset + h.value.used <= |f.data|
  {
    f.Seek(offset);
    hdr := ReadObjectHeader(offset, f);
    if hdr.Some? {
      DecodeHeaderUses(offset, f.data[offset..]);
    }
  }

  /** The base of a delta, looked up in the index if it is named by ID. */
  method FindBase(idx: Index, h: Header) returns (base: Option<nat>)
    requires Sorted(idx.ids) && |idx.offsets| == |idx.ids|
    ensures base == BaseOf(idx, h)
  {
    var offset := h.baseOffset;
    if h.typ == REF_DELTA {
      var i := FindID(idx.ids, h.baseId);
      PositionIs(idx.ids, h.baseId);
      if i == -1 {
        return None;
      }
      offset := idx.offsets[i];
    }
    base := if offset < 0 then None else Some(offset);
  }

  /** walkDeltaChain: push the start of each delta until a whole object is reached. */
  method WalkDeltaChain(f: ByteStream, offset: nat, idx: Index, ghost n: nat) returns (c: Option<Chain>)
    requires Sorted(idx.ids) && |idx.offsets| == |idx.ids| && Ends(f.data, idx, offset, n)
    modifies f`pos
    ensures c == Walked(f.data, idx, offset, n)
    ensures c.Some? ==> f.pos == c.value.start <= |f.data|
  {
    hide HeaderAt, BaseOf, Walked, Ends;
    var stack: seq<nat> := [];
    var at: nat := offset;
    ghost var left: nat := n;
    var hdr := HeaderFrom(f, at);
    assert Walked(f.data, idx, offset, n) == Below([], Walked(f.data, idx, offset, n)) by {
      BelowNothing(Walked(f.data, idx, offset, n));
    }
    while hdr.Some? && IsDelta(hdr.value.typ)
      invariant Ends(f.data, idx, at, left)
      invariant var h := HeaderAt(f.data, at);
        if h.None? then hdr == None else hdr == Some(h.value.hdr) && f.pos == at + h.value.used <= |f.data|
      invariant Walked(f.data, idx, offset, n) == Below(stack, Walked(f.data, idx, at, left))
      decreases left
    {
      WalkedStep(f.data, idx, at, left, stack);
      stack := stack + [f.pos];
      var base := FindBase(idx, hdr.value);
      if base.None? {
        return None;
      }
      at, left := base.value, left - 1;
      hdr := HeaderFrom(f, at);
    }
    WalkedRoot(f.data, idx, at, left, stack);
    c := if hdr.None? then None else Some(Chain(hdr.value, f.pos, stack));
  }

  lemma BelowNothing(c: Option<Chain>)
    ensures Below([], c) == c
  {
    if c.Some? {
      assert [] + c.value.bodies == c.value.bodies;
    }
  }

  /** ResolveType: the type of the object a chain ends in. */
  method ResolveType(f: ByteStream, offset: nat, idx: Index, ghost n: nat) returns (t: Option<ObjType>)
    requires Sorted(idx.ids) && |idx.offsets| == |idx.ids| && Ends(f.data, idx, offset, n)
    modifies f`pos
    ensures t == match Walked(f.data, idx, offset, n)
      case None => None
      case Some(c) => Some(TypeOf(c.root.typ))
  {
    var c := WalkDeltaChain(f, offset, idx, n);
    t := if c.None? then None else Some(TypeOf(c.value.root.typ));
  }

  // ---------------------------------------------------------------- the two buffers

  class Undeltifier {
    var baseBuf: Buffer?
    var targetBuf: Buffer?

    /** The buffer that is read and the one that is written are never the same. */
    ghost predicate Valid()
      reads this
    {
      baseBuf != null ==> baseBuf != targetBuf
    }

    constructor ()
      ensures Valid() && baseBuf == null && targetBuf == null
    {
      baseBuf, targetBuf := null, null;
    }

    /** Expand a delta reader into the target buffer, after asking it for its size. */
    method Fill(r: Delta.DeltaReader) returns (ok: bool)
      requires Valid() && baseBuf != null && r.Valid()
      modifies this`targetBuf, targetBuf, r, r.base`pos, r.delta`pos
      ensures Valid() && baseBuf.data == old(baseBuf.data)
      ensures targetBuf == old(targetBuf) || fresh(targetBuf)
      ensures ok == old(r.Pending()).end.Clean?
      ensures ok ==> targetBuf != null && targetBuf.data == old(r.Pending()).bytes
    {
      hide Delta.Semantics, Delta.Expand;
      var size := r.Size();
      if size.None? {
        return false;
      }
      if targetBuf == null {
        targetBuf := new Buffer();
      } else {
        targetBuf.Reset();
      }
      var end := Delta.Drain(r, targetBuf);
      ok := end.Clean?;
    }

    /** Run the delta stream at the reader's position on the base buffer, into the target buffer. */
    method Expand(lib: Library, f: ByteStream, ghost typ: ObjType) returns (ok: bool)
      requires Valid() && baseBuf != null
      modifies this`targetBuf, targetBuf, f`pos
      ensures Valid() && baseBuf.data == old(baseBuf.data)
      ensures targetBuf == old(targetBuf) || fresh(targetBuf)
      ensures ok ==> targetBuf != null
      ensures Patch(lib, f.data, old(f.pos), Object(typ, old(baseBuf.data)))
           == if ok then Some(Object(typ, targetBuf.data)) else None
    {
      hide Delta.Semantics;
      if f.pos > |f.data| {
        return false;
      }
      var d := InflateNext(lib, f);
      if d.None? {
        return false;
      }
      var base := new ByteStream(baseBuf.data);
      var delta := new ByteStream(d.value);
      assert base.Rest() == baseBuf.data && delta.Rest() == d.value;
      var r := new Delta.DeltaReader(base, delta);
      ok := Fill(r);
    }

    /** The loop of Undeltify: pop a delta, apply it, swap the buffers. */
    method Unwind(lib: Library, f: ByteStream, bodies: seq<nat>, ghost typ: ObjType) returns (ok: bool)
      requires Valid() && baseBuf != null
      modifies this, baseBuf, targetBuf, f`pos
      ensures Valid() && baseBuf != null
      ensures PatchAll(lib, f.data, bodies, Object(typ, old(baseBuf.data)))
           == if ok then Some(Object(typ, baseBuf.data)) else None
    {
      hide Patch, PatchAll;
      var stack := bodies;
      ghost var meaning := PatchAll(lib, f.data, stack, Object(typ, baseBuf.data));
      while stack != []
        invariant Valid() && baseBuf != null
        invariant baseBuf == old(baseBuf) || baseBuf == old(targetBuf) || fresh(baseBuf)
        invariant targetBuf == null || targetBuf == old(baseBuf) || targetBuf == old(targetBuf) || fresh(targetBuf)
        invariant meaning == PatchAll(lib, f.data, stack, Object(typ, baseBuf.data))
        decreases |stack|
      {
        var start := Last(stack);
        PatchLast(lib, f.data, stack, Object(typ, baseBuf.data));
        stack := Front(stack);
        f.Seek(start);
        ok := Expand(lib, f, typ);
        if !ok {
          return false;
        }
        baseBuf, targetBuf := targetBuf, baseBuf;
      }
      PatchNothing(lib, f.data, Object(typ, baseBuf.data));
      ok := true;
    }

    /** Undeltify: read the root into the base buffer, then work back to the object asked for. */
    method Undeltify(lib: Library, f: ByteStream, offset: nat, idx: Index, ghost n: nat) returns (res: Option<Object>)
      requires Valid() && Sorted(idx.ids) && |idx.offsets| == |idx.ids| && Ends(f.data, idx, offset, n)
      modifies this, baseBuf, targetBuf, f`pos
      ensures Valid()
      ensures res == Undelta(lib, f.data, idx, offset, n)
    {
      hide Undelta, PatchAll, Walked;
      WalkedMeaning(lib, f.data, idx, offset, n);
      var c := WalkDeltaChain(f, offset, idx, n);
      if c.None? {
        return None;
      }
      var data := InflateNext(lib, f);
      if data.None? {
        return None;
      }
      var typ := TypeOf(c.value.root.typ);
      if c.value.bodies == [] {
        PatchNothing(lib, f.data, Object(typ, data.value));
        return Some(Object(typ, data.value));
      }
      if baseBuf == null {
        baseBuf := new Buffer();
      } else {
        baseBuf.Reset();
      }
      baseBuf.Write(data.value);
      assert [] + data.value == data.value;
      var ok := Unwind(lib, f, c.value.bodies, typ);
      res := if ok then Some(Object(typ, baseBuf.data)) else None;
    }
  }

  lemma PatchNothing(lib: Library, file: seq<byte>, x: Object)
    ensures PatchAll(lib, file, [], x) == Some(x)
  {
  }
}
