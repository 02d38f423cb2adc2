/** In-memory byte sources behind io.Reader, io.ByteReader and io.Seeker. */
module Streams {
  import opened Common

  /** io.SeekStart, io.SeekCurrent and io.SeekEnd. */
  datatype Whence = Start | Current | End

  /** Where a seek leads; nowhere before the start. */
  function Target(pos: nat, size: nat, offset: int, whence: Whence): Option<nat> {
    var t := offset + match whence case Start => 0 case Current => pos case End => size;
    if t < 0 then None else Some(t)
  }

  /**
   A source of bytes. A read may return fewer bytes than asked for, and may report the end
   of input together with the last bytes or only on the next call.
   */
  class ByteStream {
    const data: seq<byte>
    var pos: nat

    constructor (data: seq<byte>)
      ensures this.data == data && pos == 0
    {
      this.data := data;
      pos := 0;
    }

    /** The bytes not read yet; none when a seek went past the end. */
    function Rest(): seq<byte>
      reads this
    {
      if pos <= |data| then data[pos..] else []
    }

    method ReadByte() returns (b: Option<byte>)
      modifies this`pos
      ensures b == if old(Rest()) == [] then None else Some(old(Rest())[0])
      ensures pos == old(pos) + if b.Some? then 1 else 0
      ensures Rest() == if b.Some? then old(Rest())[1..] else old(Rest())
    {
      if pos < |data| {
        b := Some(data[pos]);
        pos := pos + 1;
      } else {
        b := None;
      }
    }

    method Read(k: nat) returns (p: seq<byte>, eof: bool)
      modifies this`pos
      ensures |p| <= k && p <= old(Rest())
      ensures pos == old(pos) + |p| && Rest() == old(Rest())[|p|..]
      ensures k > 0 && old(Rest()) != [] ==> p != []
      ensures k > 0 && old(Rest()) == [] ==> eof
      ensures eof ==> Rest() == []
    {
      if pos >= |data| {
        return [], true;
      }
      var n: nat := Min(k, |data| - pos);
      if n > 1 {
        n :| 1 <= n <= Min(k, |data| - pos);
      }
      p := data[pos..pos + n];
      pos := pos + n;
      eof := false;
      if pos == |data| {
        eof := *;
      }
    }

    /** io.ReadFull: exactly `k` bytes, or nothing useful. */
    method ReadFull(k: nat) returns (r: Option<seq<byte>>)
      modifies this`pos
      ensures r == if |old(Rest())| >= k then Some(old(Rest())[..k]) else None
      ensures r.Some? ==> pos == old(pos) + k && Rest() == old(Rest())[k..]
      ensures r.None? ==> Rest() == []
    {
      var buf: seq<byte> := [];
      ghost var rest := Rest();
      while |buf| < k
        invariant |buf| <= k && buf <= rest && Rest() == rest[|buf|..] && pos == old(pos) + |buf|
        decreases k - |buf|
      {
        var p, eof := Read(k - |buf|);
        buf := buf + p;
        if eof && |buf| < k {
          return None;
        }
      }
      assert buf == rest[..k];
      r := Some(buf);
    }

    method Seek(off: nat)
      modifies this`pos
      ensures pos == off
    {
      pos := off;
    }

    /** io.Seeker: the new position, or an error that leaves the old one. */
    method SeekFrom(offset: int, whence: Whence) returns (newPos: Option<nat>)
      modifies this`pos
      ensures newPos == Target(old(pos), |data|, offset, whence)
      ensures pos == if newPos.Some? then newPos.value else old(pos)
    {
      newPos := Target(pos, |data|, offset, whence);
      if newPos.Some? {
        pos := newPos.value;
      }
    }
  }

  /** bytes.Buffer, as far as it is used: bytes are appended, and it can be emptied. */
  class Buffer {
    var data: seq<byte>

    constructor ()
      ensures data == []
    {
      data := [];
    }

    method Reset()
      modifies this
      ensures data == []
    {
      data := [];
    }

    method Write(p: seq<byte>)
      modifies this
      ensures data == old(data) + p
    {
      data := data + p;
    }
  }
}
