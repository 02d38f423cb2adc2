/** The packfile Reader: a serial pass that hands out headers and data and skips what is not read. */
module PackReader {
  import opened Common
  import opened Streams
  import opened BigEndian
  import opened PackFormat
  import opened PackFile
  import opened BasePass

  datatype NextResult = Found(hdr: Header) | EndOfPack | TooLong | TooShort | Malformed

  datatype ReadResult = More | EndOfObject | NotStarted | PastSize | CutShort

  class Reader {
    const lib: Library
    const r: ByteStream
    var nobjs: nat
    /** What is left of the current object's inflated data; none before the first object. */
    var dataReader: Option<seq<byte>>
    var remaining: int

    constructor (lib: Library, input: seq<byte>)
      ensures this.lib == lib && fresh(r) && r.data == input && r.pos == 0 && dataReader == None
    {
      this.lib := lib;
      r := new ByteStream(input);
      nobjs, dataReader, remaining := 0, None, 0;
    }

    /** init: read the file header before anything else. */
    method Init() returns (ok: bool)
      modifies `nobjs, r`pos
      ensures old(r.pos) > 0 ==> ok && r.pos == old(r.pos) && nobjs == old(nobjs)
      ensures old(r.pos) == 0 ==> ok == FileHeader(r.data).Some?
      ensures old(r.pos) == 0 && ok ==> r.pos == 12 && nobjs == FileHeader(r.data).value
    {
      if r.pos > 0 {
        return true;
      }
      var buf := r.ReadFull(12);
      if buf.None? || buf.value[..8] != MAGIC {
        return false;
      }
      assert r.data[..12][..8] == r.data[..8] && r.data[..12][8..] == r.data[8..12];
      nobjs := Number(buf.value[8..]);
      ok := true;
    }

    /** The outcome of Next at position `pos` with `left` objects to come. */
    ghost predicate Advanced(res: NextResult, pos: nat, left: nat)
      reads this, r
    {
      if left == 0 then res == (if |r.data| >= pos + 20 then EndOfPack else Malformed)
      else Opened(res, pos, left)
    }

    ghost predicate Opened(res: NextResult, pos: nat, left: nat)
      reads this, r
    {
      var st := ReadAt(lib, r.data, pos);
      && (st.None? ==> res == Malformed)
      && (st.Some? ==>
            && res == Found(st.value.hdr) && dataReader == Some(st.value.data) && remaining == st.value.hdr.size
            && nobjs + 1 == left && r.pos == st.value.end)
    }

    /** Next: skip what is left of the current object, check its size, and read the next header. */
    method Next() returns (res: NextResult)
      modifies this, r`pos
      ensures old(r.pos) == 0 && FileHeader(r.data).None? ==> res.Malformed?
      ensures (old(r.pos) > 0 || FileHeader(r.data).Some?) && old(dataReader).Some? && |old(dataReader).value| != old(remaining)
        ==> res == if |old(dataReader).value| > old(remaining) then TooLong else TooShort
      ensures (old(r.pos) > 0 || FileHeader(r.data).Some?)
        && (old(dataReader).Some? ==> |old(dataReader).value| == old(remaining))
        ==> Advanced(res, if old(r.pos) > 0 then old(r.pos) else 12,
                     if old(r.pos) > 0 then old(nobjs) else FileHeader(r.data).value)
    {
      var ok := Init();
      if !ok {
        return Malformed;
      }
      if dataReader.Some? {
        var n := |dataReader.value|;
        dataReader := Some([]);
        if n > remaining {
          return TooLong;
        }
        if n < remaining {
          return TooShort;
        }
      }
      if nobjs == 0 {
        var sum := r.ReadFull(20);
        return if sum.None? then Malformed else EndOfPack;
      }
      res := Advance();
    }

    /** The part of Next that reads an object header and sets up its data. */
    method Advance() returns (res: NextResult)
      requires nobjs > 0
      modifies this, r`pos
      ensures Opened(res, old(r.pos), old(nobjs))
    {
      var st := ReadObject(lib, r);
      if st.None? {
        return Malformed;
      }
      dataReader, remaining, nobjs := Some(st.value.data), st.value.hdr.size, nobjs - 1;
      res := Found(st.value.hdr);
    }

    /** Read: the next bytes of the current object, never more than its declared size. */
    method Read(k: nat) returns (p: seq<byte>, res: ReadResult)
      modifies `dataReader, `remaining
      ensures |p| <= k
      ensures old(dataReader).None? <==> res.NotStarted?
      ensures old(dataReader).None? || old(remaining) < 0 ==>
        p == [] && dataReader == old(dataReader) && remaining == old(remaining) && (old(dataReader).Some? ==> res.PastSize?)
      ensures old(dataReader).Some? && old(remaining) >= 0 ==>
        var rest := old(dataReader).value;
        && p <= rest && |p| <= old(remaining)
        && (res.PastSize? <==> remaining < 0)
        && (!res.PastSize? ==> dataReader == Some(rest[|p|..]) && remaining == old(remaining) - |p|)
        && (res.PastSize? ==> |p| == old(remaining) < |rest|)
        && (k > 0 && rest != [] && remaining >= 0 ==> p != [])
        && (res.EndOfObject? ==> |p| == |rest| == old(remaining))
        && (res.CutShort? ==> |p| == |rest| < old(remaining))
        && (k > 0 && rest == [] ==> !res.More?)
    {
      if dataReader.None? {
        return [], NotStarted;
      }
      if remaining < 0 {
        return [], PastSize;
      }
      var rest := dataReader.value;
      var n: nat := Min(k, |rest|);
      if n > 1 {
        n :| 1 <= n <= Min(k, |rest|);
      }
      var eof := false;
      if n == |rest| {
        eof := *;
        if k > 0 && n == 0 {
          eof := true;
        }
      }
      p := rest[..n];
      dataReader := Some(rest[n..]);
      remaining := remaining - n;
      if remaining < 0 {
        return p[..n + remaining], PastSize;
      }
      res := if !eof then More else if remaining > 0 then CutShort else EndOfObject;
    }
  }
}
