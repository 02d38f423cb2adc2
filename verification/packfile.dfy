/** The objects of a packfile, read from its bytes. */
module PackFile {
  import opened Common
  import opened Numerals
  import opened BigEndian
  import opened Pack
  import opened PackFormat
  import Delta

  /** An object as it lies in the file, in `hdr.offset..end`; for a delta, `data` is the delta. */
  datatype Stored = Stored(hdr: Header, data: seq<byte>, end: nat)

  /** The object that starts at `offset`. */
  function ReadAt(lib: Library, file: seq<byte>, offset: nat): Option<Stored> {
    if offset > |file| then None
    else
      var h := DecodeHeader(offset, file[offset..]);
      if h.None? || offset + h.value.used > |file| then None
      else
        var z := Inflate(lib, file[offset + h.value.used..]);
        if z.None? || offset + h.value.used + z.value.used > |file| then None
        else Some(Stored(h.value.hdr, z.value.data, offset + h.value.used + z.value.used))
  }

  function TypeOf(typ: int): ObjType {
    if typ == COMMIT then Commit else if typ == TREE then Tree else if typ == BLOB then Blob else Tag
  }

  function BodyOf(st: Stored): Body {
    if st.hdr.typ == OFFSET_DELTA then OfsDelta(st.hdr.baseOffset, st.data)
    else if st.hdr.typ == REF_DELTA then RefDelta(st.hdr.baseId, st.data)
    else Whole(Object(TypeOf(st.hdr.typ), st.data))
  }

  function Section(file: seq<byte>, st: Stored): seq<byte> {
    if st.hdr.offset <= st.end <= |file| then file[st.hdr.offset..st.end] else []
  }

  /** `n` objects one behind the other from `offset` on, each as long as its header says. */
  function Objects(lib: Library, file: seq<byte>, offset: nat, n: nat): Option<seq<Stored>>
    decreases n
  {
    if n == 0 then Some([])
    else
      var st := ReadAt(lib, file, offset);
      if st.None? || |st.value.data| != st.value.hdr.size then None
      else
        var rest := Objects(lib, file, st.value.end, n - 1);
        if rest.None? then None else Some([st.value] + rest.value)
  }

  /** Where the objects end. */
  function EndOf(offset: nat, objs: seq<Stored>): nat {
    if objs == [] then offset else Last(objs).end
  }

  const MAGIC: seq<byte> := [0x50, 0x41, 0x43, 0x4b, 0, 0, 0, 2]

  /** The object count of the file header: the magic, version 2, a 32-bit number. */
  function FileHeader(file: seq<byte>): Option<nat> {
    if |file| < 12 || file[..8] != MAGIC then None else Some(Number(file[8..12]))
  }

  /** The objects of a complete packfile with a correct trailing checksum and nothing behind it. */
  function PackObjects(lib: Library, file: seq<byte>): Option<seq<Stored>> {
    var n := FileHeader(file);
    if n.None? then None
    else
      var objs := Objects(lib, file, 12, n.value);
      if objs.None? then None
      else
        var end := EndOf(12, objs.value);
        if end + 20 == |file| && file[end..] == lib.sha1(file[..end]) then objs else None
  }

  function PackOf(lib: Library, file: seq<byte>, objs: seq<Stored>): map<nat, Entry> {
    if objs == [] then map[]
    else
      PackOf(lib, file, Front(objs))[Last(objs).hdr.offset := Entry(BodyOf(Last(objs)), lib.crc32(Section(file, Last(objs))))]
  }

  /** "blob 42\0" and the content: what an object ID is the hash of. */
  function ObjectBytes(x: Object): seq<byte> {
    TypeName(x.typ) + [0x20] + Digits(|x.data|, Decimal) + [0] + x.data
  }

  function TypeName(t: ObjType): seq<byte> {
    match t
    case Commit => [0x63, 0x6f, 0x6d, 0x6d, 0x69, 0x74]
    case Tree => [0x74, 0x72, 0x65, 0x65]
    case Blob => [0x62, 0x6c, 0x6f, 0x62]
    case Tag => [0x74, 0x61, 0x67]
  }

  /** What the four type codes of whole objects mean, by the bytes an ID is the hash of. */
  lemma IdBytes(code: int, data: seq<byte>)
    requires 1 <= code <= 4
    ensures TypeOf(code) ==
      if code == 1 then Commit else if code == 2 then Tree else if code == 3 then Blob else Tag
    ensures ObjectBytes(Object(TypeOf(code), data)) ==
      (if code == 1 then [0x63, 0x6f, 0x6d, 0x6d, 0x69, 0x74]
       else if code == 2 then [0x74, 0x72, 0x65, 0x65]
       else if code == 3 then [0x62, 0x6c, 0x6f, 0x62]
       else [0x74, 0x61, 0x67])
      + [0x20] + Digits(|data|, Decimal) + [0] + data
  {
  }

  function HashOf(lib: Library): Object -> Id {
    (x: Object) => lib.sha1(ObjectBytes(x))
  }

  function Applying(): (seq<byte>, seq<byte>) -> Option<seq<byte>> {
    (delta: seq<byte>, base: seq<byte>) => Delta.Apply(delta, base)
  }

  function EnvOf(lib: Library, file: seq<byte>, objs: seq<Stored>): Env {
    Env(PackOf(lib, file, objs), HashOf(lib), Applying())
  }

  lemma ReadAtUses(lib: Library, file: seq<byte>, offset: nat)
    requires ReadAt(lib, file, offset).Some?
    ensures var st := ReadAt(lib, file, offset).value;
      && st.hdr.offset == offset < st.end <= |file| && IsValidType(st.hdr.typ)
      && (st.hdr.typ == OFFSET_DELTA ==> st.hdr.baseOffset <= offset)
  {
    DecodeHeaderUses(offset, file[offset..]);
  }

  /** An object can be read back from its own section, whatever offset is assumed for it. */
  lemma ReadSection(lib: Library, file: seq<byte>, offset: nat)
    requires SelfDelimiting(lib) && ReadAt(lib, file, offset).Some?
    ensures var st := ReadAt(lib, file, offset).value;
      && ReadAt(lib, Section(file, st), 0).Some?
      && ReadAt(lib, Section(file, st), 0).value.data == st.data
  {
    ReadAtUses(lib, file, offset);
    var st := ReadAt(lib, file, offset).value;
    var s := file[offset..];
    var n := DecodeHeader(offset, s).value.used;
    var z := Inflate(lib, file[offset + n..]).value;
    var section := Section(file, st);
    assert section[0..] == section == s[..n] + section[n..];
    HeaderSection(offset, 0, s, section[n..]);
    assert section[n..] == file[offset + n..][..z.used] + [];
    assert EndsItself(lib, file[offset + n..], []);
  }

  /** Objects lie one behind the other. */
  lemma {:induction false} ObjectsAscend(lib: Library, file: seq<byte>, offset: nat, n: nat)
    requires Objects(lib, file, offset, n).Some?
    ensures var objs := Objects(lib, file, offset, n).value;
      && |objs| == n
      && (forall i :: 0 <= i < |objs| ==>
            && offset <= objs[i].hdr.offset
            && ReadAt(lib, file, objs[i].hdr.offset) == Some(objs[i])
            && |objs[i].data| == objs[i].hdr.size)
      && (forall i, j :: 0 <= i < j < |objs| ==> objs[i].end <= objs[j].hdr.offset)
    decreases n
  {
    hide ReadAt;
    if n > 0 {
      ReadAtUses(lib, file, offset);
      ObjectsAscend(lib, file, ReadAt(lib, file, offset).value.end, n - 1);
    }
  }
}
