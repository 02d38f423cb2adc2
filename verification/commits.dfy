/**
 Commit objects: the object format as a parsing and a printing function. Tree and parents,
 author, committer, extra lines and signature come from the modules for each kind of line;
 here they are put together, and read and written commits are compared as a whole.
 */
module Commits {
  import opened ByteStrings
  import opened Common
  import opened HeaderLines
  import opened HexLines
  import opened Numerals
  import opened UserLines
  import opened Zones

  datatype Commit = Commit(tree: Id, parents: seq<Id>,
                           author: seq<byte>, authorTime: Time,
                           committer: seq<byte>, commitTime: Time,
                           extra: seq<byte>, signature: seq<byte>, message: seq<byte>)

  /** "author " and "committer ". */
  const AUTHOR: seq<byte> := [0x61, 0x75, 0x74, 0x68, 0x6f, 0x72, 0x20]
  const COMMITTER: seq<byte> := [0x63, 0x6f, 0x6d, 0x6d, 0x69, 0x74, 0x74, 0x65, 0x72, 0x20]

  // ---------------------------------------------------------------- reading

  /** strings.TrimSuffix(_, "\n"). */
  function TrimLine(s: seq<byte>): seq<byte> {
    if s != [] && Last(s) == NL then Front(s) else s
  }

  function ParseBody(c: Commit, data: seq<byte>): Option<Commit> {
    match ParseTail(data)
    case None => None
    case Some(t) =>
      if !HasPrefix(t.rest, [NL]) then None
      else Some(c.(extra := TrimLine(t.block), signature := t.signature, message := t.rest[1..]))
  }

  function ParseCommitter(c: Commit, data: seq<byte>): Option<Commit> {
    if !HasPrefix(data, COMMITTER) then None
    else
      match ParseUser(data[10..])
      case None => None
      case Some(u) => ParseBody(c.(committer := u.user, commitTime := u.time), u.tail)
  }

  function ParseAuthor(c: Commit, data: seq<byte>): Option<Commit> {
    if !HasPrefix(data, AUTHOR) then None
    else
      match ParseUser(data[7..])
      case None => None
      case Some(u) => ParseCommitter(c.(author := u.user, authorTime := u.time), u.tail)
  }

  const NO_TIME := Time(0, [], 0)

  function Blank(tree: Id): Commit {
    Commit(tree, [], [], NO_TIME, [], NO_TIME, [], [], [])
  }

  /** UnmarshalBinary. */
  function Unmarshal(data: seq<byte>): Option<Commit> {
    if !HasPrefix(data, TREE) then None
    else
      match ParseHex(data[5..])
      case None => None
      case Some(l) =>
        match ParseParents(l.rest)
        case None => None
        case Some(p) => ParseAuthor(Blank(l.id).(parents := p.ids), p.rest)
  }

  // ---------------------------------------------------------------- writing

  predicate Writable(c: Commit) {
    Safe(c.author) && Safe(c.committer) && IsValid(c.extra) && PrintSignature(c.signature).Some?
  }

  function PrintBody(c: Commit): seq<byte>
    requires PrintSignature(c.signature).Some?
  {
    Block(c.extra) + (PrintSignature(c.signature).value + ([NL] + c.message))
  }

  function PrintCommitter(c: Commit): seq<byte>
    requires PrintSignature(c.signature).Some?
  {
    COMMITTER + (UserText(c.committer, c.commitTime) + PrintBody(c))
  }

  function PrintAuthor(c: Commit): seq<byte>
    requires PrintSignature(c.signature).Some?
  {
    AUTHOR + (UserText(c.author, c.authorTime) + PrintCommitter(c))
  }

  function Print(c: Commit): seq<byte>
    requires PrintSignature(c.signature).Some?
  {
    PrintLine(TREE, c.tree) + (PrintParents(c.parents) + PrintAuthor(c))
  }

  /** MarshalBinary. */
  function Marshal(c: Commit): Option<seq<byte>> {
    if Writable(c) then Some(Print(c)) else None
  }

  // ---------------------------------------------------------------- written, then read

  lemma TrimBlock(extra: seq<byte>)
    requires NoBlank(extra)
    ensures TrimLine(Block(extra)) == extra
  {
    if extra != [] {
      assert Front(extra + [NL]) == extra;
    }
  }

  lemma BodyReads(start: Commit, c: Commit)
    requires IsValid(c.extra) && GpgsigFree(c.extra) && PrintSignature(c.signature).Some?
    ensures ParseBody(start, PrintBody(c)) ==
      Some(start.(extra := c.extra, signature := c.signature, message := c.message))
  {
    hide PrintSignature, ParseTail, GpgsigFree, GoodBlock, Stops;
    GoodExtra(c.extra);
    ParsePrintedSignature(c.signature, c.message);
    ParsePrintedBlock(Block(c.extra), PrintSignature(c.signature).value + ([NL] + c.message));
    TrimBlock(c.extra);
    PrefixOf([NL], c.message);
  }

  lemma CommitterReads(start: Commit, c: Commit)
    requires Writable(c) && Int64(c.commitTime.unix)
    ensures ParseCommitter(start, PrintCommitter(c)) ==
      if ZoneFits(c.commitTime)
      then ParseBody(start.(committer := c.committer, commitTime := NormalTime(c.commitTime)), PrintBody(c))
      else None
  {
    hide PrintSignature, ParseBody, PrintBody, ParseUser, UserText, ZoneFits, NormalTime;
    PrefixOf(COMMITTER, UserText(c.committer, c.commitTime) + PrintBody(c));
    ParsePrintedUser(c.committer, c.commitTime, PrintBody(c));
  }

  lemma AuthorReads(start: Commit, c: Commit)
    requires Writable(c) && Int64(c.authorTime.unix)
    ensures ParseAuthor(start, PrintAuthor(c)) ==
      if ZoneFits(c.authorTime)
      then ParseCommitter(start.(author := c.author, authorTime := NormalTime(c.authorTime)), PrintCommitter(c))
      else None
  {
    hide PrintSignature, ParseCommitter, PrintCommitter, ParseUser, UserText, ZoneFits, NormalTime;
    PrefixOf(AUTHOR, UserText(c.author, c.authorTime) + PrintCommitter(c));
    ParsePrintedUser(c.author, c.authorTime, PrintCommitter(c));
  }

  lemma HeadReads(c: Commit)
    requires Writable(c)
    ensures Unmarshal(Print(c)) == ParseAuthor(Blank(c.tree).(parents := c.parents), PrintAuthor(c))
    ensures !HasPrefix(PrintAuthor(c), PARENT)
  {
    hide PrintSignature, ParseAuthor, PrintCommitter, PrintParents, ParseParents, ParseHex, PrintLine, UserText, Hex;
    var rest := PrintAuthor(c);
    assert rest[0] == AUTHOR[0];
    var more := PrintParents(c.parents) + rest;
    LineSplit(TREE, c.tree, more);
    PrefixOf(TREE, Hex(c.tree) + ([NL] + more));
    ParsePrintedHex(c.tree, more);
    ParsePrintedParents(c.parents, rest);
  }

  /** The commit with its times as they are read back. */
  function Normal(c: Commit): Commit {
    c.(authorTime := NormalTime(c.authorTime), commitTime := NormalTime(c.commitTime))
  }

  predicate Int64Times(c: Commit) {
    Int64(c.authorTime.unix) && Int64(c.commitTime.unix)
  }

  lemma PrintedReads(c: Commit)
    requires Writable(c) && Int64Times(c)
    requires ZoneFits(c.authorTime) && ZoneFits(c.commitTime) && GpgsigFree(c.extra)
    ensures Unmarshal(Print(c)) == Some(Normal(c))
  {
    hide Unmarshal, Print, ParseAuthor, ParseCommitter, ParseBody, PrintAuthor, PrintCommitter, PrintBody;
    hide Writable, NormalTime, ZoneFits, GpgsigFree;
    var c0 := Blank(c.tree).(parents := c.parents);
    var c1 := c0.(author := c.author, authorTime := NormalTime(c.authorTime));
    var c2 := c1.(committer := c.committer, commitTime := NormalTime(c.commitTime));
    HeadReads(c);
    AuthorReads(c0, c);
    CommitterReads(c1, c);
    WritableParts(c);
    BodyReads(c2, c);
  }

  lemma WritableParts(c: Commit)
    ensures Writable(c) ==> IsValid(c.extra) && PrintSignature(c.signature).Some?
  {
  }

  // ---------------------------------------------------------------- read, then written

  lemma BodyBack(start: Commit, data: seq<byte>)
    requires ParseBody(start, data).Some?
    ensures var c := ParseBody(start, data).value;
      && PrintSignature(c.signature).Some? && PrintBody(c) == data
      && NoBlank(c.extra) && GpgsigFree(c.extra)
      && (0 in c.extra <==> 0 in ParseTail(data).value.block)
  {
    hide PrintSignature, ParseTail, GpgsigFree, GoodBlock, NoBlank;
    var t := ParseTail(data).value;
    PrintParsedTail(data);
    ExtraOfBlock(t.block);
    if t.block != [] {
      GoodEnds(t.block);
      assert t.block == Front(t.block) + [NL];
    }
    assert t.rest == [NL] + t.rest[1..];
  }

  lemma CommitterBack(start: Commit, data: seq<byte>)
    requires ParseCommitter(start, data).Some?
    ensures var c := ParseCommitter(start, data).value;
      var u := ParseUser(data[10..]).value;
      && PrintSignature(c.signature).Some? && NoBlank(c.extra) && GpgsigFree(c.extra)
      && c.committer == u.user && c.commitTime == u.time && PrintBody(c) == u.tail
      && NL !in c.committer && Int64(c.commitTime.unix) && NamesOffset(c.commitTime)
      && (PrintCommitter(c) == data <==> CanonicalInt(TimestampText(data[10..])))
      && (0 in c.extra <==> 0 in ParseTail(u.tail).value.block)
  {
    hide PrintSignature, ParseTail, ParseBody, PrintBody, GpgsigFree, NoBlank;
    hide ParseUser, UserText, CanonicalInt, TimestampText, NamesOffset;
    var u := ParseUser(data[10..]).value;
    BodyBack(start.(committer := u.user, commitTime := u.time), u.tail);
    PrintParsedUser(data[10..]);
    BodyKeeps(start.(committer := u.user, commitTime := u.time), u.tail);
    var c := ParseCommitter(start, data).value;
    assert data == COMMITTER + data[10..];
    var text := UserText(c.committer, c.commitTime) + PrintBody(c);
    FirstPart(COMMITTER, text);
    FirstPart(COMMITTER, data[10..]);
  }

  lemma BodyKeeps(start: Commit, data: seq<byte>)
    requires ParseBody(start, data).Some?
    ensures var c := ParseBody(start, data).value;
      c == start.(extra := c.extra, signature := c.signature, message := c.message)
  {
    hide ParseTail;
  }

  /** What any commit that was read satisfies. */
  predicate WellFormed(c: Commit) {
    && PrintSignature(c.signature).Some? && NoBlank(c.extra) && GpgsigFree(c.extra)
    && NL !in c.author && NL !in c.committer && Int64Times(c)
    && NamesOffset(c.authorTime) && NamesOffset(c.commitTime)
  }

  /** A user line that prints as itself. */
  predicate CanonicalUser(src: seq<byte>) {
    ParseUser(src).Some? && CanonicalInt(TimestampText(src)) && 0 !in ParseUser(src).value.user
  }

  /** From the committer on, there is nothing that is printed differently, or refused. */
  predicate CanonicalCommitter(data: seq<byte>) {
    && HasPrefix(data, COMMITTER) && CanonicalUser(data[10..])
    && var t := ParseTail(ParseUser(data[10..]).value.tail);
    && t.Some? && 0 !in t.value.block
  }

  predicate CanonicalAuthor(data: seq<byte>) {
    && HasPrefix(data, AUTHOR) && CanonicalUser(data[7..])
    && CanonicalCommitter(ParseUser(data[7..]).value.tail)
  }

  /** Lower-case IDs, canonical timestamps and no NUL in users and extra lines. */
  predicate Canonical(data: seq<byte>) {
    && HasPrefix(data, TREE) && ParseHex(data[5..]).Some? && LowerHex(data[5..45])
    && var rest := ParseHex(data[5..]).value.rest;
    && LowerParents(rest) && ParseParents(rest).Some? && CanonicalAuthor(ParseParents(rest).value.rest)
  }

  lemma CommitterCanonical(start: Commit, data: seq<byte>)
    requires ParseCommitter(start, data).Some?
    ensures var c := ParseCommitter(start, data).value;
      && (c.author, c.authorTime, c.tree, c.parents) == (start.author, start.authorTime, start.tree, start.parents)
      && PrintSignature(c.signature).Some? && NoBlank(c.extra) && GpgsigFree(c.extra)
      && NL !in c.committer && Int64(c.commitTime.unix) && NamesOffset(c.commitTime)
      && (Safe(c.committer) && IsValid(c.extra) && PrintCommitter(c) == data <==> CanonicalCommitter(data))
  {
    hide PrintSignature, PrintBody, GpgsigFree, NoBlank;
    hide ParseUser, UserText, CanonicalInt, TimestampText, NamesOffset;
    CommitterBack(start, data);
    hide PrintCommitter;
  }

  lemma AuthorBack(start: Commit, data: seq<byte>)
    requires ParseAuthor(start, data).Some?
    ensures var c := ParseAuthor(start, data).value;
      && WellFormed(c) && c.tree == start.tree && c.parents == start.parents
      && (Writable(c) && PrintAuthor(c) == data <==> CanonicalAuthor(data))
  {
    hide PrintSignature, PrintCommitter, PrintBody, ParseCommitter, GpgsigFree, NoBlank, IsValid;
    hide ParseUser, UserText, CanonicalInt, TimestampText, NamesOffset, CanonicalCommitter;
    var c := ParseAuthor(start, data).value;
    var u := ParseUser(data[7..]).value;
    CommitterCanonical(start.(author := u.user, authorTime := u.time), u.tail);
    PrintParsedUser(data[7..]);
    assert data == AUTHOR + data[7..];
    FirstPart(AUTHOR, UserText(c.author, c.authorTime) + PrintCommitter(c));
    FirstPart(AUTHOR, data[7..]);
    if Writable(c) && PrintAuthor(c) == data {
      TextParses(c.authorTime);
      ParsePrintedUser(c.author, c.authorTime, PrintCommitter(c));
    }
  }

  /** Whatever is read has zones that name their offsets and no extra line that starts a signature. */
  lemma UnmarshalWellFormed(data: seq<byte>)
    ensures Unmarshal(data).Some? ==> WellFormed(Unmarshal(data).value)
  {
    hide ParseHex, ParseParents, ParseAuthor, WellFormed;
    if Unmarshal(data).Some? {
      var l := ParseHex(data[5..]).value;
      var p := ParseParents(l.rest).value;
      AuthorBack(Blank(l.id).(parents := p.ids), p.rest);
    }
  }

  lemma HeadBack(data: seq<byte>)
    requires Unmarshal(data).Some?
    ensures var c := Unmarshal(data).value;
      Writable(c) && Print(c) == data ==> Canonical(data)
  {
    hide PrintSignature, ParseAuthor, PrintAuthor, PrintParents, ParseParents, LowerParents, CanonicalAuthor;
    hide LowerHex, Writable, WellFormed, Hex;
    var c := Unmarshal(data).value;
    var l := ParseHex(data[5..]).value;
    var p := ParseParents(l.rest).value;
    LineOfPrefix(TREE, data);
    hide ParseHex, PrintLine;
    AuthorBack(Blank(l.id).(parents := p.ids), p.rest);
    WritableParts(c);
    if Writable(c) && Print(c) == data {
      var more := PrintParents(c.parents) + PrintAuthor(c);
      LineSplit(TREE, c.tree, more);
      PrefixOf(TREE, Hex(c.tree) + ([NL] + more));
      ParsePrintedHex(c.tree, more);
      HeadReads(c);
      ParsePrintedParents(c.parents, PrintAuthor(c));
      PrintParsedParents(l.rest);
    }
  }

  lemma CanonicalBack(data: seq<byte>)
    requires Unmarshal(data).Some? && Canonical(data)
    ensures Marshal(Unmarshal(data).value) == Some(data)
  {
    hide PrintSignature, ParseAuthor, PrintAuthor, PrintParents, ParseParents, LowerParents, CanonicalAuthor;
    hide LowerHex, Writable, WellFormed, Hex;
    var c := Unmarshal(data).value;
    var l := ParseHex(data[5..]).value;
    var p := ParseParents(l.rest).value;
    LineOfPrefix(TREE, data);
    hide ParseHex, PrintLine;
    AuthorBack(Blank(l.id).(parents := p.ids), p.rest);
    WritableParts(c);
    PrintParsedParents(l.rest);
  }

  // ---------------------------------------------------------------- main results

  /** A commit comes back with its times in normal form, exactly when the zones fit and no extra line starts a signature. */
  lemma MarshalUnmarshal(c: Commit)
    requires Marshal(c).Some? && Int64Times(c)
    ensures Unmarshal(Marshal(c).value) == Some(Normal(c)) <==>
      ZoneFits(c.authorTime) && ZoneFits(c.commitTime) && GpgsigFree(c.extra)
  {
    hide Unmarshal, Print, Writable, NormalTime, ZoneFits, GpgsigFree, NamesOffset;
    TextParses(c.authorTime);
    TextParses(c.commitTime);
    if Unmarshal(Marshal(c).value) == Some(Normal(c)) {
      UnmarshalWellFormed(Marshal(c).value);
    }
    if ZoneFits(c.authorTime) && ZoneFits(c.commitTime) && GpgsigFree(c.extra) {
      PrintedReads(c);
    }
  }

  /** Extra lines that start a signature pass every check of the printer and do not come back. */
  lemma SignatureInExtra(c: Commit)
    requires c.extra == SIGNED && Safe(c.author) && Safe(c.committer) && PrintSignature(c.signature).Some? && Int64Times(c)
    ensures Marshal(c).Some? && Unmarshal(Marshal(c).value) != Some(Normal(c))
  {
    assert c.extra[0..] == SIGNED;
    hide Unmarshal, Print, PrintSignature;
    MarshalUnmarshal(c);
  }

  /** It comes back as the very same commit, exactly when also both zones are named by their offsets. */
  lemma MarshalUnmarshalSame(c: Commit)
    requires Marshal(c).Some? && Int64Times(c)
    ensures Unmarshal(Marshal(c).value) == Some(c) <==>
      NamesOffset(c.authorTime) && NamesOffset(c.commitTime) && GpgsigFree(c.extra)
  {
    hide Unmarshal, Marshal, NormalTime, GpgsigFree, NamesOffset;
    MarshalUnmarshal(c);
    TextParses(c.authorTime);
    TextParses(c.commitTime);
    if Unmarshal(Marshal(c).value) == Some(c) {
      UnmarshalWellFormed(Marshal(c).value);
    }
  }

  /** An accepted commit prints as the bytes it was read from, so keeps its hash, exactly when they are canonical. */
  lemma UnmarshalMarshal(data: seq<byte>)
    ensures Unmarshal(data).Some? ==> (Marshal(Unmarshal(data).value) == Some(data) <==> Canonical(data))
  {
    hide Unmarshal, Canonical, Print, Writable;
    if Unmarshal(data).Some? {
      HeadBack(data);
      if Canonical(data) {
        CanonicalBack(data);
      }
    }
  }
}
