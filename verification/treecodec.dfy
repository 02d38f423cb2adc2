/** The serialized form of tree objects. */
module TreeCodec {
  import opened ByteStrings
  import opened Common
  import opened Numerals
  import opened Tree
  import opened TreeOrder

  // ---------------------------------------------------------------- entries

  datatype ParsedEntry = ParsedEntry(entry: TreeEntry, tail: seq<byte>)

  /** parseTreeEntry. */
  function ParseEntry(src: seq<byte>): (p: Option<ParsedEntry>)
    ensures p.Some? ==> |p.value.tail| < |src|
  {
    match Cut(src, SP)
    case None => None
    case Some(f) =>
      // strconv.ParseUint(_, 8, 32)
      match ParseDigits(f.before, Octal, TWO32)
      case None => None
      case Some(mode) => ParseName(mode, f.after)
  }

  function ParseName(mode: nat, src: seq<byte>): (p: Option<ParsedEntry>)
    ensures p.Some? ==> |p.value.tail| < |src|
  {
    match Cut(src, 0)
    case None => None
    case Some(f) =>
      if |f.after| < 20 then None
      else Some(ParsedEntry(TreeEntry(f.before, mode, f.after[..20]), f.after[20..]))
  }

  /** appendTo, for a name without NUL. */
  function EntryBytes(e: TreeEntry): seq<byte> {
    Digits(e.mode, Octal) + ([SP] + (e.name + ([0] + e.id)))
  }

  predicate Printable(e: TreeEntry) {
    0 !in e.name && e.mode < TWO32
  }

  lemma EntrySplit(e: TreeEntry, rest: seq<byte>)
    ensures EntryBytes(e) + rest == Digits(e.mode, Octal) + ([SP] + (e.name + ([0] + (e.id + rest))))
  {
    hide Digits;
    Regroup(Digits(e.mode, Octal), [SP] + (e.name + ([0] + e.id)), rest);
    Regroup([SP], e.name + ([0] + e.id), rest);
    Regroup(e.name, [0] + e.id, rest);
    Regroup([0], e.id, rest);
  }

  lemma ParsePrinted(e: TreeEntry, rest: seq<byte>)
    requires Printable(e)
    ensures ParseEntry(EntryBytes(e) + rest) == Some(ParsedEntry(e, rest))
  {
    hide Cut, Value, Digits, EntryBytes;
    EntrySplit(e, rest);
    CutField(Digits(e.mode, Octal), SP, e.name + ([0] + (e.id + rest)));
    ValueOfDigits(e.mode, Octal);
    CutField(e.name, 0, e.id + rest);
    FirstPart(e.id, rest);
  }

  /** The mode field of an entry. */
  function ModeField(src: seq<byte>): seq<byte> {
    match Cut(src, SP)
    case None => src
    case Some(f) => f.before
  }

  /** The other way round the bytes come back exactly when the mode has no zeros in front. */
  lemma PrintParsed(src: seq<byte>)
    requires ParseEntry(src).Some?
    ensures var p := ParseEntry(src).value;
      && Printable(p.entry)
      && (src == EntryBytes(p.entry) + p.tail <==> Canonical(ModeField(src)))
  {
    hide Digits, Value, EntryBytes, Canonical;
    var p := ParseEntry(src).value;
    var f := Cut(src, SP).value;
    var g := Cut(f.after, 0).value;
    assert g.after == p.entry.id + p.tail;
    EntrySplit(p.entry, p.tail);
    DigitsOfValue(f.before, Octal);
    if src == EntryBytes(p.entry) + p.tail {
      CutField(Digits(p.entry.mode, Octal), SP, f.after);
    }
  }

  // ---------------------------------------------------------------- whole trees

  /** The entries one after the other, before any check of their order. */
  function ParseAll(src: seq<byte>): Option<seq<TreeEntry>>
    decreases |src|
  {
    if src == [] then Some([])
    else
      match ParseEntry(src)
      case None => None
      case Some(p) =>
        match ParseAll(p.tail)
        case None => None
        case Some(t) => Some([p.entry] + t)
  }

  function PrintAll(t: seq<TreeEntry>): seq<byte> {
    if t == [] then [] else EntryBytes(t[0]) + PrintAll(t[1..])
  }

  /** UnmarshalBinary, for names without slashes: entries in strict order, no name twice. */
  predicate Accepts(src: seq<byte>, t: seq<TreeEntry>) {
    ParseAll(src) == Some(t) && Adjacent(t) && DistinctNames(t)
  }

  /** MarshalBinary: the order is checked, and NUL in names; names met twice are not. */
  function Marshal(t: seq<TreeEntry>): Option<seq<byte>> {
    if Adjacent(t) && forall i :: 0 <= i < |t| ==> 0 !in t[i].name then Some(PrintAll(t)) else None
  }

  predicate AllPrintable(t: seq<TreeEntry>) {
    forall i :: 0 <= i < |t| ==> Printable(t[i])
  }

  lemma {:induction false} ParsePrintedAll(t: seq<TreeEntry>)
    requires AllPrintable(t)
    ensures ParseAll(PrintAll(t)) == Some(t)
  {
    hide EntryBytes, ParseEntry;
    if t != [] {
      ParsePrintedAll(t[1..]);
      ParsePrinted(t[0], PrintAll(t[1..]));
      assert t == [t[0]] + t[1..];
    }
  }

  /**
   What is printed is read back as the same tree, exactly when no two entries share a name;
   a file and a directory of one name pass the printer and are refused by the parser.
   */
  lemma MarshalUnmarshal(t: seq<TreeEntry>)
    requires Marshal(t).Some? && forall i :: 0 <= i < |t| ==> t[i].mode < TWO32
    ensures Accepts(Marshal(t).value, t) <==> DistinctNames(t)
    ensures forall u :: Accepts(Marshal(t).value, u) ==> u == t
  {
    hide PrintAll, ParseAll, Less;
    ParsePrintedAll(t);
  }

  /** A file "a" and a directory "a": printed without complaint, and not accepted. */
  lemma DuplicatePrinted(id: Id)
    ensures var t := [TreeEntry([0x61], 0x81a4, id), TreeEntry([0x61], 0x4000, id)];
      Marshal(t).Some? && forall u :: !Accepts(Marshal(t).value, u)
  {
    var t := [TreeEntry([0x61], 0x81a4, id), TreeEntry([0x61], 0x4000, id)];
    assert Less(t[0], t[1]);
    hide PrintAll, Less;
    MarshalUnmarshal(t);
    assert t[0].name == t[1].name;
  }

  /** No mode field of the serialized tree has zeros in front. */
  predicate CanonicalModes(src: seq<byte>)
    decreases |src|
  {
    src != [] && ParseEntry(src).Some? ==>
      Canonical(ModeField(src)) && CanonicalModes(ParseEntry(src).value.tail)
  }

  lemma {:induction false} ParsedPrintable(src: seq<byte>)
    requires ParseAll(src).Some?
    ensures AllPrintable(ParseAll(src).value)
    decreases |src|
  {
    hide ParseEntry;
    if src != [] {
      PrintParsed(src);
      ParsedPrintable(ParseEntry(src).value.tail);
    }
  }

  lemma {:induction false} PrintParsedAll(src: seq<byte>)
    requires ParseAll(src).Some?
    ensures PrintAll(ParseAll(src).value) == src <==> CanonicalModes(src)
    decreases |src|
  {
    hide ParseEntry, EntryBytes, Canonical;
    if src != [] {
      var p := ParseEntry(src).value;
      var t := ParseAll(p.tail).value;
      assert ([p.entry] + t)[1..] == t;
      PrintParsed(src);
      PrintParsedAll(p.tail);
      SamePrint(p.entry, src, p.tail, PrintAll(t));
    }
  }

  /** Two printed entries are equal only if they are of equal length, so what follows them is equal too. */
  lemma SamePrint(e: TreeEntry, src: seq<byte>, tail: seq<byte>, printed: seq<byte>)
    requires ParseEntry(src) == Some(ParsedEntry(e, tail))
    ensures EntryBytes(e) + printed == src ==> printed == tail
  {
    hide ParseEntry, EntryBytes;
    PrintParsed(src);
    if EntryBytes(e) + printed == src {
      ParsePrinted(e, printed);
    }
  }

  /** An accepted tree prints as the bytes it was read from, exactly when their modes are canonical. */
  lemma UnmarshalMarshal(src: seq<byte>, t: seq<TreeEntry>)
    requires Accepts(src, t)
    ensures Marshal(t) == Some(src) <==> CanonicalModes(src)
  {
    hide PrintAll, ParseAll, Less, CanonicalModes;
    ParsedPrintable(src);
    PrintParsedAll(src);
  }

  // ---------------------------------------------------------------- the loops

  /** MarshalBinary. */
  method MarshalBinary(t: seq<TreeEntry>) returns (dst: Option<seq<byte>>)
    ensures dst == Marshal(t)
  {
    hide Less, EntryBytes;
    var out: seq<byte> := [];
    for i := 0 to |t|
      invariant Adjacent(t[..i]) && forall k :: 0 <= k < i ==> 0 !in t[k].name
      invariant out == PrintAll(t[..i])
    {
      assert t[..i + 1] == t[..i] + [t[i]];
      if i > 0 && !Less(t[i - 1], t[i]) {
        return None;
      }
      if 0 in t[i].name {
        return None;
      }
      PrintAppend(t[..i], t[i]);
      out := out + EntryBytes(t[i]);
    }
    assert t[..|t|] == t;
    dst := Some(out);
  }

  lemma {:induction false} PrintAppend(t: seq<TreeEntry>, e: TreeEntry)
    ensures PrintAll(t + [e]) == PrintAll(t) + EntryBytes(e)
  {
    if t == [] {
      assert [] + [e] == [e];
    } else {
      assert (t + [e])[1..] == t[1..] + [e];
      PrintAppend(t[1..], e);
      Regroup(EntryBytes(t[0]), PrintAll(t[1..]), EntryBytes(e));
    }
  }

  function Extend(t: seq<TreeEntry>, more: Option<seq<TreeEntry>>): Option<seq<TreeEntry>> {
    match more
    case None => None
    case Some(u) => Some(t + u)
  }

  lemma ParseStep(t: seq<TreeEntry>, src: seq<byte>)
    requires src != []
    ensures Extend(t, ParseAll(src)) ==
      match ParseEntry(src)
      case None => None
      case Some(p) => Extend(t + [p.entry], ParseAll(p.tail))
  {
    hide ParseEntry;
    var p := ParseEntry(src);
    if p.Some? && ParseAll(p.value.tail).Some? {
      assert t + ([p.value.entry] + ParseAll(p.value.tail).value) == t + [p.value.entry] + ParseAll(p.value.tail).value;
    }
  }

  /** The neighbours of a longer tree include those of a prefix. */
  lemma NotAdjacent(t: seq<TreeEntry>, more: seq<TreeEntry>)
    ensures !Adjacent(t) ==> !Adjacent(t + more)
    ensures !DistinctNames(t) ==> !DistinctNames(t + more)
  {
    hide Less;
    var all := t + more;
    if Adjacent(all) {
      forall i | 0 <= i < |t| - 1
        ensures Less(t[i], t[i + 1])
      {
        assert all[i] == t[i] && all[i + 1] == t[i + 1];
      }
    }
    if DistinctNames(all) {
      forall i, j | 0 <= i < j < |t|
        ensures t[i].name != t[j].name
      {
        assert all[i] == t[i] && all[j] == t[j];
      }
    }
  }

  /**
   UnmarshalBinary. What it accepts is what the bytes say and is in order; every tree in order
   with distinct names is accepted; and with slash-free names nothing else is.
   */
  method UnmarshalBinary(src: seq<byte>) returns (tree: seq<TreeEntry>, ok: bool)
    ensures ok ==> ParseAll(src) == Some(tree) && Adjacent(tree)
    ensures ok && AllSlashFree(tree) ==> Accepts(src, tree)
    ensures forall t :: Accepts(src, t) ==> ok && tree == t
  {
    hide Less, ParseAll, ParseEntry, Adjacent, DistinctNames, AllSlashFree;
    tree := [];
    var rest := src;
    ghost var all := ParseAll(src);
    ParseNothing(all);
    EmptyTree();
    while |rest| > 0
      invariant all == Extend(tree, ParseAll(rest)) && Adjacent(tree)
      invariant AllSlashFree(tree) ==> DistinctNames(tree)
    {
      ParseStep(tree, rest);
      var p := ParseEntry(rest);
      if p.None? {
        return tree, false;
      }
      ghost var before := tree;
      tree := tree + [p.value.entry];
      rest := p.value.tail;
      if ParseAll(rest).Some? {
        NotAdjacent(tree, ParseAll(rest).value);
      }
      AdjacentStep(before, p.value.entry);
      if |tree| > 1 && !Less(tree[|tree| - 2], tree[|tree| - 1]) {
        return tree, false;
      }
      var dup := IsLastDuplicated(tree);
      DistinctStep(before, p.value.entry);
      if dup {
        return tree, false;
      }
    }
    ParseNothing(all);
    assert tree + [] == tree;
    ok := true;
  }

  lemma ParseNothing(all: Option<seq<TreeEntry>>)
    ensures ParseAll([]) == Some([]) && Extend([], all) == all
  {
    if all.Some? {
      assert [] + all.value == all.value;
    }
  }

  lemma EmptyTree()
    ensures Adjacent([]) && DistinctNames([])
  {
  }

  lemma AdjacentStep(t: seq<TreeEntry>, e: TreeEntry)
    requires Adjacent(t)
    ensures Adjacent(t + [e]) <==> t == [] || Less(Last(t), e)
  {
    hide Less;
    var u := t + [e];
    if t != [] {
      assert u[|u| - 2] == Last(t) && u[|u| - 1] == e;
      assert (|u| - 2) + 1 == |u| - 1;
    }
  }

  lemma DistinctStep(t: seq<TreeEntry>, e: TreeEntry)
    ensures LastDuplicated(t + [e]) ==> !DistinctNames(t + [e])
    ensures DistinctNames(t) && !LastDuplicated(t + [e]) ==> DistinctNames(t + [e])
    ensures AllSlashFree(t + [e]) ==> AllSlashFree(t)
    ensures AllSlashFree(t + [e]) && Adjacent(t + [e]) ==> Orderly(t + [e])
  {
    hide Less;
    var u := t + [e];
    assert Front(u) == t && Last(u) == e;
    if LastDuplicated(u) {
      var k :| 0 <= k < |t| && t[k].name == e.name;
      assert u[k].name == u[|t|].name;
    }
    if AllSlashFree(u) {
      forall i | 0 <= i < |t|
        ensures SlashFree(t[i].name)
      {
        assert t[i] == u[i];
      }
      AdjacentSorts(u);
    }
  }
}
