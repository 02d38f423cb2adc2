/** Tree modes by their bits, and Git's tree order and entries by their bytes. */
module TreeModes {
  import opened ByteStrings
  import opened Common
  import opened Numerals
  import opened Tree
  import opened TreeCodec
  import opened TreeOrder

  /** The bits that two numbers have in common. */
  function And(a: nat, b: nat): nat {
    if b == 0 then 0 else (if a % 2 == 1 && b % 2 == 1 then 1 else 0) + 2 * And(a / 2, b / 2)
  }

  lemma AndShifted(a: nat, b: nat)
    ensures And(a, 2 * b) == 2 * And(a / 2, b)
  {
  }

  lemma TypeBits(a: nat)
    ensures And(a, 0xF) == a % 16
  {
    assert And(a, 0xF) == a % 2 + 2 * And(a / 2, 0x7);
    assert And(a / 2, 0x7) == a / 2 % 2 + 2 * And(a / 2 / 2, 0x3);
    assert And(a / 2 / 2, 0x3) == a / 2 / 2 % 2 + 2 * And(a / 2 / 2 / 2, 1);
    assert And(a / 2 / 2 / 2, 1) == a / 2 / 2 / 2 % 2 + 2 * And(a / 2 / 2 / 2 / 2, 0);
  }

  lemma Shifted12(a: nat, b: nat)
    ensures And(a, 0x1000 * b) == 0x1000 * And(a / 0x1000, b)
  {
    hide And;
    Shifted4(a, 0x100 * b);
    Shifted4(a / 0x10, 0x10 * b);
    Shifted4(a / 0x100, b);
    assert a / 0x10 / 0x10 == a / 0x100 && a / 0x100 / 0x10 == a / 0x1000;
  }

  lemma Shifted4(a: nat, b: nat)
    ensures And(a, 0x10 * b) == 0x10 * And(a / 0x10, b)
  {
    hide And;
    AndShifted(a, 8 * b);
    AndShifted(a / 2, 4 * b);
    AndShifted(a / 4, 2 * b);
    AndShifted(a / 8, b);
    assert a / 2 / 2 == a / 4 && a / 4 / 2 == a / 8 && a / 8 / 2 == a / 0x10;
  }

  /** Under the mask 0o170000 a mode is that of a directory exactly when it is taken for one. */
  lemma DirByMask(mode: nat)
    ensures And(mode, 0xF000) == 0x4000 <==> IsDir(mode)
  {
    hide And;
    Shifted12(mode, 0xF);
    TypeBits(mode / 0x1000);
  }

  /**
   Of the modes Git writes - plain, executable and group-writable files, directories, symbolic
   links, submodules - only 0o040000 is a directory.
   */
  lemma SourceModes(mode: nat)
    requires mode in [0x81a4, 0x81ed, 0x81b4, 0x4000, 0xA000, 0xE000]
    ensures And(mode, 0xF000) == 0x4000 <==> mode == 0x4000
  {
    hide And;
    DirByMask(mode);
  }

  /**
   The order of entries with slash-free names is that of their names with a slash behind
   those whose mode under the mask is 0o040000, and behind no other: the first byte in which
   they differ decides.
   */
  lemma OrderByMask(a: TreeEntry, b: TreeEntry)
    requires 0x2f !in a.name && 0x2f !in b.name
    ensures var k := a.name + if And(a.mode, 0xF000) == 0x4000 then [0x2f] else [];
      var l := b.name + if And(b.mode, 0xF000) == 0x4000 then [0x2f] else [];
      Less(a, b) <==>
      exists n: nat :: n <= |k| && n < |l| && k[..n] == l[..n] && (n < |k| ==> k[n] < l[n])
  {
    hide And, LexLess, Less;
    DirByMask(a.mode);
    DirByMask(b.mode);
    LessByKey(a, b);
    assert a.name + [] == a.name && b.name + [] == b.name;
    LexFirstDifference(Key(a), Key(b));
  }

  // ---------------------------------------------------------------- entries in bytes

  /** An entry: the mode in octal, a space, the name, NUL, and the twenty bytes of the ID. */
  lemma EntryByRule(e: TreeEntry)
    ensures EntryBytes(e) == Digits(e.mode, Octal) + [0x20] + e.name + [0] + e.id
  {
    hide Digits;
    Regroup(Digits(e.mode, Octal) + [0x20] + e.name, [0], e.id);
    Regroup(Digits(e.mode, Octal) + [0x20], e.name, [0] + e.id);
    Regroup(Digits(e.mode, Octal), [0x20], e.name + ([0] + e.id));
  }

  /** "160000", "100644" and "40000" are the modes of submodules, plain files and directories. */
  lemma ModeDigits()
    ensures Digits(0xE000, Octal) == [0x31, 0x36, 0x30, 0x30, 0x30, 0x30]
    ensures Digits(0x81a4, Octal) == [0x31, 0x30, 0x30, 0x36, 0x34, 0x34]
    ensures Digits(0x4000, Octal) == [0x34, 0x30, 0x30, 0x30, 0x30]
  {
    hide Digits;
    OctalDigits(0, 1);
    OctalDigits(0x1, 6);
    OctalDigits(0xE, 0);
    OctalDigits(0x70, 0);
    OctalDigits(0x380, 0);
    OctalDigits(0x1C00, 0);
    OctalDigits(0x1, 0);
    OctalDigits(0x8, 0);
    OctalDigits(0x40, 6);
    OctalDigits(0x206, 4);
    OctalDigits(0x1034, 4);
    OctalDigits(0, 4);
    OctalDigits(0x4, 0);
    OctalDigits(0x20, 0);
    OctalDigits(0x100, 0);
    OctalDigits(0x800, 0);
  }

  /** A submodule "s" comes before a file "s.", a directory "s" behind it. */
  lemma SubmoduleBeforeFile(id: Id, id': Id)
    ensures var module_, dir, file := TreeEntry([0x73], 0xE000, id), TreeEntry([0x73], 0x4000, id), TreeEntry([0x73, 0x2e], 0x81a4, id');
      && Less(module_, file) && !Less(file, module_) && Less(file, dir) && !Less(dir, file)
  {
    var s: seq<byte>, t: seq<byte> := [0x73], [0x73, 0x2e];
    assert s[..1] == s && t[..1] == s;
    assert NameLess(s, false, t, false) && !NameLess(t, false, s, false);
    assert NameLess(t, false, s, true) && !NameLess(s, true, t, false);
    assert !IsDir(0xE000) && IsDir(0x4000) && !IsDir(0x81a4);
  }

  /** Such a tree in bytes: "160000 s", NUL, an ID, "100644 s.", NUL, an ID. */
  lemma SubmoduleTree(id: Id, id': Id)
    ensures var t := [TreeEntry([0x73], 0xE000, id), TreeEntry([0x73, 0x2e], 0x81a4, id')];
      var bytes := ([0x31, 0x36, 0x30, 0x30, 0x30, 0x30, 0x20, 0x73, 0] + id) +
                   ([0x31, 0x30, 0x30, 0x36, 0x34, 0x34, 0x20, 0x73, 0x2e, 0] + id');
      Marshal(t) == Some(bytes) && Accepts(bytes, t)
  {
    hide Digits, Less, PrintAll, ParseAll, EntryBytes;
    var a, b := TreeEntry([0x73], 0xE000, id), TreeEntry([0x73, 0x2e], 0x81a4, id');
    SubmoduleBeforeFile(id, id');
    ModeDigits();
    EntryByRule(a);
    EntryByRule(b);
    PrintTwo(a, b);
    assert EntryBytes(a) == [0x31, 0x36, 0x30, 0x30, 0x30, 0x30, 0x20, 0x73, 0] + id;
    assert EntryBytes(b) == [0x31, 0x30, 0x30, 0x36, 0x34, 0x34, 0x20, 0x73, 0x2e, 0] + id';
    assert [0x73] != [0x73, 0x2e];
    MarshalUnmarshal([a, b]);
  }

  lemma PrintTwo(a: TreeEntry, b: TreeEntry)
    ensures PrintAll([a, b]) == EntryBytes(a) + EntryBytes(b)
  {
    hide EntryBytes;
    assert [a, b][1..] == [b] && [b][1..] == [];
    assert PrintAll([b]) == EntryBytes(b);
  }
}
