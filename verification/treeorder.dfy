/** Git's tree order: names compare as strings, a directory's as if it ended in a slash. */
module TreeOrder {
  import opened Common

  const SLASH: byte := 0x2f

  datatype TreeEntry = TreeEntry(name: seq<byte>, mode: nat, id: Id)

  /** Mode.IsDir: `mode & 0o170000 == 0o040000`. */
  predicate IsDir(mode: nat) {
    mode / 0x1000 % 16 == 4
  }

  /** treeEntryLess, branch by branch. */
  predicate NameLess(name1: seq<byte>, isDir1: bool, name2: seq<byte>, isDir2: bool) {
    var common := Min(|name1|, |name2|);
    var s1, s2 := name1[..common], name2[..common];
    if s1 != s2 then LexLess(s1, s2)
    else
      var n1 := if common < |name1| || !isDir1 then |name1| else |name1| + 1;
      var c1 := if common < |name1| then name1[common] else if isDir1 then SLASH else 0;
      var n2 := if common < |name2| || !isDir2 then |name2| else |name2| + 1;
      var c2 := if common < |name2| then name2[common] else if isDir2 then SLASH else 0;
      if n1 > common && n2 > common && c1 != c2 then c1 < c2 else n1 < n2
  }

  predicate Less(a: TreeEntry, b: TreeEntry) {
    NameLess(a.name, IsDir(a.mode), b.name, IsDir(b.mode))
  }

  function KeyOf(name: seq<byte>, isDir: bool): seq<byte> {
    if isDir then name + [SLASH] else name
  }

  function Key(e: TreeEntry): seq<byte> {
    KeyOf(e.name, IsDir(e.mode))
  }

  predicate SlashFree(name: seq<byte>) {
    SLASH !in name
  }

  lemma NameLessHead(c: byte, a: seq<byte>, isDir1: bool, b: seq<byte>, isDir2: bool)
    ensures NameLess([c] + a, isDir1, [c] + b, isDir2) == NameLess(a, isDir1, b, isDir2)
  {
    var m := Min(|a|, |b|);
    assert ([c] + a)[..m + 1] == [c] + a[..m] && ([c] + b)[..m + 1] == [c] + b[..m];
    assert ([c] + a)[..m + 1][1..] == a[..m] && ([c] + b)[..m + 1][1..] == b[..m];
  }

  lemma KeyHead(c: byte, a: seq<byte>, isDir1: bool, b: seq<byte>, isDir2: bool)
    ensures LexLess(KeyOf([c] + a, isDir1), KeyOf([c] + b, isDir2)) == LexLess(KeyOf(a, isDir1), KeyOf(b, isDir2))
  {
    assert KeyOf([c] + a, isDir1)[1..] == KeyOf(a, isDir1);
    assert KeyOf([c] + b, isDir2)[1..] == KeyOf(b, isDir2);
  }

  lemma EmptyCase(a: seq<byte>, isDir1: bool, b: seq<byte>, isDir2: bool)
    requires a == [] || b == []
    ensures NameLess(a, isDir1, b, isDir2) == LexLess(KeyOf(a, isDir1), KeyOf(b, isDir2))
      <==> !(isDir1 && isDir2 && b == a + [SLASH])
  {
    assert a[..0] == b[..0];
    var k1, k2 := KeyOf(a, isDir1), KeyOf(b, isDir2);
    if k1 != [] && k2 != [] && k1[0] == k2[0] {
      if a == [] {
        assert k1[1..] == [];
        assert LexLess(k1, k2) == (|k2| > 1);
      } else {
        assert k2[1..] == [];
        assert !LexLess(k1, k2);
      }
    }
  }

  /**
   The branches compute the lexicographic order of the keys, except for one family of
   arguments: a directory and another directory named like it with a slash appended.
   */
  lemma {:induction false} LessIsKeyOrder(a: seq<byte>, isDir1: bool, b: seq<byte>, isDir2: bool)
    ensures NameLess(a, isDir1, b, isDir2) == LexLess(KeyOf(a, isDir1), KeyOf(b, isDir2))
      <==> !(isDir1 && isDir2 && b == a + [SLASH])
    decreases |a|
  {
    if a == [] || b == [] {
      EmptyCase(a, isDir1, b, isDir2);
    } else if a[0] == b[0] {
      LessIsKeyOrder(a[1..], isDir1, b[1..], isDir2);
      assert a == [a[0]] + a[1..] && b == [a[0]] + b[1..];
      NameLessHead(a[0], a[1..], isDir1, b[1..], isDir2);
      KeyHead(a[0], a[1..], isDir1, b[1..], isDir2);
      if b[1..] == a[1..] + [SLASH] {
        assert b == a + [SLASH];
      }
    } else {
      var m := Min(|a|, |b|);
      assert a[..m][0] != b[..m][0];
    }
  }

  /** The order fails on that family: the pair below compares as equal both ways, the keys do not. */
  lemma SlashBreaksOrder()
    ensures var a, b := [0x61], [0x61, SLASH];
      && !NameLess(a, true, b, true) && !NameLess(b, true, a, true)
      && KeyOf(a, true) != KeyOf(b, true)
  {
    var a: seq<byte>, b: seq<byte> := [0x61], [0x61, SLASH];
    assert a[..1] == b[..1];
    assert |KeyOf(a, true)| == 2 && |KeyOf(b, true)| == 3;
  }

  lemma HasSlash(a: seq<byte>)
    ensures !SlashFree(a + [SLASH])
  {
    assert (a + [SLASH])[|a|] == SLASH;
  }

  lemma LessByKey(a: TreeEntry, b: TreeEntry)
    requires SlashFree(b.name)
    ensures Less(a, b) == LexLess(Key(a), Key(b))
  {
    LessIsKeyOrder(a.name, IsDir(a.mode), b.name, IsDir(b.mode));
    HasSlash(a.name);
  }

  /** On names without slashes a key determines the name and whether it is a directory. */
  lemma KeyInjective(a: seq<byte>, isDir1: bool, b: seq<byte>, isDir2: bool)
    requires SlashFree(a) && SlashFree(b)
    ensures KeyOf(a, isDir1) == KeyOf(b, isDir2) <==> a == b && isDir1 == isDir2
  {
    if KeyOf(a, isDir1) == KeyOf(b, isDir2) {
      if isDir1 && isDir2 {
        assert a == KeyOf(a, isDir1)[..|a|] && b == KeyOf(b, isDir2)[..|b|];
      } else if isDir1 {
        HasSlash(a);
      } else if isDir2 {
        HasSlash(b);
      }
    }
  }

  /** A strict total order on entries with slash-free names, up to equal name and kind. */
  lemma StrictTotalOrder(a: TreeEntry, b: TreeEntry, c: TreeEntry)
    requires SlashFree(a.name) && SlashFree(b.name) && SlashFree(c.name)
    ensures !Less(a, a) && !(Less(a, b) && Less(b, a))
    ensures Less(a, b) && Less(b, c) ==> Less(a, c)
    ensures Less(a, b) || Less(b, a) <==> !(a.name == b.name && IsDir(a.mode) == IsDir(b.mode))
  {
    hide LexLess, Less;
    LessByKey(a, a);
    LessByKey(a, b);
    LessByKey(b, a);
    LessByKey(b, c);
    LessByKey(a, c);
    LexTotal(Key(a), Key(b));
    LexTotal(Key(a), Key(a));
    KeyInjective(a.name, IsDir(a.mode), b.name, IsDir(b.mode));
    if LexLess(Key(a), Key(b)) && LexLess(Key(b), Key(c)) {
      LexTrans(Key(a), Key(b), Key(c));
    }
  }
}
