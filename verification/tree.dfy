/** Searching a tree, finding duplicate names and sorting. */
module Tree {
  import opened Common
  import opened TreeOrder

  predicate AllSlashFree(t: seq<TreeEntry>) {
    forall i :: 0 <= i < |t| ==> SlashFree(t[i].name)
  }

  /** No entry is before one to its left; entries of equal name and kind may be neighbours. */
  predicate Sorted(t: seq<TreeEntry>) {
    forall i, j :: 0 <= i < j < |t| ==> !Less(t[j], t[i])
  }

  predicate StrictlySorted(t: seq<TreeEntry>) {
    forall i, j :: 0 <= i < j < |t| ==> Less(t[i], t[j])
  }

  /** What the parser and the printer check: each entry against the one before it. */
  predicate Adjacent(t: seq<TreeEntry>) {
    forall i :: 0 <= i < |t| - 1 ==> Less(t[i], t[i + 1])
  }

  predicate DistinctNames(t: seq<TreeEntry>) {
    forall i, j :: 0 <= i < j < |t| ==> t[i].name != t[j].name
  }

  predicate Named(t: seq<TreeEntry>, name: seq<byte>) {
    exists i :: 0 <= i < |t| && t[i].name == name
  }

  lemma {:induction false} AdjacentReaches(t: seq<TreeEntry>, i: nat, j: nat)
    requires AllSlashFree(t) && Adjacent(t) && i < j < |t|
    ensures Less(t[i], t[j])
    decreases j
  {
    hide Less;
    if i + 1 < j {
      AdjacentReaches(t, i, j - 1);
      StrictTotalOrder(t[i], t[j - 1], t[j]);
    }
  }

  /** Checking neighbours is enough for the whole tree, as the order is transitive. */
  lemma AdjacentSorts(t: seq<TreeEntry>)
    requires AllSlashFree(t)
    ensures Adjacent(t) <==> StrictlySorted(t)
    ensures Adjacent(t) ==> Sorted(t)
  {
    hide Less;
    if Adjacent(t) {
      forall i, j | 0 <= i < j < |t|
        ensures Less(t[i], t[j]) && !Less(t[j], t[i])
      {
        AdjacentReaches(t, i, j);
        StrictTotalOrder(t[i], t[j], t[j]);
      }
    }
  }

  predicate Below(e: TreeEntry, name: seq<byte>, isDir: bool) {
    NameLess(e.name, IsDir(e.mode), name, isDir)
  }

  lemma BelowByKey(e: TreeEntry, name: seq<byte>, isDir: bool)
    requires SlashFree(name)
    ensures Below(e, name, isDir) == LexLess(Key(e), KeyOf(name, isDir))
  {
    LessIsKeyOrder(e.name, IsDir(e.mode), name, isDir);
    HasSlash(e.name);
  }

  lemma BelowMonotone(a: TreeEntry, b: TreeEntry, name: seq<byte>, isDir: bool)
    requires SlashFree(a.name) && SlashFree(name) && !Less(b, a) && !Below(a, name, isDir)
    ensures !Below(b, name, isDir)
  {
    hide LexLess, Less, Below;
    BelowByKey(a, name, isDir);
    BelowByKey(b, name, isDir);
    LessByKey(b, a);
    LexTotal(Key(a), Key(b));
    if LexLess(Key(b), KeyOf(name, isDir)) && Key(a) != Key(b) {
      LexTrans(Key(a), Key(b), KeyOf(name, isDir));
    }
  }

  /** In a sorted tree an entry with just this name and kind is at the first place that is not below it. */
  lemma FirstIsIt(t: seq<TreeEntry>, i: nat, k: nat, isDir: bool)
    requires AllSlashFree(t) && Sorted(t) && i <= k < |t| && IsDir(t[k].mode) == isDir
    requires !Below(t[i], t[k].name, isDir)
    ensures t[i].name == t[k].name
  {
    hide LexLess, Less, Below;
    BelowByKey(t[i], t[k].name, isDir);
    LessByKey(t[k], t[i]);
    LexTotal(Key(t[i]), Key(t[k]));
    KeyInjective(t[i].name, IsDir(t[i].mode), t[k].name, isDir);
  }

  lemma SelfNotBelow(e: TreeEntry)
    requires SlashFree(e.name)
    ensures !Below(e, e.name, IsDir(e.mode))
  {
    hide LexLess, Below;
    BelowByKey(e, e.name, IsDir(e.mode));
    LexTotal(Key(e), Key(e));
  }

  /** What the search methods rely on. */
  predicate Orderly(t: seq<TreeEntry>) {
    AllSlashFree(t) && Sorted(t)
  }

  /**
   search: on an orderly tree it finds the name whenever there is an entry of that name and
   kind, and the entry of that kind is at the returned position or after it.
   */
  method SearchKind(t: seq<TreeEntry>, name: seq<byte>, isDir: bool) returns (i: nat, ok: bool)
    ensures i <= |t| && (ok <==> i < |t| && t[i].name == name)
    ensures Orderly(t) ==>
      forall k :: 0 <= k < |t| && t[k].name == name && IsDir(t[k].mode) == isDir ==> i <= k && ok
    ensures Orderly(t) && SlashFree(name) ==> forall k :: 0 <= k < i ==> Below(t[k], name, isDir)
  {
    hide Less, Below, NameLess;
    var f := (k: nat) requires k < |t| => !NameLess(t[k].name, IsDir(t[k].mode), name, isDir);
    i := Search(|t|, f);
    ok := i < |t| && t[i].name == name;
    forall k: nat | k < |t|
      ensures f(k) == !Below(t[k], name, isDir)
    {
      NameBelow(t[k], name, isDir);
    }
    if Orderly(t) && SlashFree(name) {
      SearchMonotone(t, name, isDir);
      assert Monotone(|t|, f);
      forall k | 0 <= k < |t| && t[k].name == name && IsDir(t[k].mode) == isDir
        ensures i <= k && t[i].name == name
      {
        SelfNotBelow(t[k]);
        assert f(k);
        FirstIsIt(t, i, k, isDir);
      }
    }
  }

  lemma NameBelow(e: TreeEntry, name: seq<byte>, isDir: bool)
    ensures Below(e, name, isDir) == NameLess(e.name, IsDir(e.mode), name, isDir)
  {
  }

  lemma SearchMonotone(t: seq<TreeEntry>, name: seq<byte>, isDir: bool)
    requires AllSlashFree(t) && Sorted(t) && SlashFree(name)
    ensures forall k: nat, l: nat :: k < l < |t| && !Below(t[k], name, isDir) ==> !Below(t[l], name, isDir)
  {
    hide Less, Below;
    forall k: nat, l: nat | k < l < |t| && !Below(t[k], name, isDir)
      ensures !Below(t[l], name, isDir)
    {
      BelowMonotone(t[k], t[l], name, isDir);
    }
  }

  /**
   Tree.Search: in an orderly tree it returns an entry with the name exactly when there is one,
   whatever is asked for; the second look at directories needs only what lies behind the first.
   */
  method SearchName(t: seq<TreeEntry>, name: seq<byte>) returns (e: Option<TreeEntry>)
    ensures e.Some? ==> e.value in t && e.value.name == name
    ensures Orderly(t) ==> (e.Some? <==> Named(t, name))
  {
    hide Less, Below, NameLess;
    var i, ok := SearchKind(t, name, false);
    if !ok && i + 1 < |t| {
      var tail := t[i + 1..];
      ghost var first := i;
      i, ok := SearchKind(tail, name, true);
      if Orderly(t) {
        NamedAfter(t, first, name);
      }
      return if ok then Some(tail[i]) else None;
    }
    if !ok && Orderly(t) {
      NamedAfter(t, i, name);
    }
    e := if ok then Some(t[i]) else None;
  }

  /** When no file of the name exists and the first candidate is not it, only a directory behind it can be. */
  lemma NamedAfter(t: seq<TreeEntry>, i: nat, name: seq<byte>)
    requires AllSlashFree(t) && Sorted(t) && i <= |t| && (i < |t| ==> t[i].name != name)
    requires forall k :: 0 <= k < |t| && t[k].name == name ==> IsDir(t[k].mode)
    requires SlashFree(name) ==> forall k :: 0 <= k < i ==> Below(t[k], name, false)
    ensures forall k :: 0 <= k < |t| && t[k].name == name ==> k > i
    ensures i + 1 >= |t| ==> !Named(t, name)
    ensures i + 1 < |t| ==> (Named(t, name) <==> Named(t[i + 1..], name))
  {
    hide Less, NameLess, Below;
    forall k | 0 <= k < |t| && t[k].name == name
      ensures k > i
    {
      if k < i {
        DirNotBelowFile(t[k]);
      }
    }
    if i + 1 < |t| && Named(t, name) {
      var k :| 0 <= k < |t| && t[k].name == name;
      assert t[i + 1..][k - i - 1] == t[k];
    }
  }

  /** "a" < "a/". */
  lemma DirNotBelowFile(e: TreeEntry)
    requires SlashFree(e.name)
    ensures !Below(e, e.name, false)
  {
    BelowByKey(e, e.name, false);
    LexTotal(e.name, e.name);
    LexPrefix(e.name, [SLASH]);
  }

  lemma {:induction false} LexPrefix(a: seq<byte>, b: seq<byte>)
    ensures !LexLess(a + b, a)
  {
    if a != [] {
      assert (a + b)[1..] == a[1..] + b;
      LexPrefix(a[1..], b);
    }
  }

  /** Some earlier entry has the last one's name. */
  predicate LastDuplicated(t: seq<TreeEntry>)
    requires t != []
  {
    Named(Front(t), Last(t).name)
  }

  /** isLastDuplicated: no false alarms, and exact on orderly trees, however far apart file and directory are. */
  method IsLastDuplicated(t: seq<TreeEntry>) returns (dup: bool)
    requires t != []
    ensures dup ==> LastDuplicated(t)
    ensures Orderly(t) ==> dup == LastDuplicated(t)
  {
    hide Less, NameLess, Below;
    if |t| < 2 {
      return false;
    }
    var entry := Last(t);
    if t[|t| - 2].name == entry.name {
      assert Front(t)[|t| - 2].name == entry.name;
      return true;
    }
    if Orderly(t) {
      SameKindTogether(t);
    }
    if !IsDir(entry.mode) {
      return false;
    }
    var i, found := SearchKind(t[..|t| - 2], entry.name, false);
    if found {
      assert Front(t)[i].name == entry.name;
    }
    dup := found;
  }

  /** An earlier entry of the same name that is not next to the last one is a file, and the last one a directory. */
  lemma SameKindTogether(t: seq<TreeEntry>)
    requires |t| >= 2 && AllSlashFree(t) && Sorted(t) && t[|t| - 2].name != Last(t).name
    ensures forall k :: 0 <= k < |t| - 1 && t[k].name == Last(t).name ==>
      k < |t| - 2 && !IsDir(t[k].mode) && IsDir(Last(t).mode)
  {
    hide Less, NameLess;
    var n := |t|;
    forall k | 0 <= k < n - 1 && t[k].name == t[n - 1].name
      ensures k < n - 2 && !IsDir(t[k].mode) && IsDir(t[n - 1].mode)
    {
      Between(t[k], t[n - 2], t[n - 1]);
    }
  }

  /** What lies between two entries of one name has that name, unless they are a file and then a directory. */
  lemma Between(a: TreeEntry, b: TreeEntry, c: TreeEntry)
    requires SlashFree(a.name) && SlashFree(b.name) && SlashFree(c.name)
    requires !Less(b, a) && !Less(c, b) && !Less(c, a) && a.name == c.name != b.name
    ensures !IsDir(a.mode) && IsDir(c.mode)
  {
    hide Less, LexLess;
    LessByKey(b, a);
    LessByKey(c, b);
    LessByKey(c, a);
    LexTotal(Key(a), Key(b));
    LexTotal(Key(b), Key(c));
    KeyInjective(a.name, IsDir(a.mode), b.name, IsDir(b.mode));
    KeyInjective(b.name, IsDir(b.mode), c.name, IsDir(c.mode));
    if IsDir(a.mode) && !IsDir(c.mode) {
      KeyOrder(c.name);
    }
  }

  lemma KeyOrder(name: seq<byte>)
    ensures LexLess(KeyOf(name, false), KeyOf(name, true))
  {
    LexPrefix(name, [SLASH]);
    LexTotal(name, name + [SLASH]);
    assert |name + [SLASH]| == |name| + 1;
  }

  lemma FirstDuplicate(t: seq<TreeEntry>, n: nat)
    requires n <= |t|
    ensures DistinctNames(t[..n]) <==> forall i :: 0 < i <= n ==> !LastDuplicated(t[..i])
  {
    forall i | 0 < i <= n
      ensures LastDuplicated(t[..i]) <==> exists k :: 0 <= k < i - 1 && t[k].name == t[i - 1].name
    {
      assert Front(t[..i]) == t[..i - 1];
      if k: nat :| k < i - 1 && t[k].name == t[i - 1].name {
        assert Front(t[..i])[k].name == t[i - 1].name;
      }
    }
    if i: nat :| 0 < i <= n && LastDuplicated(t[..i]) {
      var k :| 0 <= k < i - 1 && t[k].name == t[i - 1].name;
      assert t[..n][k].name == t[..n][i - 1].name;
    } else {
      forall k, l | 0 <= k < l < n
        ensures t[k].name != t[l].name
      {
        assert !LastDuplicated(t[..l + 1]);
        assert t[..l + 1][k] == t[k];
      }
    }
  }

  /** Insertion at the place sort.Sort may choose: behind everything that is before the entry. */
  method InsertEntry(t: seq<TreeEntry>, e: TreeEntry) returns (out: seq<TreeEntry>)
    ensures multiset(out) == multiset(t) + multiset{e}
    ensures Orderly(t) && SlashFree(e.name) ==> Orderly(out)
  {
    hide Less, NameLess, Orderly;
    var i := 0;
    while i < |t| && Less(t[i], e)
      invariant i <= |t| && forall k :: 0 <= k < i ==> Less(t[k], e)
    {
      i := i + 1;
    }
    if Orderly(t) && SlashFree(e.name) {
      InsertOrderly(t, e, i);
    }
    InsertKeeps(t, e, i);
    out := t[..i] + [e] + t[i..];
  }

  lemma InsertKeeps(t: seq<TreeEntry>, e: TreeEntry, i: nat)
    requires i <= |t|
    ensures multiset(t[..i] + [e] + t[i..]) == multiset(t) + multiset{e}
  {
    assert t == t[..i] + t[i..];
  }

  lemma InsertOrderly(t: seq<TreeEntry>, e: TreeEntry, i: nat)
    requires Orderly(t) && SlashFree(e.name) && i <= |t|
    requires forall k :: 0 <= k < i ==> Less(t[k], e)
    requires i < |t| ==> !Less(t[i], e)
    ensures Orderly(t[..i] + [e] + t[i..])
  {
    hide Less, Sorted;
    InsertSorted(t, e, i);
  }

  lemma InsertSorted(t: seq<TreeEntry>, e: TreeEntry, i: nat)
    requires AllSlashFree(t) && Sorted(t) && SlashFree(e.name) && i <= |t|
    requires forall k :: 0 <= k < i ==> Less(t[k], e)
    requires i < |t| ==> !Less(t[i], e)
    ensures Sorted(t[..i] + [e] + t[i..])
  {
    hide Less, NameLess;
    var out := t[..i] + [e] + t[i..];
    forall k, l | 0 <= k < l < |out|
      ensures !Less(out[l], out[k])
    {
      if l == i {
        StrictTotalOrder(t[k], e, e);
      } else if k == i && l > i + 1 {
        NotLessTransitive(e, t[i], t[l - 1]);
      }
    }
  }

  lemma NotLessTransitive(a: TreeEntry, b: TreeEntry, c: TreeEntry)
    requires SlashFree(a.name) && SlashFree(b.name) && SlashFree(c.name)
    requires !Less(b, a) && !Less(c, b)
    ensures !Less(c, a)
  {
    hide Less, LexLess;
    LessByKey(b, a);
    LessByKey(c, b);
    LessByKey(c, a);
    LexTotal(Key(a), Key(b));
    LexTotal(Key(b), Key(c));
    if LexLess(Key(c), Key(a)) && Key(a) != Key(b) && Key(b) != Key(c) {
      LexTrans(Key(a), Key(b), Key(c));
      LexTotal(Key(a), Key(c));
    }
  }

  /** sort.Sort on a tree: some rearrangement of it, sorted if the order is one. */
  method SortEntries(t: seq<TreeEntry>) returns (out: seq<TreeEntry>)
    ensures multiset(out) == multiset(t)
    ensures AllSlashFree(t) ==> Orderly(out)
  {
    hide Less, Orderly;
    out := [];
    NothingOrderly();
    for n := 0 to |t|
      invariant multiset(out) == multiset(t[..n]) && (AllSlashFree(t) ==> Orderly(out))
    {
      assert t[..n + 1] == t[..n] + [t[n]];
      out := InsertEntry(out, t[n]);
    }
    assert t[..|t|] == t;
  }

  lemma NothingOrderly()
    ensures Orderly([])
  {
  }

  /** Sharing a name does not depend on the arrangement, so it is the input that decides about the error. */
  lemma DistinctAlike(a: seq<TreeEntry>, b: seq<TreeEntry>)
    requires multiset(a) == multiset(b)
    ensures DistinctNames(a) <==> DistinctNames(b)
  {
    hide DistinctNames;
    if DistinctNames(a) {
      DistinctByMultiset(a, b);
    }
    if DistinctNames(b) {
      DistinctByMultiset(b, a);
    }
  }

  lemma DistinctByMultiset(a: seq<TreeEntry>, b: seq<TreeEntry>)
    requires multiset(a) == multiset(b) && DistinctNames(a)
    ensures DistinctNames(b)
  {
    forall i, j | 0 <= i < j < |b|
      ensures b[i].name != b[j].name
    {
      if b[i].name == b[j].name {
        TwoSameName(a, b, i, j);
      }
    }
  }

  lemma TwoSameName(a: seq<TreeEntry>, b: seq<TreeEntry>, i: nat, j: nat)
    requires multiset(a) == multiset(b) && DistinctNames(a)
    requires i < j < |b|
    ensures b[i].name != b[j].name
  {
    assert b[i] in multiset(a) && b[j] in multiset(a);
    if b[i] == b[j] {
      var k :| 0 <= k < |a| && a[k] == b[i];
      Occurs(b, i, j);
      OnlyOnce(a, k);
    }
  }

  lemma Occurs(b: seq<TreeEntry>, i: nat, j: nat)
    requires i < j < |b| && b[i] == b[j]
    ensures multiset(b)[b[i]] >= 2
  {
    assert b == b[..i] + [b[i]] + b[i + 1..j] + [b[j]] + b[j + 1..];
  }

  lemma OnlyOnce(a: seq<TreeEntry>, k: nat)
    requires DistinctNames(a) && k < |a|
    ensures multiset(a)[a[k]] == 1
  {
    assert a == a[..k] + [a[k]] + a[k + 1..];
    assert a[k] !in a[..k] && a[k] !in a[k + 1..];
  }

  lemma OrderlyPrefix(t: seq<TreeEntry>, n: nat)
    requires Orderly(t) && n <= |t|
    ensures Orderly(t[..n])
  {
    hide Less;
  }

  /** The check behind the sort: each prefix is asked about its last entry. */
  method NoDuplicates(t: seq<TreeEntry>) returns (ok: bool)
    ensures DistinctNames(t) ==> ok
    ensures Orderly(t) ==> (ok <==> DistinctNames(t))
  {
    hide Less, Orderly, DistinctNames, LastDuplicated;
    FirstDuplicate(t, |t|);
    assert t[..|t|] == t;
    for i := 0 to |t|
      invariant Orderly(t) ==> forall k :: 0 < k <= i ==> !LastDuplicated(t[..k])
    {
      if Orderly(t) {
        OrderlyPrefix(t, i + 1);
      }
      var dup := IsLastDuplicated(t[..i + 1]);
      if dup {
        return false;
      }
    }
    ok := true;
  }

  /**
   Tree.Sort, in place. Entries are only rearranged and distinct names never reported; with
   slash-free names the tree ends up in order and a duplicate is reported exactly when two
   entries share a name.
   */
  method SortTree(a: array<TreeEntry>) returns (ok: bool)
    modifies a
    ensures multiset(a[..]) == multiset(old(a[..]))
    ensures DistinctNames(old(a[..])) ==> ok
    ensures AllSlashFree(old(a[..])) ==> Orderly(a[..]) && (ok <==> DistinctNames(old(a[..])))
  {
    hide Less, Orderly, DistinctNames;
    ghost var before := a[..];
    var out := SortEntries(a[..]);
    DistinctAlike(before, out);
    assert |out| == |multiset(out)| == |before|;
    forall i | 0 <= i < a.Length {
      a[i] := out[i];
    }
    assert a[..] == out;
    ok := NoDuplicates(a[..]);
  }

  /** A tree that Sort accepts is strictly sorted, so it can be printed and searched. */
  lemma SortedDistinct(t: seq<TreeEntry>)
    requires AllSlashFree(t) && Sorted(t) && DistinctNames(t)
    ensures StrictlySorted(t)
  {
    hide Less;
    forall i, j | 0 <= i < j < |t|
      ensures Less(t[i], t[j])
    {
      StrictTotalOrder(t[i], t[j], t[j]);
    }
  }

  lemma FirstsAgree(a: seq<TreeEntry>, b: seq<TreeEntry>)
    requires AllSlashFree(a) && StrictlySorted(a) && StrictlySorted(b) && multiset(a) == multiset(b)
    requires a != [] && b != []
    ensures a[0] == b[0]
  {
    hide Less;
    assert a[0] in multiset(b) && b[0] in multiset(a);
    var i :| 0 <= i < |b| && b[i] == a[0];
    var j :| 0 <= j < |a| && a[j] == b[0];
    StrictTotalOrder(a[0], a[j], a[j]);
  }

  lemma StrictTail(t: seq<TreeEntry>)
    requires t != [] && StrictlySorted(t)
    ensures StrictlySorted(t[1..]) && (AllSlashFree(t) ==> AllSlashFree(t[1..]))
  {
    hide Less;
  }

  /** The sorted tree, and with it the object's hash, depends on the entries alone and not on their order before. */
  lemma {:induction false} SortedTreeUnique(a: seq<TreeEntry>, b: seq<TreeEntry>)
    requires AllSlashFree(a) && StrictlySorted(a) && StrictlySorted(b) && multiset(a) == multiset(b)
    ensures a == b
  {
    hide Less, StrictlySorted, AllSlashFree;
    assert |a| == |multiset(a)| == |multiset(b)| == |b|;
    if a != [] {
      FirstsAgree(a, b);
      TailsAlike(a, b);
      StrictTail(a);
      StrictTail(b);
      SortedTreeUnique(a[1..], b[1..]);
      assert a == [a[0]] + a[1..] && b == [a[0]] + b[1..];
    }
  }
}
