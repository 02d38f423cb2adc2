/** Commits by their bytes: zones, numbers, IDs, signature lines and the whole text. */
module CommitText {
  import opened ByteStrings
  import opened CommitFields
  import opened Commits
  import opened Common
  import opened HeaderLines
  import opened HexLines
  import opened Numerals
  import opened UserLines
  import opened Zones

  // ---------------------------------------------------------------- numbers and zones

  /** "+hhmm" is hours and minutes east of Greenwich, "-hhmm" west. */
  lemma ZoneByRule(h: nat, h': nat, m: nat, m': nat)
    requires h < 10 && h' < 10 && m < 10 && m' < 10
    ensures var seconds := 3600 * (10 * h + h') + 60 * (10 * m + m');
      && ParseZone([0x2b, 0x30 + h, 0x30 + h', 0x30 + m, 0x30 + m']) == Some(seconds)
      && ParseZone([0x2d, 0x30 + h, 0x30 + h', 0x30 + m, 0x30 + m']) == Some(-seconds)
  {
    var d: seq<byte> := [0x30 + h, 0x30 + h', 0x30 + m, 0x30 + m'];
    var p: seq<byte>, q: seq<byte> := [0x2b] + d, [0x2d] + d;
    assert p[1..] == d && q[1..] == d;
    assert p == [0x2b, 0x30 + h, 0x30 + h', 0x30 + m, 0x30 + m'];
    assert q == [0x2d, 0x30 + h, 0x30 + h', 0x30 + m, 0x30 + m'];
  }

  /** With fewer digits the first ones count as zero. */
  lemma ShortZone(h: nat, m: nat, m': nat)
    requires h < 10 && m < 10 && m' < 10
    ensures ParseZone([0x2b, 0x30 + m']) == Some(60 * m')
    ensures ParseZone([0x2b, 0x30 + m, 0x30 + m']) == Some(60 * (10 * m + m'))
    ensures ParseZone([0x2b, 0x30 + h, 0x30 + m, 0x30 + m']) == Some(3600 * h + 60 * (10 * m + m'))
  {
    var a: seq<byte>, b: seq<byte>, c: seq<byte> := [0x30 + m'], [0x30 + m, 0x30 + m'], [0x30 + h, 0x30 + m, 0x30 + m'];
    assert ([0x2b] + a)[1..] == a && [0x2b] + a == [0x2b, 0x30 + m'];
    assert ([0x2b] + b)[1..] == b && [0x2b] + b == [0x2b, 0x30 + m, 0x30 + m'];
    assert ([0x2b] + c)[1..] == c && [0x2b] + c == [0x2b, 0x30 + h, 0x30 + m, 0x30 + m'];
  }

  /**
   An offset of less than 100 hours prints as its sign, two digits of hours and two of
   minutes; less than a minute west counts as east.
   */
  lemma FormatByRule(offset: int)
    requires -360000 < offset < 360000
    ensures var s: nat := if offset < 0 then -offset else offset;
      var h, m := s / 3600, s / 60 % 60;
      FormatZone(offset) ==
        [if offset <= -60 then 0x2d else 0x2b, 0x30 + h / 10, 0x30 + h % 10, 0x30 + m / 10, 0x30 + m % 10]
  {
    hide AtLeastTwo, Digits;
    var s: nat := if offset < 0 then -offset else offset;
    assert s / 60 / 60 == s / 3600;
    TwoDigits(s / 60 / 60);
    TwoDigits(s / 60 % 60);
  }

  /** Numbers print in decimal, negative ones behind a minus sign; a plus sign is read as well. */
  lemma IntByRule(n: nat)
    requires n < TWO63
    ensures PrintInt(n) == Digits(n, Decimal) && ParseInt(Digits(n, Decimal)) == Some(n)
    ensures n > 0 ==> PrintInt(-(n as int)) == [0x2d] + Digits(n, Decimal)
    ensures ParseInt([0x2d] + Digits(n, Decimal)) == Some(-(n as int))
    ensures ParseInt([0x2b] + Digits(n, Decimal)) == Some(n)
  {
    hide Digits, Value;
    ParsePrintedInt(n);
    ValueOfDigits(n, Decimal);
    var d := Digits(n, Decimal);
    assert ([0x2d] + d)[1..] == d && ([0x2b] + d)[1..] == d;
  }

  // ---------------------------------------------------------------- signatures

  predicate NoLineEnds(lines: seq<seq<byte>>) {
    forall i :: 0 <= i < |lines| ==> 0x0a !in lines[i]
  }

  /** Lines, each with its end. */
  function Text(lines: seq<seq<byte>>): seq<byte> {
    if lines == [] then [] else (lines[0] + [0x0a]) + Text(lines[1..])
  }

  /** The same behind a space each. */
  function Spaced(lines: seq<seq<byte>>): seq<byte> {
    if lines == [] then [] else ([0x20] + lines[0] + [0x0a]) + Spaced(lines[1..])
  }

  lemma {:induction false} SpacedText(lines: seq<seq<byte>>)
    requires NoLineEnds(lines)
    ensures SpaceLines(Text(lines)) == Some(Spaced(lines))
  {
    if lines != [] {
      hide Cut;
      SpacedText(lines[1..]);
      var line, more := lines[0], Text(lines[1..]);
      Regroup(line, [0x0a], more);
      CutField(line, 0x0a, more);
      Regroup([0x20], line, [0x0a]);
    }
  }

  /** A signature is "gpgsig" and its lines, each behind a space. */
  lemma SignatureByRule(lines: seq<seq<byte>>)
    requires NoLineEnds(lines)
    ensures PrintSignature(Text(lines)) ==
      Some(if lines == [] then [] else [0x67, 0x70, 0x67, 0x73, 0x69, 0x67] + Spaced(lines))
  {
    SpacedText(lines);
    hide SpaceLines, Spaced;
    if lines != [] {
      assert Text(lines)[|lines[0]|] == 0x0a;
    }
  }

  // ---------------------------------------------------------------- whole commits

  /** A line "parent " with an ID, for each parent. */
  function ParentText(ids: seq<Id>): seq<byte> {
    if ids == [] then []
    else ([0x70, 0x61, 0x72, 0x65, 0x6e, 0x74, 0x20] + Hex(ids[0]) + [0x0a]) + ParentText(ids[1..])
  }

  lemma {:induction false} ParentsByRule(ids: seq<Id>)
    ensures PrintParents(ids) == ParentText(ids)
  {
    if ids != [] {
      ParentsByRule(ids[1..]);
      hide Hex;
      Regroup([0x70, 0x61, 0x72, 0x65, 0x6e, 0x74, 0x20], Hex(ids[0]), [0x0a]);
    }
  }

  /** A user, a space, the seconds in decimal, a space, the zone and a line end. */
  function StampText(user: seq<byte>, seconds: int, zone: seq<byte>): seq<byte> {
    user + [0x20] + (if seconds < 0 then [0x2d] + Digits(-seconds, Decimal) else Digits(seconds, Decimal)) +
    [0x20] + zone + [0x0a]
  }

  lemma StampByRule(user: seq<byte>, t: Time)
    requires NamesOffset(t)
    ensures UserText(user, t) == StampText(user, t.unix, t.zone)
  {
    hide Digits, NamesOffset;
    var n := PrintInt(t.unix);
    Regroup(user + [0x20] + n + [0x20], t.zone, [0x0a]);
    Regroup(user + [0x20] + n, [0x20], t.zone + [0x0a]);
    Regroup(user + [0x20], n, [0x20] + (t.zone + [0x0a]));
    Regroup(user, [0x20], n + ([0x20] + (t.zone + [0x0a])));
  }

  /** The whole text: tree, parents, author, committer, extra lines, signature, blank line, message. */
  function CommitBytes(tree: Id, parents: seq<Id>, author: seq<byte>, committer: seq<byte>,
                       extra: seq<byte>, signature: seq<byte>, message: seq<byte>): seq<byte>
  {
    [0x74, 0x72, 0x65, 0x65, 0x20] + Hex(tree) + [0x0a] + ParentText(parents) +
    [0x61, 0x75, 0x74, 0x68, 0x6f, 0x72, 0x20] + author +
    [0x63, 0x6f, 0x6d, 0x6d, 0x69, 0x74, 0x74, 0x65, 0x72, 0x20] + committer +
    extra + signature + [0x0a] + message
  }

  lemma PrintedBytes(c: Commit)
    requires PrintSignature(c.signature).Some? && NamesOffset(c.authorTime) && NamesOffset(c.commitTime)
    ensures Print(c) ==
      CommitBytes(c.tree, c.parents, StampText(c.author, c.authorTime.unix, c.authorTime.zone),
                  StampText(c.committer, c.commitTime.unix, c.commitTime.zone),
                  if c.extra == [] then [] else c.extra + [0x0a], PrintSignature(c.signature).value, c.message)
  {
    hide Hex, PrintParents, ParentText, UserText, StampText, PrintSignature, NamesOffset;
    ParentsByRule(c.parents);
    StampByRule(c.author, c.authorTime);
    StampByRule(c.committer, c.commitTime);
    var a, k, x := UserText(c.author, c.authorTime), UserText(c.committer, c.commitTime), Block(c.extra);
    var s, p := PrintSignature(c.signature).value, ParentText(c.parents);
    Flatten(TREE, Hex(c.tree), p, AUTHOR, a, COMMITTER, k, x, s, c.message);
  }

  lemma Flatten(tree: seq<byte>, id: seq<byte>, parents: seq<byte>, author: seq<byte>, a: seq<byte>,
                committer: seq<byte>, k: seq<byte>, x: seq<byte>, s: seq<byte>, message: seq<byte>)
    ensures (tree + (id + [0x0a])) + (parents + (author + (a + (committer + (k + (x + (s + ([0x0a] + message))))))))
         == tree + id + [0x0a] + parents + author + a + committer + k + x + s + [0x0a] + message
  {
    var m := [0x0a] + message;
    Regroup(tree, id, [0x0a]);
    var h := tree + id + [0x0a];
    Regroup(h + parents + author + a + committer + k + x + s, [0x0a], message);
    Regroup(h + parents + author + a + committer + k + x, s, m);
    Regroup(h + parents + author + a + committer + k, x, s + m);
    Regroup(h + parents + author + a + committer, k, x + (s + m));
    Regroup(h + parents + author + a, committer, k + (x + (s + m)));
    Regroup(h + parents + author, a, committer + (k + (x + (s + m))));
    Regroup(h + parents, author, a + (committer + (k + (x + (s + m)))));
    Regroup(h, parents, author + (a + (committer + (k + (x + (s + m))))));
  }

  predicate TwoDigit(d: seq<nat>) {
    |d| == 4 && d[0] < 10 && d[1] < 10 && d[2] < 10 && d[3] < 10
  }

  /** "+hhmm" or "-hhmm" with the four digits `d`. */
  function ZoneOf(west: bool, d: seq<nat>): seq<byte>
    requires TwoDigit(d)
  {
    [if west then 0x2d else 0x2b, 0x30 + d[0], 0x30 + d[1], 0x30 + d[2], 0x30 + d[3]]
  }

  function SecondsOf(west: bool, d: seq<nat>): int
    requires TwoDigit(d)
  {
    var s: int := 3600 * (10 * d[0] + d[1]) + 60 * (10 * d[2] + d[3]);
    if west then -s else s
  }

  lemma ZoneNamed(unix: int, west: bool, d: seq<nat>)
    requires TwoDigit(d)
    ensures NamesOffset(Time(unix, ZoneOf(west, d), SecondsOf(west, d)))
  {
    ZoneByRule(d[0], d[1], d[2], d[3]);
  }

  /**
   A commit is read from its text with the fields that stand there, the zones giving the
   offsets their signs and digits say; and printing those fields gives the text.
   */
  lemma CommitByRule(tree: Id, parents: seq<Id>, author: seq<byte>, unix: int, west: bool, d: seq<nat>,
                     committer: seq<byte>, unix': int, west': bool, d': seq<nat>,
                     extra: seq<byte>, signature: seq<seq<byte>>, message: seq<byte>)
    requires TwoDigit(d) && TwoDigit(d') && -TWO63 <= unix < TWO63 && -TWO63 <= unix' < TWO63
    requires 0 !in author && 0x0a !in author && 0 !in committer && 0x0a !in committer
    requires IsValid(extra) && GpgsigFree(extra) && NoLineEnds(signature)
    ensures var text := CommitBytes(tree, parents, StampText(author, unix, ZoneOf(west, d)),
                                    StampText(committer, unix', ZoneOf(west', d')),
                                    if extra == [] then [] else extra + [0x0a],
                                    if signature == [] then [] else [0x67, 0x70, 0x67, 0x73, 0x69, 0x67] + Spaced(signature),
                                    message);
      var c := Commit(tree, parents, author, Time(unix, ZoneOf(west, d), SecondsOf(west, d)),
                      committer, Time(unix', ZoneOf(west', d'), SecondsOf(west', d')), extra, Text(signature), message);
      Unmarshal(text) == Some(c) && Marshal(c) == Some(text)
  {
    hide Unmarshal, Print, PrintSignature, GpgsigFree, IsValid, CommitBytes, StampText, ZoneOf, SecondsOf, NamesOffset, Text;
    var c := Commit(tree, parents, author, Time(unix, ZoneOf(west, d), SecondsOf(west, d)),
                    committer, Time(unix', ZoneOf(west', d'), SecondsOf(west', d')), extra, Text(signature), message);
    SignatureByRule(signature);
    ZoneNamed(unix, west, d);
    ZoneNamed(unix', west', d');
    PrintedBytes(c);
    MarshalUnmarshalSame(c);
  }

  // ---------------------------------------------------------------- extra fields

  lemma {:induction false} FoldPlain(v: seq<byte>, rest: seq<byte>)
    requires 0x0a !in v
    ensures Fold(v + rest) == v + Fold(rest)
  {
    if v == [] {
      assert [] + rest == rest;
    } else {
      FoldPlain(v[1..], rest);
      assert (v + rest)[1..] == v[1..] + rest && v == [v[0]] + v[1..];
    }
  }

  lemma FoldTwo(a: seq<byte>, b: seq<byte>)
    requires 0x0a !in a && 0x0a !in b
    ensures Fold(a + [0x0a] + b) == a + [0x0a, 0x20] + b && Fold(b) == b
  {
    FoldPlain(b, []);
    assert b + [] == b;
    FoldPlain(a, [0x0a] + b);
    Regroup(a, [0x0a], b);
    assert ([0x0a] + b)[1..] == b;
    Regroup(a, [0x0a, 0x20], b);
  }

  /** Two fields, the first with a value of two lines, the second of which stands behind a space. */
  lemma FieldsByRule(key: seq<byte>, a: seq<byte>, b: seq<byte>, key': seq<byte>, c: seq<byte>)
    requires key != [] && 0x20 !in key && 0x0a !in key && key' != [] && 0x20 !in key' && 0x0a !in key' && key != key'
    requires 0x0a !in a && 0x0a !in b && 0x0a !in c
    ensures var fields := key + [0x20] + a + [0x0a, 0x20] + b + [0x0a] + key' + [0x20] + c;
      Lookup(fields, key) == a + [0x0a] + b && Lookup(fields, key') == c
  {
    hide Lookup, Fold;
    var pairs := [Pair(key, a + [0x0a] + b), Pair(key', c)];
    FoldTwo(a, b);
    FoldTwo([], c);
    var k := key' + ([0x20] + c);
    Regroup(key + [0x20] + a + [0x0a, 0x20] + b + [0x0a], key', [0x20] + c);
    Regroup(key + [0x20] + a + [0x0a, 0x20] + b + [0x0a] + key', [0x20], c);
    Regroup(key + [0x20] + a + [0x0a, 0x20] + b, [0x0a], k);
    Regroup(key + [0x20] + a, [0x0a, 0x20], b);
    Regroup(key + [0x20], a, [0x0a, 0x20] + b);
    Regroup(a, [0x0a, 0x20], b);
    Regroup(key, [0x20], a + [0x0a, 0x20] + b);
    assert pairs[1..] == [Pair(key', c)];
    assert FieldsText(pairs[1..]) == k;
    LookupFields(pairs, key);
    LookupFields(pairs, key');
    assert ValueOf(pairs[1..], key') == c;
  }
}
