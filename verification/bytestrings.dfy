/** Cutting byte strings at a separator, and regrouping them. */
module ByteStrings {
  import opened Common

  const NL: byte := 0x0a
  const SP: byte := 0x20

  datatype Field = Field(before: seq<byte>, after: seq<byte>)

  /** What is before the first `c` and what is behind it: bytes.IndexByte and two slices. */
  function Cut(s: seq<byte>, c: byte): (f: Option<Field>)
    ensures f.None? <==> c !in s
    ensures f.Some? ==> c !in f.value.before && s == f.value.before + ([c] + f.value.after)
  {
    if s == [] then None
    else if s[0] == c then Some(Field([], s[1..]))
    else
      match Cut(s[1..], c)
      case None => None
      case Some(f) => Some(Field([s[0]] + f.before, f.after))
  }

  /** A field without the separator is cut off whole. */
  lemma {:induction false} CutField(field: seq<byte>, c: byte, rest: seq<byte>)
    requires c !in field
    ensures Cut(field + ([c] + rest), c) == Some(Field(field, rest))
  {
    var s := field + ([c] + rest);
    if field == [] {
      assert s == [c] + rest;
    } else {
      assert s[1..] == field[1..] + ([c] + rest) && field == [field[0]] + field[1..];
      CutField(field[1..], c, rest);
    }
  }

  /** The same at the last `c`: bytes.LastIndexByte and two slices. */
  function LastCut(s: seq<byte>, c: byte): (f: Option<Field>)
    ensures f.None? <==> c !in s
    ensures f.Some? ==> c !in f.value.after && s == f.value.before + ([c] + f.value.after)
  {
    if s == [] then None
    else if Last(s) == c then
      assert s == Front(s) + ([c] + []);
      Some(Field(Front(s), []))
    else
      match LastCut(Front(s), c)
      case None => None
      case Some(f) =>
        assert s == f.before + ([c] + (f.after + [Last(s)]));
        Some(Field(f.before, f.after + [Last(s)]))
  }

  lemma {:induction false} LastCutField(front: seq<byte>, c: byte, field: seq<byte>)
    requires c !in field
    ensures LastCut(front + ([c] + field), c) == Some(Field(front, field))
  {
    var s := front + ([c] + field);
    if field == [] {
      assert Front(s) == front && Last(s) == c;
    } else {
      assert Front(s) == front + ([c] + Front(field)) && Last(s) == Last(field);
      LastCutField(front, c, Front(field));
      assert Front(field) + [Last(field)] == field;
    }
  }

  predicate HasPrefix(s: seq<byte>, prefix: seq<byte>) {
    prefix <= s
  }

  lemma PrefixOf(prefix: seq<byte>, rest: seq<byte>)
    ensures HasPrefix(prefix + rest, prefix) && (prefix + rest)[|prefix|..] == rest
  {
  }

  lemma Regroup(a: seq<byte>, b: seq<byte>, c: seq<byte>)
    ensures (a + b) + c == a + (b + c)
  {
  }

  lemma FirstPart(a: seq<byte>, b: seq<byte>)
    ensures (a + b)[..|a|] == a && (a + b)[|a|..] == b
  {
  }
}
