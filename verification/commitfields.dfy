/**
 The extra fields of a commit: lines "key value", each continued on the lines behind it that
 start with a space. Fields are cut off one at a time, split into key and value, and looked up
 by key, with continuation lines joined again.
 */
module CommitFields {
  import opened ByteStrings
  import opened Common
  import opened HeaderLines

  predicate Continues(s: seq<byte>) {
    s != [] && s[0] == SP
  }

  /** CommitFields.Cut: the first field, and the fields behind it. */
  function CutFirst(fields: seq<byte>): (f: Field)
    ensures |f.after| <= |fields| && (fields != [] ==> |f.after| < |fields|)
    decreases |fields|
  {
    match Cut(fields, NL)
    case None => Field(fields, [])
    case Some(f) =>
      if !Continues(f.after) then f
      else
        var g := CutFirst(f.after);
        Field(f.before + ([NL] + g.before), g.after)
  }

  /** One field: each line end in it is followed by a space. */
  predicate Single(field: seq<byte>) {
    forall i :: 0 <= i < |field| && field[i] == NL ==> i + 1 < |field| && field[i + 1] == SP
  }

  lemma {:induction false} CutFirstField(field: seq<byte>, rest: seq<byte>)
    requires Single(field) && !Continues(rest)
    ensures CutFirst(field + ([NL] + rest)) == Field(field, rest)
    decreases |field|
  {
    hide Cut;
    if NL !in field {
      CutField(field, NL, rest);
    } else {
      var f := Cut(field, NL).value;
      Regroup(f.before, [NL] + f.after, [NL] + rest);
      Regroup([NL], f.after, [NL] + rest);
      CutField(f.before, NL, f.after + ([NL] + rest));
      SingleTail(f.before, f.after);
      assert (f.after + ([NL] + rest))[0] == f.after[0];
      CutFirstField(f.after, rest);
    }
  }

  lemma SingleTail(line: seq<byte>, more: seq<byte>)
    requires Single(line + ([NL] + more))
    ensures Single(more) && Continues(more)
  {
    var s := line + ([NL] + more);
    var n := |line|;
    assert s[n] == NL && (n + 1 < |s| ==> s[n + 1] == more[0]);
    forall i | 0 <= i < |more| && more[i] == NL
      ensures i + 1 < |more| && more[i + 1] == SP
    {
      var k := n + 1 + i;
      assert s[k] == more[i] && (k + 1 < |s| ==> s[k + 1] == more[i + 1]);
    }
  }

  lemma {:induction false} CutLastField(field: seq<byte>)
    requires Single(field)
    ensures CutFirst(field) == Field(field, [])
    decreases |field|
  {
    hide Cut;
    if NL in field {
      var f := Cut(field, NL).value;
      SingleTail(f.before, f.after);
      CutLastField(f.after);
    }
  }

  /** The loop of CommitFields.Cut: line ends are passed over while the next line continues the field. */
  method CutLoop(fields: seq<byte>) returns (f: Field)
    ensures f == CutFirst(fields)
  {
    hide Cut;
    var head: seq<byte>, rest := [], fields;
    assert head + CutFirst(fields).before == CutFirst(fields).before;
    while true
      invariant CutFirst(fields) == Field(head + CutFirst(rest).before, CutFirst(rest).after)
      decreases |rest|
    {
      var c := Cut(rest, NL);
      if c.None? {
        return Field(head + rest, []);
      }
      if !Continues(c.value.after) {
        return Field(head + c.value.before, c.value.after);
      }
      assert |rest| > |c.value.after|;
      var line := c.value.before;
      CutRegroup(head, line, CutFirst(c.value.after).before);
      head := head + line + [NL];
      rest := c.value.after;
    }
  }

  lemma CutRegroup(head: seq<byte>, line: seq<byte>, more: seq<byte>)
    ensures head + (line + ([NL] + more)) == head + line + [NL] + more
  {
    Regroup(head + line, [NL], more);
    Regroup(head, line, [NL] + more);
  }

  // ---------------------------------------------------------------- keys and values

  datatype Pair = Pair(key: seq<byte>, value: seq<byte>)

  /** cutKV. */
  function CutKV(field: seq<byte>): Pair {
    var firstLine := match Cut(field, NL) case None => field case Some(f) => f.before;
    match Cut(firstLine, SP)
    case None => Pair(firstLine, field[|firstLine|..])
    case Some(f) => Pair(f.before, field[|f.before| + 1..])
  }

  /** normalizeContinuations: strings.ReplaceAll(s, "\n ", "\n"). */
  function Normalize(s: seq<byte>): seq<byte> {
    if s == [] then []
    else if |s| >= 2 && s[0] == NL && s[1] == SP then [NL] + Normalize(s[2..])
    else [s[0]] + Normalize(s[1..])
  }

  /** A value of several lines as it is put into a field. */
  function Fold(v: seq<byte>): seq<byte> {
    if v == [] then [] else (if v[0] == NL then [NL, SP] else [v[0]]) + Fold(v[1..])
  }

  lemma {:induction false} NormalizeFold(v: seq<byte>)
    ensures Normalize(Fold(v)) == v
  {
    if v != [] {
      var s := Fold(v);
      NormalizeFold(v[1..]);
      assert v == [v[0]] + v[1..];
      if v[0] == NL {
        assert s[2..] == Fold(v[1..]);
      } else {
        assert s[1..] == Fold(v[1..]);
      }
    }
  }

  lemma {:induction false} FoldSingle(v: seq<byte>)
    ensures Single(Fold(v))
  {
    if v != [] {
      FoldSingle(v[1..]);
      var a := if v[0] == NL then [NL, SP] else [v[0]];
      var b := Fold(v[1..]);
      var s := a + b;
      forall i | 0 <= i < |s| && s[i] == NL
        ensures i + 1 < |s| && s[i + 1] == SP
      {
        if i >= |a| {
          assert b[i - |a|] == NL;
          assert s[i + 1] == b[i - |a| + 1];
        }
      }
    }
  }

  function FieldText(p: Pair): seq<byte> {
    p.key + ([SP] + Fold(p.value))
  }

  predicate GoodKey(key: seq<byte>) {
    key != [] && SP !in key && NL !in key
  }

  lemma FieldTextSingle(p: Pair)
    requires GoodKey(p.key)
    ensures Single(FieldText(p)) && FieldText(p) != [] && !Continues(FieldText(p))
  {
    FoldSingle(p.value);
    hide Fold;
    var s, v := FieldText(p), Fold(p.value);
    assert s[0] == p.key[0];
    forall i | 0 <= i < |s| && s[i] == NL
      ensures i + 1 < |s| && s[i + 1] == SP
    {
      var k := i - |p.key| - 1;
      assert k >= 0;
      assert v[k] == NL;
      assert s[i + 1] == v[k + 1];
    }
  }

  lemma FieldTextKV(p: Pair)
    requires GoodKey(p.key)
    ensures CutKV(FieldText(p)) == Pair(p.key, Fold(p.value))
  {
    hide Fold, Cut;
    var s, v := FieldText(p), Fold(p.value);
    assert s[|p.key| + 1..] == v;
    if NL in v {
      var f := Cut(v, NL).value;
      Regroup(p.key, [SP] + f.before, [NL] + f.after);
      Regroup([SP], f.before, [NL] + f.after);
      assert NL !in p.key + ([SP] + f.before);
      CutField(p.key + ([SP] + f.before), NL, f.after);
      CutField(p.key, SP, f.before);
    } else {
      assert NL !in s;
      CutField(p.key, SP, v);
    }
  }

  // ---------------------------------------------------------------- lookup

  /** CommitFields.Get as a function. */
  function Lookup(fields: seq<byte>, key: seq<byte>): seq<byte>
    decreases |fields|
  {
    if fields == [] then []
    else
      var f := CutFirst(fields);
      var kv := CutKV(f.before);
      if kv.key == key then Normalize(kv.value) else Lookup(f.after, key)
  }

  /** CommitFields.Get. */
  method Get(fields: seq<byte>, key: seq<byte>) returns (value: seq<byte>)
    ensures value == Lookup(fields, key)
  {
    hide CutFirst, CutKV, Normalize;
    var rest := fields;
    while rest != []
      invariant Lookup(fields, key) == Lookup(rest, key)
      decreases |rest|
    {
      var f := CutLoop(rest);
      var kv := CutKV(f.before);
      if kv.key == key {
        return Normalize(kv.value);
      }
      rest := f.after;
    }
    value := [];
  }

  /** Fields one below the other. */
  function FieldsText(pairs: seq<Pair>): seq<byte> {
    if pairs == [] then []
    else if |pairs| == 1 then FieldText(pairs[0])
    else FieldText(pairs[0]) + ([NL] + FieldsText(pairs[1..]))
  }

  function ValueOf(pairs: seq<Pair>, key: seq<byte>): seq<byte> {
    if pairs == [] then [] else if pairs[0].key == key then pairs[0].value else ValueOf(pairs[1..], key)
  }

  predicate GoodKeys(pairs: seq<Pair>) {
    forall i :: 0 <= i < |pairs| ==> GoodKey(pairs[i].key)
  }

  lemma FirstOfFields(pairs: seq<Pair>)
    requires pairs != [] && GoodKeys(pairs)
    ensures FieldsText(pairs) != [] && FieldsText(pairs)[0] == FieldText(pairs[0])[0]
    ensures !Continues(FieldsText(pairs))
  {
    FieldTextSingle(pairs[0]);
  }

  /** Looking a key up among fields put together from pairs gives the value of the first such pair, line for line. */
  lemma {:induction false} LookupFields(pairs: seq<Pair>, key: seq<byte>)
    requires GoodKeys(pairs)
    ensures Lookup(FieldsText(pairs), key) == ValueOf(pairs, key)
  {
    hide CutFirst, CutKV, FieldText, Fold, Single;
    if pairs != [] {
      var p := pairs[0];
      FirstOfFields(pairs);
      FieldTextSingle(p);
      FieldTextKV(p);
      NormalizeFold(p.value);
      LookupFields(pairs[1..], key);
      if |pairs| == 1 {
        CutLastField(FieldText(p));
      } else {
        FirstOfFields(pairs[1..]);
        CutFirstField(FieldText(p), FieldsText(pairs[1..]));
      }
    }
  }

  lemma JoinedNoBlank(a: seq<byte>, b: seq<byte>)
    requires NoBlank(a) && NoBlank(b) && a != [] && b != []
    ensures NoBlank(a + ([NL] + b))
  {
    var s := a + ([NL] + b);
    assert s[0] == a[0] && Last(s) == Last(b) && s[|a|] == NL && s[|a| + 1] == b[0] && s[|a| - 1] == Last(a);
    forall i | 0 <= i < |s| - 1
      ensures !(s[i] == NL && s[i + 1] == NL)
    {
      if i > |a| {
        assert s[i] == b[i - |a| - 1] && s[i + 1] == b[i - |a|];
      } else if i < |a| - 1 {
        assert s[i] == a[i] && s[i + 1] == a[i + 1];
      }
    }
  }

  lemma SingleNoBlank(field: seq<byte>)
    requires Single(field) && field != [] && field[0] != NL
    ensures NoBlank(field)
  {
    assert Last(field) == field[|field| - 1];
  }

  /** Fields put together like that are valid extra lines, but for NUL. */
  lemma {:induction false} FieldsNoBlank(pairs: seq<Pair>)
    requires GoodKeys(pairs)
    ensures NoBlank(FieldsText(pairs))
  {
    if pairs != [] {
      FieldTextSingle(pairs[0]);
      assert FieldText(pairs[0])[0] == pairs[0].key[0];
      hide FieldText, Single, NoBlank;
      SingleNoBlank(FieldText(pairs[0]));
      if |pairs| > 1 {
        FieldsNoBlank(pairs[1..]);
        FirstOfFields(pairs[1..]);
        JoinedNoBlank(FieldText(pairs[0]), FieldsText(pairs[1..]));
      }
    } else {
      assert NoBlank([]);
    }
  }
}
