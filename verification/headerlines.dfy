/**
 The lines of a commit header behind the committer: the extra fields, which are kept as they
 are, and the signature, whose lines stand behind spaces. Both are printed and parsed here, with
 the exact conditions under which they come back.
 */
module HeaderLines {
  import opened ByteStrings
  import opened Common

  /** "gpgsig" and "gpgsig ". */
  const GPGSIG: seq<byte> := [0x67, 0x70, 0x67, 0x73, 0x69, 0x67]
  const SIGNED: seq<byte> := [0x67, 0x70, 0x67, 0x73, 0x69, 0x67, SP]

  // ---------------------------------------------------------------- signature

  /** Every line of the signature, its end included, behind a space; nothing for an unterminated line. */
  function SpaceLines(sig: seq<byte>): Option<seq<byte>>
    decreases |sig|
  {
    if sig == [] then Some([])
    else
      match Cut(sig, NL)
      case None => None
      case Some(f) =>
        match SpaceLines(f.after)
        case None => None
        case Some(lines) => Some(([SP] + (f.before + [NL])) + lines)
  }

  /** writeGPGSignature. */
  function PrintSignature(sig: seq<byte>): Option<seq<byte>> {
    if sig == [] then Some([])
    else
      match SpaceLines(sig)
      case None => None
      case Some(lines) => Some(GPGSIG + lines)
  }

  datatype Lines = Lines(text: seq<byte>, rest: seq<byte>)

  /** The lines that start with a space, without it. */
  function ParseSpaced(data: seq<byte>): (l: Option<Lines>)
    ensures l.Some? ==> |l.value.rest| <= |data|
    decreases |data|
  {
    if data == [] || data[0] != SP then Some(Lines([], data))
    else
      match Cut(data[1..], NL)
      case None => None
      case Some(f) =>
        match ParseSpaced(f.after)
        case None => None
        case Some(l) => Some(Lines((f.before + [NL]) + l.text, l.rest))
  }

  /** consumeSignature: the first line as it is, and the spaced lines behind it. */
  function ParseSignature(src: seq<byte>): (l: Option<Lines>)
    ensures l.Some? ==> |l.value.rest| <= |src|
  {
    match Cut(src, NL)
    case None => None
    case Some(f) =>
      match ParseSpaced(f.after)
      case None => None
      case Some(l) => Some(Lines((f.before + [NL]) + l.text, l.rest))
  }

  lemma SignatureIsSpaced(src: seq<byte>)
    ensures ParseSignature(src) == ParseSpaced([SP] + src)
  {
    assert ([SP] + src)[1..] == src;
  }

  /** Only terminated text can be printed as lines. */
  lemma {:induction false} Terminated(sig: seq<byte>)
    ensures SpaceLines(sig).Some? <==> sig == [] || Last(sig) == NL
    decreases |sig|
  {
    if sig != [] && NL in sig {
      Terminated(Cut(sig, NL).value.after);
    }
  }

  lemma {:induction false} ParsePrintedSpaced(sig: seq<byte>, rest: seq<byte>)
    requires SpaceLines(sig).Some? && (rest == [] || rest[0] != SP)
    ensures ParseSpaced(SpaceLines(sig).value + rest) == Some(Lines(sig, rest))
    decreases |sig|
  {
    hide Cut;
    if sig == [] {
      assert [] + rest == rest;
    } else {
      var f := Cut(sig, NL).value;
      var lines := SpaceLines(f.after).value;
      LineRegroup(f.before, lines, rest);
      CutField(f.before, NL, lines + rest);
      ParsePrintedSpaced(f.after, rest);
      Regroup(f.before, [NL], f.after);
    }
  }

  lemma LineRegroup(line: seq<byte>, lines: seq<byte>, rest: seq<byte>)
    ensures (([SP] + (line + [NL])) + lines) + rest == [SP] + (line + ([NL] + (lines + rest)))
    ensures ((([SP] + (line + [NL])) + lines) + rest)[1..] == line + ([NL] + (lines + rest))
  {
    Regroup([SP] + (line + [NL]), lines, rest);
    Regroup([SP], line + [NL], lines + rest);
    Regroup(line, [NL], lines + rest);
    FirstPart([SP], line + ([NL] + (lines + rest)));
  }

  lemma {:induction false} PrintParsedSpaced(data: seq<byte>)
    requires ParseSpaced(data).Some?
    ensures var l := ParseSpaced(data).value;
      && SpaceLines(l.text).Some? && SpaceLines(l.text).value + l.rest == data
      && (l.rest == [] || l.rest[0] != SP)
    decreases |data|
  {
    hide Cut;
    if data == [] || data[0] != SP {
      assert [] + data == data;
    } else {
      var f := Cut(data[1..], NL).value;
      var l := ParseSpaced(f.after).value;
      PrintParsedSpaced(f.after);
      Regroup(f.before, [NL], l.text);
      CutField(f.before, NL, l.text);
      LineRegroup(f.before, SpaceLines(l.text).value, l.rest);
      assert data == [SP] + data[1..];
    }
  }

  // ---------------------------------------------------------------- extra fields

  /** What is behind the committer line: the extra lines as they are, the signature, and the rest. */
  datatype Tail = Tail(block: seq<byte>, signature: seq<byte>, rest: seq<byte>)

  function ParseTail(data: seq<byte>): Option<Tail>
    decreases |data|
  {
    if HasPrefix(data, SIGNED) then
      match ParseSignature(data[7..])
      case None => None
      case Some(l) => Some(Tail([], l.text, l.rest))
    else
      match Cut(data, NL)
      case None => None
      case Some(f) =>
        if f.before == [] then Some(Tail([], [], data))
        else
          match ParseTail(f.after)
          case None => None
          case Some(t) => Some(Tail((f.before + [NL]) + t.block, t.signature, t.rest))
  }

  /** Non-empty lines, none of which starts a signature. */
  predicate GoodBlock(block: seq<byte>)
    decreases |block|
  {
    block != [] ==>
      && Cut(block, NL).Some?
      && Cut(block, NL).value.before != []
      && !HasPrefix(block, SIGNED)
      && GoodBlock(Cut(block, NL).value.after)
  }

  lemma SignedPlain()
    ensures NL !in SIGNED && |SIGNED| == 7 && GPGSIG + [SP] == SIGNED
  {
  }

  lemma PrefixHits(s: seq<byte>, prefix: seq<byte>, k: nat)
    ensures HasPrefix(s, prefix) && k < |prefix| ==> s[k] in prefix
  {
    if HasPrefix(s, prefix) && k < |prefix| {
      assert s[k] == prefix[k];
    }
  }

  /** A prefix without a line end is a prefix of the line. */
  lemma PrefixOfLine(line: seq<byte>, rest: seq<byte>, prefix: seq<byte>)
    requires NL !in prefix && NL !in line
    ensures HasPrefix(line + ([NL] + rest), prefix) <==> HasPrefix(line, prefix)
  {
    var s := line + ([NL] + rest);
    assert s[|line|] == NL;
    PrefixHits(s, prefix, |line|);
    assert s[..|line|] == line;
  }

  /** What ends the extra lines: the signature or the blank line. */
  predicate Stops(rest: seq<byte>) {
    HasPrefix(rest, SIGNED) || (rest != [] && rest[0] == NL)
  }

  lemma StopsHere(rest: seq<byte>)
    requires Stops(rest) && ParseTail(rest).Some?
    ensures ParseTail(rest).value.block == []
  {
    hide ParseSignature;
    if !HasPrefix(rest, SIGNED) {
      CutField([], NL, rest[1..]);
      assert [] + ([NL] + rest[1..]) == rest;
    }
  }

  /** One more line in front. */
  lemma BlockStep(line: seq<byte>, more: seq<byte>)
    requires NL !in line && line != [] && !HasPrefix(line, SIGNED)
    ensures ParseTail(line + ([NL] + more)) ==
      match ParseTail(more)
      case None => None
      case Some(t) => Some(Tail((line + [NL]) + t.block, t.signature, t.rest))
  {
    hide ParseSignature, Cut, HasPrefix;
    SignedPlain();
    PrefixOfLine(line, more, SIGNED);
    CutField(line, NL, more);
  }

  lemma {:induction false} ParsePrintedBlock(block: seq<byte>, rest: seq<byte>)
    requires GoodBlock(block) && Stops(rest) && ParseTail(rest).Some?
    ensures ParseTail(block + rest) == Some(Tail(block, ParseTail(rest).value.signature, ParseTail(rest).value.rest))
    decreases |block|
  {
    hide ParseTail, Cut, HasPrefix, Stops;
    StopsHere(rest);
    if block == [] {
      assert [] + rest == rest;
    } else {
      var f := Cut(block, NL).value;
      ParsePrintedBlock(f.after, rest);
      SignedPlain();
      PrefixOfLine(f.before, f.after, SIGNED);
      BlockStep(f.before, f.after + rest);
      Regroup(f.before, [NL] + f.after, rest);
      Regroup([NL], f.after, rest);
      Regroup(f.before, [NL], f.after);
    }
  }

  lemma BlankLine(message: seq<byte>)
    ensures var rest := [NL] + message; Stops(rest) && ParseTail(rest) == Some(Tail([], [], rest))
  {
    hide ParseSignature;
    var rest := [NL] + message;
    assert rest == [] + ([NL] + message);
    CutField([], NL, message);
    SignedPlain();
    PrefixOfLine([], message, SIGNED);
  }

  lemma FirstSpace(sig: seq<byte>)
    requires sig != [] && SpaceLines(sig).Some?
    ensures var lines := SpaceLines(sig).value; lines != [] && lines == [SP] + lines[1..]
  {
    var f := Cut(sig, NL).value;
    var more := SpaceLines(f.after).value;
    assert (([SP] + (f.before + [NL])) + more)[0] == SP;
  }

  lemma SignedTail(sig: seq<byte>, lines: seq<byte>, rest: seq<byte>)
    requires sig != [] && SpaceLines(sig) == Some(lines) && rest != [] && rest[0] != SP
    ensures var data := (GPGSIG + lines) + rest;
      HasPrefix(data, SIGNED) && ParseSignature(data[7..]) == Some(Lines(sig, rest))
  {
    hide SpaceLines, ParseSpaced, ParseSignature, Cut;
    FirstSpace(sig);
    SignedPlain();
    var tail := lines[1..] + rest;
    Regroup(GPGSIG, lines, rest);
    Regroup([SP], lines[1..], rest);
    Regroup(GPGSIG, [SP], tail);
    PrefixOf(SIGNED, tail);
    SignatureIsSpaced(tail);
    ParsePrintedSpaced(sig, rest);
  }

  /** The signature and the message's blank line behind it. */
  lemma ParsePrintedSignature(sig: seq<byte>, message: seq<byte>)
    requires PrintSignature(sig).Some?
    ensures var rest := PrintSignature(sig).value + ([NL] + message);
      Stops(rest) && ParseTail(rest) == Some(Tail([], sig, [NL] + message))
  {
    hide SpaceLines, ParseSignature, HasPrefix;
    if sig == [] {
      assert [] + ([NL] + message) == [NL] + message;
      BlankLine(message);
    } else {
      SignedTail(sig, SpaceLines(sig).value, [NL] + message);
    }
  }

  /** What was read prints as what it was read from. */
  lemma {:induction false} PrintParsedTail(data: seq<byte>)
    requires ParseTail(data).Some?
    ensures var t := ParseTail(data).value;
      && GoodBlock(t.block) && PrintSignature(t.signature).Some?
      && data == t.block + (PrintSignature(t.signature).value + t.rest)
    decreases |data|
  {
    hide ParseSignature, PrintSignature, SpaceLines, Cut;
    var t := ParseTail(data).value;
    if HasPrefix(data, SIGNED) {
      SignatureBack(data);
      assert [] + data == data;
    } else {
      var f := Cut(data, NL).value;
      if f.before == [] {
        NoSignature(data);
      } else {
        PrintParsedTail(f.after);
        var u := ParseTail(f.after).value;
        BlockBack(data, f, u.block, PrintSignature(u.signature).value + u.rest);
      }
    }
  }

  lemma NoSignature(data: seq<byte>)
    ensures PrintSignature([]) == Some([]) && data == [] + ([] + data)
  {
  }

  lemma BlockBack(data: seq<byte>, f: Field, block: seq<byte>, rest: seq<byte>)
    requires Cut(data, NL) == Some(f) && f.before != [] && !HasPrefix(data, SIGNED)
    requires GoodBlock(block) && f.after == block + rest
    ensures GoodBlock((f.before + [NL]) + block) && data == ((f.before + [NL]) + block) + rest
  {
    hide Cut, HasPrefix;
    Regroup(f.before, [NL], block);
    Regroup(f.before + [NL], block, rest);
    Regroup(f.before, [NL], block + rest);
    CutField(f.before, NL, block);
    SignedPlain();
    PrefixOfLine(f.before, f.after, SIGNED);
    PrefixOfLine(f.before, block, SIGNED);
  }

  lemma SignatureBack(data: seq<byte>)
    requires HasPrefix(data, SIGNED) && ParseSignature(data[7..]).Some?
    ensures var l := ParseSignature(data[7..]).value;
      PrintSignature(l.text).Some? && data == PrintSignature(l.text).value + l.rest
  {
    SignedPlain();
    var src := data[7..];
    var l := ParseSignature(src).value;
    assert l.text != [];
    SignatureIsSpaced(src);
    hide ParseSignature, ParseSpaced, SpaceLines;
    PrintParsedSpaced([SP] + src);
    assert data == SIGNED + src;
    Regroup(GPGSIG, [SP], src);
    Regroup(GPGSIG, SpaceLines(l.text).value, l.rest);
  }

  // ---------------------------------------------------------------- validity

  predicate NoBlank(extra: seq<byte>) {
    && (extra != [] ==> extra[0] != NL && Last(extra) != NL)
    && forall i :: 0 <= i < |extra| - 1 ==> !(extra[i] == NL && extra[i + 1] == NL)
  }

  /** CommitFields.IsValid. */
  predicate IsValid(extra: seq<byte>) {
    NoBlank(extra) && 0 !in extra
  }

  /** No line starts with "gpgsig ". */
  predicate GpgsigFree(extra: seq<byte>) {
    forall p :: 0 <= p < |extra| && (p == 0 || extra[p - 1] == NL) ==> !HasPrefix(extra[p..], SIGNED)
  }

  function Block(extra: seq<byte>): seq<byte> {
    if extra == [] then [] else extra + [NL]
  }

  lemma OneLine(extra: seq<byte>)
    requires extra != [] && NL !in extra
    ensures GoodBlock(extra + [NL]) <==> NoBlank(extra) && GpgsigFree(extra)
  {
    hide Cut, HasPrefix;
    assert extra + ([NL] + []) == extra + [NL];
    CutField(extra, NL, []);
    SignedPlain();
    PrefixOfLine(extra, [], SIGNED);
    assert extra[0..] == extra;
    assert NoBlank(extra) by {
      assert forall i :: 0 <= i < |extra| ==> extra[i] != NL;
    }
    if !HasPrefix(extra, SIGNED) {
      forall p | 0 <= p < |extra| && (p == 0 || extra[p - 1] == NL)
        ensures !HasPrefix(extra[p..], SIGNED)
      {
        assert p == 0;
      }
    }
  }

  lemma NoBlankStep(line: seq<byte>, more: seq<byte>)
    requires NL !in line && more != []
    ensures NoBlank(line + ([NL] + more)) <==> line != [] && NoBlank(more)
  {
    var s := line + ([NL] + more);
    assert s[|line|] == NL && Last(s) == Last(more) && s[|line| + 1] == more[0];
    if line != [] {
      assert s[0] == line[0];
      if NoBlank(more) {
        forall i | 0 <= i < |s| - 1
          ensures !(s[i] == NL && s[i + 1] == NL)
        {
          if i > |line| {
            assert s[i] == more[i - |line| - 1] && s[i + 1] == more[i - |line|];
          }
        }
      }
      if NoBlank(s) {
        assert !(s[|line|] == NL && s[|line| + 1] == NL);
        forall i | 0 <= i < |more| - 1
          ensures !(more[i] == NL && more[i + 1] == NL)
        {
          assert s[|line| + 1 + i] == more[i] && s[|line| + 1 + i + 1] == more[i + 1];
        }
      }
    }
  }

  lemma FreeStep(line: seq<byte>, more: seq<byte>)
    requires NL !in line && more != []
    ensures GpgsigFree(line + ([NL] + more)) <==> !HasPrefix(line, SIGNED) && GpgsigFree(more)
  {
    hide HasPrefix;
    var s := line + ([NL] + more);
    SignedPlain();
    PrefixOfLine(line, more, SIGNED);
    assert s[0..] == s;
    var n := |line| + 1;
    forall p | 0 <= p < |more|
      ensures s[p + n..] == more[p..] && (p > 0 ==> s[p + n - 1] == more[p - 1]) && s[n - 1] == NL
    {
    }
    if GpgsigFree(s) {
      forall p | 0 <= p < |more| && (p == 0 || more[p - 1] == NL)
        ensures !HasPrefix(more[p..], SIGNED)
      {
        assert !HasPrefix(s[p + n..], SIGNED);
      }
    }
    if !HasPrefix(line, SIGNED) && GpgsigFree(more) {
      forall p | 0 <= p < |s| && (p == 0 || s[p - 1] == NL)
        ensures !HasPrefix(s[p..], SIGNED)
      {
        if p > 0 {
          assert p >= n;
          assert s[p..] == more[p - n..];
        }
      }
    }
  }

  /** The printed extra lines are good exactly when there is no blank one and none that starts a signature. */
  lemma {:induction false} GoodIff(extra: seq<byte>)
    requires extra != []
    ensures GoodBlock(extra + [NL]) <==> NoBlank(extra) && GpgsigFree(extra)
    decreases |extra|
  {
    hide Cut, HasPrefix, NoBlank, GpgsigFree;
    if NL !in extra {
      OneLine(extra);
    } else {
      var g := Cut(extra, NL).value;
      Regroup(g.before, [NL] + g.after, [NL]);
      Regroup([NL], g.after, [NL]);
      CutField(g.before, NL, g.after + [NL]);
      SignedPlain();
      PrefixOfLine(g.before, g.after + [NL], SIGNED);
      if g.after == [] {
        EndsBlank(extra, g.before);
      } else {
        GoodIff(g.after);
        NoBlankStep(g.before, g.after);
        FreeStep(g.before, g.after);
      }
    }
  }

  lemma EndsBlank(extra: seq<byte>, line: seq<byte>)
    requires extra == line + ([NL] + [])
    ensures !NoBlank(extra) && !GoodBlock([] + [NL])
  {
    assert Last(extra) == NL;
    assert [] + [NL] == [] + ([NL] + []);
    CutField([], NL, []);
  }

  lemma GoodExtra(extra: seq<byte>)
    requires NoBlank(extra)
    ensures GoodBlock(Block(extra)) <==> GpgsigFree(extra)
  {
    if extra != [] {
      GoodIff(extra);
    }
  }

  /** The lines read, without the last line end, are valid fields but for NUL. */
  lemma {:induction false} GoodEnds(block: seq<byte>)
    requires GoodBlock(block) && block != []
    ensures Last(block) == NL && |block| > 1
    decreases |block|
  {
    hide Cut, HasPrefix;
    var f := Cut(block, NL).value;
    if f.after != [] {
      GoodEnds(f.after);
    }
  }

  lemma NothingBlank()
    ensures NoBlank([]) && GpgsigFree([])
  {
  }

  lemma ExtraOfBlock(block: seq<byte>)
    requires GoodBlock(block)
    ensures var extra := if block == [] then [] else Front(block);
      Block(extra) == block && NoBlank(extra) && GpgsigFree(extra)
  {
    hide GoodBlock, NoBlank, GpgsigFree;
    if block == [] {
      NothingBlank();
    } else {
      GoodEnds(block);
      assert block == Front(block) + [NL];
      GoodIff(Front(block));
    }
  }
}
