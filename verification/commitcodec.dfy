/**
 The loops of the commit codec, against the functions of Commits: parents, extra lines and
 signature lines are consumed one by one, and a commit is printed piece by piece into a buffer
 that is given up when a piece cannot be printed.
 */
module CommitCodec {
  import opened ByteStrings
  import opened Commits
  import opened Common
  import opened HeaderLines
  import opened HexLines
  import opened UserLines

  function WithLines(sig: seq<byte>, l: Option<Lines>): Option<Lines> {
    match l
    case None => None
    case Some(x) => Some(Lines(sig + x.text, x.rest))
  }

  lemma SpacedStep(sig: seq<byte>, data: seq<byte>)
    requires data != [] && data[0] == SP
    ensures WithLines(sig, ParseSpaced(data)) ==
      match Cut(data, NL)
      case None => None
      case Some(f) => WithLines(sig + (f.before[1..] + [NL]), ParseSpaced(f.after))
  {
    assert data == [SP] + data[1..];
    if NL in data[1..] {
      var g := Cut(data[1..], NL).value;
      assert Cut(data, NL) == Some(Field([SP] + g.before, g.after));
      assert ([SP] + g.before)[1..] == g.before;
      var l := ParseSpaced(g.after);
      if l.Some? {
        Regroup(sig, g.before + [NL], l.value.text);
      }
    }
  }

  /** consumeSignature. */
  method ConsumeSignature(src: seq<byte>) returns (l: Option<Lines>)
    ensures l == ParseSignature(src)
  {
    hide ParseSpaced;
    var f := Cut(src, NL);
    if f.None? {
      return None;
    }
    var sig, tail := f.value.before + [NL], f.value.after;
    while |tail| > 0 && tail[0] == SP
      invariant ParseSignature(src) == WithLines(sig, ParseSpaced(tail))
    {
      SpacedStep(sig, tail);
      var g := Cut(tail, NL);
      if g.None? {
        return None;
      }
      assert |tail| > |g.value.after|;
      sig := sig + (g.value.before[1..] + [NL]);
      tail := g.value.after;
    }
    NoneSpaced(tail);
    assert sig + [] == sig;
    l := Some(Lines(sig, tail));
  }

  lemma NoneSpaced(data: seq<byte>)
    requires data == [] || data[0] != SP
    ensures ParseSpaced(data) == Some(Lines([], data))
  {
  }

  function Behind(out: seq<byte>, more: Option<seq<byte>>): Option<seq<byte>> {
    match more
    case None => None
    case Some(x) => Some(out + x)
  }

  /** writeGPGSignature, into an empty buffer. */
  method WriteGPGSignature(sig: seq<byte>) returns (out: Option<seq<byte>>)
    ensures out == PrintSignature(sig)
  {
    hide Cut;
    if |sig| == 0 {
      return Some([]);
    }
    var w, rest := GPGSIG, sig;
    while |rest| > 0
      invariant PrintSignature(sig) == Behind(w, SpaceLines(rest))
    {
      var f := Cut(rest, NL);
      if f.None? {
        return None;
      }
      assert |rest| > |f.value.after|;
      if SpaceLines(f.value.after).Some? {
        Regroup(w, [SP] + (f.value.before + [NL]), SpaceLines(f.value.after).value);
      }
      w := w + ([SP] + (f.value.before + [NL]));
      rest := f.value.after;
    }
    assert w + [] == w;
    out := Some(w);
  }

  function WithBlock(block: seq<byte>, t: Option<Tail>): Option<Tail> {
    match t
    case None => None
    case Some(x) => Some(Tail(block + x.block, x.signature, x.rest))
  }

  lemma TailStep(block: seq<byte>, data: seq<byte>)
    requires !HasPrefix(data, SIGNED) && Cut(data, NL).Some? && Cut(data, NL).value.before != []
    ensures WithBlock(block, ParseTail(data)) ==
      WithBlock(block + (Cut(data, NL).value.before + [NL]), ParseTail(Cut(data, NL).value.after))
  {
    hide ParseSignature, Cut;
    var f := Cut(data, NL).value;
    var t := ParseTail(f.after);
    if t.Some? {
      Regroup(block, f.before + [NL], t.value.block);
    }
  }

  /** The loop over the lines behind the committer, up to the signature or the blank line. */
  method ConsumeTail(data: seq<byte>) returns (t: Option<Tail>)
    ensures t == ParseTail(data)
  {
    hide ParseTail, Cut;
    var extra: seq<byte>, rest := [], data;
    NothingInFront(ParseTail(data));
    while true
      invariant ParseTail(data) == WithBlock(extra, ParseTail(rest))
      decreases |rest|
    {
      TailEnds(rest);
      if HasPrefix(rest, SIGNED) {
        var l := ConsumeSignature(rest[7..]);
        assert extra + [] == extra;
        return if l.None? then None else Some(Tail(extra, l.value.text, l.value.rest));
      }
      var f := Cut(rest, NL);
      if f.None? {
        return None;
      }
      if f.value.before == [] {
        assert extra + [] == extra;
        return Some(Tail(extra, [], rest));
      }
      TailStep(extra, rest);
      assert |rest| > |f.value.after|;
      extra := extra + (f.value.before + [NL]);
      rest := f.value.after;
    }
  }

  lemma NothingInFront(t: Option<Tail>)
    ensures WithBlock([], t) == t
  {
    if t.Some? {
      assert [] + t.value.block == t.value.block;
    }
  }

  lemma TailEnds(data: seq<byte>)
    ensures HasPrefix(data, SIGNED) ==>
      ParseTail(data) ==
        match ParseSignature(data[7..])
        case None => None
        case Some(l) => Some(Tail([], l.text, l.rest))
    ensures !HasPrefix(data, SIGNED) && Cut(data, NL).None? ==> ParseTail(data).None?
    ensures !HasPrefix(data, SIGNED) && Cut(data, NL).Some? && Cut(data, NL).value.before == [] ==>
      ParseTail(data) == Some(Tail([], [], data))
  {
    hide ParseSignature, Cut;
  }

  function WithParents(ids: seq<Id>, p: Option<Parents>): Option<Parents> {
    match p
    case None => None
    case Some(x) => Some(Parents(ids + x.ids, x.rest))
  }

  lemma ParentStep(ids: seq<Id>, data: seq<byte>)
    ensures WithParents(ids, ParseParents(data)) ==
      if !HasPrefix(data, PARENT) then Some(Parents(ids, data))
      else
        match ParseHex(data[7..])
        case None => None
        case Some(l) => WithParents(ids + [l.id], ParseParents(l.rest))
  {
    hide ParseHex;
    assert ids + [] == ids;
    if HasPrefix(data, PARENT) && ParseHex(data[7..]).Some? {
      var l := ParseHex(data[7..]).value;
      var p := ParseParents(l.rest);
      if p.Some? {
        assert ids + ([l.id] + p.value.ids) == ids + [l.id] + p.value.ids;
      }
    }
  }

  method ConsumeParents(data: seq<byte>) returns (p: Option<Parents>)
    ensures p == ParseParents(data)
  {
    hide ParseParents, ParseHex, HasPrefix;
    var ids: seq<Id>, rest := [], data;
    NoParents(ParseParents(data));
    while true
      invariant ParseParents(data) == WithParents(ids, ParseParents(rest))
      decreases |rest|
    {
      ParentStep(ids, rest);
      if !HasPrefix(rest, PARENT) {
        return Some(Parents(ids, rest));
      }
      ParentLong(rest);
      var l := ParseHex(rest[7..]);
      if l.None? {
        return None;
      }
      ids := ids + [l.value.id];
      rest := l.value.rest;
    }
  }

  lemma NoParents(p: Option<Parents>)
    ensures WithParents([], p) == p
  {
    if p.Some? {
      assert [] + p.value.ids == p.value.ids;
    }
  }

  lemma ParentLong(data: seq<byte>)
    ensures HasPrefix(data, PARENT) ==> |data| >= 7
  {
  }

  /** Commit.UnmarshalBinary. */
  method UnmarshalBinary(data: seq<byte>) returns (c: Option<Commit>)
    ensures c == Unmarshal(data)
  {
    hide ParseParents, ParseTail, ParseUser, ParseHex;
    if !HasPrefix(data, TREE) {
      return None;
    }
    var l := ParseHex(data[5..]);
    if l.None? {
      return None;
    }
    var commit := Blank(l.value.id);
    var p := ConsumeParents(l.value.rest);
    if p.None? {
      return None;
    }
    commit := commit.(parents := p.value.ids);
    if !HasPrefix(p.value.rest, AUTHOR) {
      return None;
    }
    var a := ParseUser(p.value.rest[7..]);
    if a.None? {
      return None;
    }
    commit := commit.(author := a.value.user, authorTime := a.value.time);
    if !HasPrefix(a.value.tail, COMMITTER) {
      return None;
    }
    var m := ParseUser(a.value.tail[10..]);
    if m.None? {
      return None;
    }
    commit := commit.(committer := m.value.user, commitTime := m.value.time);
    var t := ConsumeTail(m.value.tail);
    if t.None? || !HasPrefix(t.value.rest, [NL]) {
      return None;
    }
    c := Some(commit.(extra := TrimLine(t.value.block), signature := t.value.signature,
                      message := t.value.rest[1..]));
  }

  lemma {:induction false} PrintParentsAppend(ids: seq<Id>, id: Id)
    ensures PrintParents(ids + [id]) == PrintParents(ids) + PrintLine(PARENT, id)
  {
    hide PrintLine;
    if ids == [] {
      assert [] + [id] == [id] && PrintLine(PARENT, id) + [] == PrintLine(PARENT, id);
    } else {
      assert (ids + [id])[1..] == ids[1..] + [id];
      PrintParentsAppend(ids[1..], id);
      Regroup(PrintLine(PARENT, ids[0]), PrintParents(ids[1..]), PrintLine(PARENT, id));
    }
  }

  /** Commit.MarshalBinary: everything is appended to one buffer, and nothing is returned after a refusal. */
  method MarshalBinary(c: Commit) returns (out: Option<seq<byte>>)
    ensures out == Marshal(c)
  {
    hide PrintLine, PrintSignature, UserText, IsValid;
    var buf := PrintLine(TREE, c.tree);
    ghost var start := buf;
    for i := 0 to |c.parents|
      invariant buf == start + PrintParents(c.parents[..i])
    {
      assert c.parents[..i + 1] == c.parents[..i] + [c.parents[i]];
      PrintParentsAppend(c.parents[..i], c.parents[i]);
      buf := buf + PrintLine(PARENT, c.parents[i]);
    }
    assert c.parents[..|c.parents|] == c.parents;
    var author := WriteUser(AUTHOR, c.author, c.authorTime);
    if author.None? {
      return None;
    }
    buf := buf + author.value;
    var committer := WriteUser(COMMITTER, c.committer, c.commitTime);
    if committer.None? {
      return None;
    }
    buf := buf + committer.value;
    if !IsValid(c.extra) {
      return None;
    }
    if |c.extra| > 0 {
      buf := buf + (c.extra + [NL]);
    }
    var sig := WriteGPGSignature(c.signature);
    if sig.None? {
      return None;
    }
    out := Some(buf + sig.value + [NL] + c.message);
    Assemble(c, sig.value);
    assert buf == start + PrintParents(c.parents) + author.value + committer.value + Block(c.extra);
  }

  lemma Assemble(c: Commit, sig: seq<byte>)
    requires PrintSignature(c.signature) == Some(sig)
    ensures PrintLine(TREE, c.tree) + PrintParents(c.parents) + (AUTHOR + UserText(c.author, c.authorTime)) +
      (COMMITTER + UserText(c.committer, c.commitTime)) + Block(c.extra) + sig + [NL] + c.message == Print(c)
  {
    hide PrintLine, PrintParents, UserText, Block, PrintSignature;
    var t, p, a, b := PrintLine(TREE, c.tree), PrintParents(c.parents),
      AUTHOR + UserText(c.author, c.authorTime), COMMITTER + UserText(c.committer, c.commitTime);
    var e, n, m := Block(c.extra), [NL], c.message;
    Regroup(t + p + a + b + e + sig, n, m);
    Regroup(t + p + a + b + e, sig, n + m);
    Regroup(t + p + a + b, e, sig + (n + m));
    Regroup(t + p + a, b, PrintBody(c));
    Regroup(COMMITTER, UserText(c.committer, c.commitTime), PrintBody(c));
    Regroup(t + p, a, PrintCommitter(c));
    Regroup(AUTHOR, UserText(c.author, c.authorTime), PrintCommitter(c));
    Regroup(t, p, PrintAuthor(c));
  }
}
