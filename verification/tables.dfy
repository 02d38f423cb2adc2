/** Tables of fixed-width entries, as index files consist of them. */
module Tables {
  import opened Common
  import opened BigEndian

  function Join(words: seq<seq<byte>>): seq<byte> {
    if words == [] then [] else words[0] + Join(words[1..])
  }

  datatype Table = Table(words: seq<seq<byte>>, rest: seq<byte>)

  /** The first `n` entries of width `w`, and what follows them. */
  function Take(s: seq<byte>, w: nat, n: nat): (t: Option<Table>)
    ensures t.Some? ==> |t.value.words| == n && AllWide(t.value.words, w) && |t.value.rest| <= |s|
    decreases n
  {
    if n == 0 then Some(Table([], s))
    else if |s| < w then None
    else Cons(s[..w], Take(s[w..], w, n - 1))
  }

  function Cons(word: seq<byte>, t: Option<Table>): Option<Table> {
    match t
    case None => None
    case Some(tab) => Some(Table([word] + tab.words, tab.rest))
  }

  function Prepend(words: seq<seq<byte>>, t: Option<Table>): Option<Table> {
    match t
    case None => None
    case Some(tab) => Some(Table(words + tab.words, tab.rest))
  }

  predicate AllWide(words: seq<seq<byte>>, w: nat) {
    forall i :: 0 <= i < |words| ==> |words[i]| == w
  }

  /** A written table is read back, whatever follows it. */
  lemma {:induction false} TakeJoin(words: seq<seq<byte>>, w: nat, rest: seq<byte>)
    requires AllWide(words, w)
    ensures Take(Join(words) + rest, w, |words|) == Some(Table(words, rest))
  {
    if words == [] {
      assert [] + rest == rest;
    } else {
      var s := Join(words) + rest;
      assert s == words[0] + (Join(words[1..]) + rest);
      assert s[w..] == Join(words[1..]) + rest && s[..w] == words[0];
      assert [words[0]] + words[1..] == words;
      TakeJoin(words[1..], w, rest);
    }
  }

  lemma {:induction false} JoinAppend(words: seq<seq<byte>>, word: seq<byte>)
    ensures Join(words + [word]) == Join(words) + word
  {
    if words == [] {
      assert [] + [word] == [word] && Join([word]) == word + [];
    } else {
      assert (words + [word])[1..] == words[1..] + [word];
      JoinAppend(words[1..], word);
      assert words[0] + (Join(words[1..]) + word) == words[0] + Join(words[1..]) + word;
    }
  }

  /** One more entry read. */
  lemma TakeStep(words: seq<seq<byte>>, s: seq<byte>, w: nat, n: nat)
    requires n > 0
    ensures Prepend(words, Take(s, w, n)) ==
      if |s| < w then None else Prepend(words + [s[..w]], Take(s[w..], w, n - 1))
  {
    if |s| >= w {
      var t := Take(s[w..], w, n - 1);
      if t.Some? {
        assert words + ([s[..w]] + t.value.words) == words + [s[..w]] + t.value.words;
      }
    }
  }

  lemma PrependNothing(t: Option<Table>)
    ensures Prepend([], t) == t
  {
    if t.Some? {
      assert [] + t.value.words == t.value.words;
    }
  }

  function Numbers(words: seq<seq<byte>>): (xs: seq<nat>)
    ensures |xs| == |words|
  {
    seq(|words|, i requires 0 <= i < |words| => Number(words[i]))
  }
}
