/** Bytes, object IDs and the few sequence facts the other modules share. */
module Common {

  type byte = x: int | 0 <= x < 256

  /** A SHA-1 sized object ID. */
  type Id = s: seq<byte> | |s| == 20 witness seq(20, _ => 0)

  const TWO31 := 0x8000_0000
  const TWO32 := 0x1_0000_0000
  const TWO63 := 0x8000_0000_0000_0000
  const TWO64 := 0x1_0000_0000_0000_0000

  datatype Option<+T> = None | Some(value: T)

  function Last<T>(s: seq<T>): T
    requires s != []
  {
    s[|s| - 1]
  }

  function Front<T>(s: seq<T>): seq<T>
    requires s != []
  {
    s[..|s| - 1]
  }

  function Min(a: int, b: int): int {
    if a < b then a else b
  }

  /** bytes.Compare(a, b) < 0: lexicographic order of byte strings. */
  predicate LexLess(a: seq<byte>, b: seq<byte>) {
    b != [] && (a == [] || a[0] < b[0] || (a[0] == b[0] && LexLess(a[1..], b[1..])))
  }

  lemma {:induction false} LexTotal(a: seq<byte>, b: seq<byte>)
    ensures LexLess(a, b) || a == b || LexLess(b, a)
    ensures !(LexLess(a, b) && LexLess(b, a)) && !LexLess(a, a)
  {
    if a != [] && b != [] {
      LexTotal(a[1..], b[1..]);
      assert a == [a[0]] + a[1..] && b == [b[0]] + b[1..];
    }
    if a != [] {
      LexTotal(a[1..], a[1..]);
    }
  }

  lemma {:induction false} LexTrans(a: seq<byte>, b: seq<byte>, c: seq<byte>)
    requires LexLess(a, b) && LexLess(b, c)
    ensures LexLess(a, c)
  {
    if a != [] && b[0] == a[0] == c[0] {
      LexTrans(a[1..], b[1..], c[1..]);
    }
  }

  /** The first byte in which they differ decides; a string comes before its continuations. */
  lemma {:induction false} LexFirstDifference(a: seq<byte>, b: seq<byte>)
    ensures LexLess(a, b) <==>
      exists n: nat :: n <= |a| && n < |b| && a[..n] == b[..n] && (n < |a| ==> a[n] < b[n])
  {
    if a != [] && b != [] && a[0] == b[0] {
      LexFirstDifference(a[1..], b[1..]);
      if n: nat :| n <= |a[1..]| && n < |b[1..]| && a[1..][..n] == b[1..][..n] && (n < |a[1..]| ==> a[1..][n] < b[1..][n]) {
        assert a[..n + 1] == [a[0]] + a[1..][..n] && b[..n + 1] == [b[0]] + b[1..][..n];
      }
      if n: nat :| n <= |a| && n < |b| && a[..n] == b[..n] && (n < |a| ==> a[n] < b[n]) {
        assert n > 0 && a[1..][..n - 1] == a[..n][1..] && b[1..][..n - 1] == b[..n][1..];
      }
    } else {
      if LexLess(a, b) {
        assert a[..0] == b[..0];
      }
      if n: nat :| n <= |a| && n < |b| && a[..n] == b[..n] && (n < |a| ==> a[n] < b[n]) {
        SameHead(a, b, n);
      }
    }
  }

  lemma SameHead(a: seq<byte>, b: seq<byte>, n: nat)
    requires n <= |a| && n <= |b| && a[..n] == b[..n]
    ensures n > 0 ==> a[0] == b[0]
  {
    if n > 0 {
      assert a[..n][0] == b[..n][0];
    }
  }

  function Pow128(n: nat): nat {
    if n == 0 then 1 else 128 * Pow128(n - 1)
  }

  predicate Monotone(n: nat, f: nat --> bool)
    requires forall k: nat :: k < n ==> f.requires(k)
  {
    forall k: nat, l: nat :: k < l < n && f(k) ==> f(l)
  }

  /**
   sort.Search: some index in 0..n at which `f` turns from false to true; the least one at
   which it holds, if `f` stays true once it is.
   */
  method Search(n: nat, f: nat --> bool) returns (i: nat)
    requires forall k: nat :: k < n ==> f.requires(k)
    ensures i <= n && (i > 0 ==> !f(i - 1)) && (i < n ==> f(i))
    ensures Monotone(n, f) ==> forall k: nat :: k < n ==> (f(k) <==> i <= k)
  {
    i := 0;
    var j := n;
    while i < j
      invariant i <= j <= n && (i > 0 ==> !f(i - 1)) && (j < n ==> f(j))
    {
      var h := (i + j) / 2;
      if !f(h) {
        i := h + 1;
      } else {
        j := h;
      }
    }
  }

  lemma TailsAlike<T>(a: seq<T>, b: seq<T>)
    requires a != [] && b != [] && a[0] == b[0] && multiset(a) == multiset(b)
    ensures multiset(a[1..]) == multiset(b[1..])
  {
    assert a == [a[0]] + a[1..] && b == [a[0]] + b[1..];
    assert multiset(a[1..]) == multiset(a) - multiset{a[0]};
  }
}
