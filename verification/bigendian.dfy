/** Network byte order, as ntohl, htonl and their 64-bit forms. */
module BigEndian {
  import opened Common

  /** The `n` low bytes of `x`, most significant first. */
  function Bytes(x: nat, n: nat): (s: seq<byte>)
    ensures |s| == n
  {
    if n == 0 then [] else Bytes(x / 256, n - 1) + [x % 256]
  }

  function Number(s: seq<byte>): nat {
    if s == [] then 0 else 256 * Number(Front(s)) + Last(s)
  }

  function Pow256(n: nat): (p: nat)
    ensures p > 0
  {
    if n == 0 then 1 else 256 * Pow256(n - 1)
  }

  /** Exactly the numbers that fit survive; others keep their low bytes. */
  lemma {:induction false} NumberBytes(x: nat, n: nat)
    ensures Number(Bytes(x, n)) < Pow256(n)
    ensures x < Pow256(n) <==> Number(Bytes(x, n)) == x
  {
    if n > 0 {
      NumberBytes(x / 256, n - 1);
      assert Front(Bytes(x, n)) == Bytes(x / 256, n - 1);
    }
  }

  lemma {:induction false} BytesNumber(s: seq<byte>)
    ensures Bytes(Number(s), |s|) == s && Number(s) < Pow256(|s|)
  {
    if s != [] {
      BytesNumber(Front(s));
      assert s == Front(s) + [Last(s)];
    }
  }

  lemma Widths()
    ensures Pow256(4) == 0x1_0000_0000 && Pow256(8) == 0x1_0000_0000_0000_0000
  {
    assert Pow256(2) == 0x1_0000 && Pow256(4) == 0x1_0000 * Pow256(2);
    assert Pow256(6) == 0x1_0000 * Pow256(4) && Pow256(8) == 0x1_0000 * Pow256(6);
  }

  lemma Fits32(x: nat)
    requires x < 0x1_0000_0000
    ensures Number(Bytes(x, 4)) == x
  {
    Widths();
    NumberBytes(x, 4);
  }

  /** Four bytes, the most significant one first. */
  lemma NumberOf(a: byte, b: byte, c: byte, d: byte)
    ensures Number([a, b, c, d]) == 256 * (256 * (256 * (a as int) + b) + c) + d
  {
    assert Front([a]) == [] && Number([a]) == a;
    assert Front([a, b]) == [a] && Front([a, b, c]) == [a, b] && Front([a, b, c, d]) == [a, b, c];
    assert Number([a, b]) == 256 * Number([a]) + b;
    assert Number([a, b, c]) == 256 * Number([a, b]) + c;
  }

  /** The 32-bit number at `p`, most significant byte first. */
  function Word32(f: seq<byte>, p: nat): nat
    requires p + 4 <= |f|
  {
    0x100_0000 * (f[p] as int) + 0x1_0000 * (f[p + 1] as int) + 0x100 * (f[p + 2] as int) + f[p + 3]
  }

  lemma WordIs(f: seq<byte>, p: nat)
    requires p + 4 <= |f|
    ensures Word32(f, p) == Number(f[p..p + 4])
  {
    NumberOf(f[p], f[p + 1], f[p + 2], f[p + 3]);
    assert f[p..p + 4] == [f[p], f[p + 1], f[p + 2], f[p + 3]];
  }
}
