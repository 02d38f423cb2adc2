/** Unsigned varints as encoding/binary reads them and the Writer appends them. */
module Varint {
  import opened Common
  import opened Streams

  /** Groups of seven bits, least significant first. */
  function Encode(x: nat): seq<byte> {
    if x < 128 then [x] else [128 + x % 128] + Encode(x / 128)
  }

  /**
   The value that starts at `s`, when `i` groups came before it, and its length: at most ten
   groups in all, the tenth of which must be 0 or 1 to fit 64 bits.
   */
  function Decode(s: seq<byte>, i: nat): Option<(nat, nat)>
    decreases |s|
  {
    if s == [] || i >= 10 then None
    else if s[0] < 128 then
      if i == 9 && s[0] > 1 then None else Some((s[0], 1))
    else
      match Decode(s[1..], i + 1)
      case None => None
      case Some((v, n)) => Some((s[0] % 128 + 128 * v, n + 1))
  }

  lemma {:induction false} DecodeShort(s: seq<byte>, i: nat)
    requires Decode(s, i).Some?
    ensures 0 < Decode(s, i).value.1 <= |s|
  {
    if s[0] >= 128 {
      DecodeShort(s[1..], i + 1);
    }
  }

  /** Values below 2^64 survive, whatever bytes follow. */
  lemma {:induction false} DecodeEncode(x: nat, rest: seq<byte>, i: nat)
    requires i < 10 && x < 2 * Pow128(9 - i)
    ensures Decode(Encode(x) + rest, i) == Some((x, |Encode(x)|))
    decreases x
  {
    if x >= 128 {
      DecodeEncode(x / 128, rest, i + 1);
      assert (Encode(x) + rest)[1..] == Encode(x / 128) + rest;
    }
  }

  /** binary.ReadUvarint. */
  method Read(r: ByteStream) returns (x: Option<nat>)
    modifies r`pos
    ensures match Decode(old(r.Rest()), 0)
      case Some((v, n)) =>
        && x == Some(v) && 0 < n <= |old(r.Rest())|
        && r.Rest() == old(r.Rest())[n..] && r.pos == old(r.pos) + n
      case None => x == None
  {
    ghost var s := r.Rest();
    var acc, shift := 0, 1;
    for i := 0 to 10
      invariant i <= |s| && r.Rest() == s[i..] && r.pos == old(r.pos) + i && shift == Pow128(i)
      invariant Decode(s, 0).None? <==> Decode(s[i..], i).None?
      invariant Decode(s, 0).Some? ==>
        && Decode(s, 0).value.0 == acc + shift * Decode(s[i..], i).value.0
        && Decode(s, 0).value.1 == i + Decode(s[i..], i).value.1
    {
      var b := r.ReadByte();
      if b.None? {
        return None;
      }
      assert s[i..][1..] == s[i + 1..];
      if b.value < 128 {
        if i == 9 && b.value > 1 {
          return None;
        }
        return Some(acc + shift * b.value);
      }
      if Decode(s, 0).Some? {
        ShiftStep(shift, b.value % 128, Decode(s[i + 1..], i + 1).value.0);
      }
      acc := acc + shift * (b.value % 128);
      shift := 128 * shift;
    }
    return None;
  }

  lemma ShiftStep(shift: nat, low: nat, v: nat)
    ensures shift * (low + 128 * v) == shift * low + (128 * shift) * v
  {
  }
}
