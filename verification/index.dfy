/** The in-memory pack index and its search by object ID. */
module Index {
  import opened Common
  import opened Pack

  /** Row `i` is the object `ids[i]` at `offsets[i]`; the checksums may be missing. */
  datatype Index = Index(ids: seq<Id>, offsets: seq<int>, sums: seq<nat>, packSha: Id)

  predicate Sorted(ids: seq<Id>) {
    forall i, j :: 0 <= i < j < |ids| ==> !LexLess(ids[j], ids[i])
  }

  /** The first position of `id`, or -1. */
  function Position(ids: seq<Id>, id: Id): int {
    if ids == [] then -1
    else if ids[0] == id then 0
    else
      var k := Position(ids[1..], id);
      if k < 0 then -1 else k + 1
  }

  lemma {:induction false} PositionIs(ids: seq<Id>, id: Id)
    ensures -1 <= Position(ids, id) < |ids|
    ensures Position(ids, id) >= 0 ==>
      ids[Position(ids, id)] == id && forall k :: 0 <= k < Position(ids, id) ==> ids[k] != id
    ensures Position(ids, id) < 0 ==> id !in ids
  {
    if ids != [] {
      PositionIs(ids[1..], id);
      assert ids == [ids[0]] + ids[1..];
    }
  }

  /** FindID: binary search in sorted IDs. */
  method FindID(ids: seq<Id>, id: Id) returns (i: int)
    requires Sorted(ids)
    ensures i == Position(ids, id)
  {
    var f := (k: nat) requires k < |ids| => !LexLess(ids[k], id);
    forall k: nat, l: nat | k < l < |ids| && f(k)
      ensures f(l)
    {
      NotBelow(ids[k], ids[l], id);
    }
    var n := Search(|ids|, f);
    PositionIs(ids, id);
    if n >= |ids| || ids[n] != id {
      forall k: nat | k < |ids|
        ensures ids[k] != id
      {
        LexTotal(id, id);
        if k < n {
          assert !f(k);
        } else {
          assert f(n);
          LexTotal(ids[n], id);
          if k > n {
            assert !LexLess(ids[k], ids[n]);
          }
        }
      }
      return -1;
    }
    forall k: nat | k < n
      ensures ids[k] != id
    {
      LexTotal(id, id);
      assert !f(k);
    }
    i := n;
  }

  /** In a list without inversions, what lies behind an element that is not below `c` is not below `c`. */
  lemma NotBelow(a: Id, b: Id, c: Id)
    requires !LexLess(b, a) && !LexLess(a, c)
    ensures !LexLess(b, c)
  {
    LexTotal(a, b);
    if LexLess(b, c) && a != b {
      LexTrans(a, b, c);
    }
  }

  /** The index that sorted rows make up. */
  function FromRows(rows: seq<Row>, packSha: Id): Index {
    Index(seq(|rows|, i requires 0 <= i < |rows| => rows[i].id),
          seq(|rows|, i requires 0 <= i < |rows| => rows[i].offset),
          seq(|rows|, i requires 0 <= i < |rows| => rows[i].crc), packSha)
  }
}
