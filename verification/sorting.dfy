/** sort.Sort applied to the rows of an index, ordered by object ID. */
module Sorting {
  import opened Common
  import opened Pack

  predicate SortedById(rows: seq<Row>) {
    forall i, j :: 0 <= i < j < |rows| ==> !LexLess(rows[j].id, rows[i].id)
  }

  predicate DistinctIds(rows: seq<Row>) {
    forall i, j :: 0 <= i < j < |rows| ==> rows[i].id != rows[j].id
  }

  /** Some sorted rearrangement; the sort is not stable, so nothing more is promised. */
  method SortRows(rows: seq<Row>) returns (out: seq<Row>)
    ensures SortedById(out) && multiset(out) == multiset(rows)
  {
    out := [];
    for n := 0 to |rows|
      invariant SortedById(out) && multiset(out) == multiset(rows[..n])
    {
      assert rows[..n + 1] == rows[..n] + [rows[n]];
      out := Insert(out, rows[n]);
    }
    assert rows[..|rows|] == rows;
  }

  method Insert(rows: seq<Row>, r: Row) returns (out: seq<Row>)
    requires SortedById(rows)
    ensures SortedById(out) && multiset(out) == multiset(rows) + multiset{r}
  {
    var i := 0;
    while i < |rows| && LexLess(rows[i].id, r.id)
      invariant i <= |rows|
      invariant forall k :: 0 <= k < i ==> LexLess(rows[k].id, r.id)
    {
      i := i + 1;
    }
    InsertSorted(rows, r, i);
    out := rows[..i] + [r] + rows[i..];
    assert rows == rows[..i] + rows[i..];
  }

  /** Behind everything that is below it, a row keeps the order. */
  lemma InsertSorted(rows: seq<Row>, r: Row, i: nat)
    requires SortedById(rows) && i <= |rows|
    requires forall k :: 0 <= k < i ==> LexLess(rows[k].id, r.id)
    requires i < |rows| ==> !LexLess(rows[i].id, r.id)
    ensures SortedById(rows[..i] + [r] + rows[i..])
  {
    hide LexLess;
    var out := rows[..i] + [r] + rows[i..];
    forall k, l | 0 <= k < l < |out|
      ensures !LexLess(out[l].id, out[k].id)
    {
      if k == i {
        if l > i + 1 && LexLess(rows[l - 1].id, r.id) {
          // rows[i] is not below r, and rows[l - 1] is not below rows[i]
          LexTotal(rows[i].id, rows[l - 1].id);
          if rows[l - 1].id != rows[i].id {
            LexTrans(rows[i].id, rows[l - 1].id, r.id);
          }
        }
      } else if l == i {
        LexTotal(rows[k].id, r.id);
      }
    }
  }

  /** Every collection of rows has a sorted arrangement. */
  lemma {:induction false} SortedExists(rows: seq<Row>) returns (out: seq<Row>)
    ensures SortedById(out) && multiset(out) == multiset(rows)
  {
    if rows == [] {
      out := [];
    } else {
      var r := Last(rows);
      var front := SortedExists(Front(rows));
      var i := 0;
      while i < |front| && LexLess(front[i].id, r.id)
        invariant i <= |front| && forall k :: 0 <= k < i ==> LexLess(front[k].id, r.id)
      {
        i := i + 1;
      }
      InsertSorted(front, r, i);
      out := front[..i] + [r] + front[i..];
      assert front == front[..i] + front[i..];
      assert rows == Front(rows) + [r];
    }
  }

  lemma FirstsAgree(a: seq<Row>, b: seq<Row>)
    requires SortedById(a) && SortedById(b) && multiset(a) == multiset(b) && DistinctIds(a) && a != [] && b != []
    ensures a[0] == b[0]
  {
    assert a[0] in multiset(b) && b[0] in multiset(a);
    var i :| 0 <= i < |b| && b[i] == a[0];
    var j :| 0 <= j < |a| && a[j] == b[0];
    LexTotal(a[0].id, b[0].id);
  }

  lemma SortedTail(rows: seq<Row>)
    requires rows != [] && SortedById(rows)
    ensures SortedById(rows[1..]) && (DistinctIds(rows) ==> DistinctIds(rows[1..]))
  {
    hide LexLess;
  }

  /** With distinct IDs there is only one sorted arrangement. */
  lemma {:induction false} SortedUnique(a: seq<Row>, b: seq<Row>)
    requires SortedById(a) && SortedById(b) && multiset(a) == multiset(b) && DistinctIds(a)
    ensures a == b
  {
    hide SortedById, DistinctIds;
    assert |a| == |multiset(a)| == |multiset(b)| == |b|;
    if a != [] {
      FirstsAgree(a, b);
      TailsAlike(a, b);
      SortedTail(a);
      SortedTail(b);
      SortedUnique(a[1..], b[1..]);
      assert a == [a[0]] + a[1..] && b == [a[0]] + b[1..];
    }
  }
}
