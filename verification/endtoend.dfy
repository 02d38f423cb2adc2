/** From the packfile to an index file and back to the objects. */
module EndToEnd {
  import opened BuildIndex
  import opened Common
  import opened Crawler
  import opened Index
  import opened IndexCodec
  import opened OffsetTables
  import opened Pack
  import opened PackFile
  import opened PackFormat
  import opened Sorting
  import opened Undeltify

  lemma RowsNonNegative(rows: seq<Row>, sha: Id)
    ensures NonNegative(FromRows(rows, sha).offsets)
  {
  }

  lemma SumsOfRows(rows: seq<Row>, sha: Id)
    ensures |FromRows(rows, sha).sums| == |FromRows(rows, sha).ids|
  {
  }

  /**
   The index of a pack whose objects have distinct IDs can be written as a version 2 file; read
   back, whatever follows it, it finds each object by its ID, and undeltifying there with the
   index read ends and yields an object whose hash is that ID.
   */
  lemma StoredIndexServes(lib: Library, file: seq<byte>, b: Base, acts: seq<Action>, rows: seq<Row>, sha: Id, r: Row,
                          rest: seq<byte>) returns (n: nat)
    requires Built(lib, file, b, acts, rows) && DistinctIds(rows) && r in rows
    requires Representable(FromRows(rows, sha))
    ensures EncodeV2(lib, FromRows(rows, sha)).Some?
    ensures var d := Decode(lib, EncodeV2(lib, FromRows(rows, sha)).value + rest);
      && d.Some? && d.value.rest == rest
      && var idx, i := d.value.index, Position(d.value.index.ids, r.id);
      && 0 <= i < |idx.offsets| && idx.offsets[i] == r.offset
      && Ends(file, idx, r.offset, n)
      && var x := Undelta(lib, file, idx, r.offset, n);
      x.Some? && lib.sha1(ObjectBytes(x.value)) == r.id
  {
    hide Built, Decode, Valid, Undelta, Ends, Representable, NonNegative, DistinctIds;
    SortedRows(lib, file, b, acts, rows);
    BuiltValid(rows, sha);
    SumsOfRows(rows, sha);
    RowsNonNegative(rows, sha);
    RoundTripV2(lib, FromRows(rows, sha), rest);
    PositionOfRow(rows, sha, r);
    n := IndexedUndeltifies(lib, file, b, acts, rows, sha, r);
  }

  lemma SortedRows(lib: Library, file: seq<byte>, b: Base, acts: seq<Action>, rows: seq<Row>)
    requires Built(lib, file, b, acts, rows)
    ensures SortedById(rows)
  {
  }
}
