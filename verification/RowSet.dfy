/** Row sets: length-prefixed rows one after the other, and the iterator over them. */
module RowSet {
  import opened Bytes
  import opened RowFormat
  import opened RowWriter

  /** The bytes of a row set. */
  function RowSetBytes(rows: seq<seq<byte>>): seq<byte> {
    if rows == [] then []
    else Varint(|rows[0]|) + rows[0] + RowSetBytes(rows[1..])
  }

  lemma {:induction false} RowSetConcat(a: seq<seq<byte>>, b: seq<seq<byte>>)
    ensures RowSetBytes(a + b) == RowSetBytes(a) + RowSetBytes(b)
  {
    if a == [] {
      assert a + b == b;
    } else {
      assert (a + b)[1..] == a[1..] + b;
      RowSetConcat(a[1..], b);
    }
  }

  /** How far the reader moves for a row: the length of the row and the sum with its own bytes are
      both kept in 32 signed bits. */
  function Advance(lenBytes: nat, rowLen: nat): int {
    ToInt32(lenBytes + ToInt32(rowLen))
  }

  /** The row and its length take fewer than 2^31 bytes. */
  ghost predicate ShortRow(row: seq<byte>) {
    |Varint(|row|)| + |row| < TWO_31
  }

  ghost predicate ShortRows(rows: seq<seq<byte>>) {
    forall i :: 0 <= i < |rows| ==> ShortRow(rows[i])
  }

  /** The reader moves to the next row exactly for those; just above that it moves backwards. */
  lemma AdvanceIff(row: seq<byte>)
    ensures Advance(|Varint(|row|)|, |row|) == |Varint(|row|)| + |row| <==> ShortRow(row)
    ensures TWO_31 - 5 <= |row| < TWO_31 ==> Advance(|Varint(|row|)|, |row|) < 0
  {
    hide Varint;
    if TWO_31 - 5 <= |row| < TWO_31 {
      FiveBytes(|row|);
    }
  }

  class RowSetWriter {
    var data: seq<byte>
    /** The rows added so far. */
    ghost var rows: seq<seq<byte>>

    ghost predicate Valid()
      reads this
    {
      data == RowSetBytes(rows)
    }

    constructor ()
      ensures Valid() && rows == []
    {
      data, rows := [], [];
    }

    /** addRow with an encoded row. */
    method AddRow(row: seq<byte>)
      requires Valid() && |row| < TWO_64
      modifies this
      ensures Valid() && rows == old(rows) + [row]
    {
      RowSetConcat(rows, [row]);
      var buf := EncodeVarint(|row|);
      data := data + buf;
      data := data + row;
      rows := rows + [row];
    }

    /** addAll with the bytes of another row set. */
    method AddAll(more: seq<byte>, ghost added: seq<seq<byte>>)
      requires Valid() && more == RowSetBytes(added)
      modifies this
      ensures Valid() && rows == old(rows) + added
    {
      RowSetConcat(rows, added);
      data := data + more;
      rows := rows + added;
    }

    /** addRow with a row writer: the length prefix is the size before the missing columns are
        filled in, so it is the length of the row exactly for full rows. */
    method AddWriter(w: RowWriter) returns (row: seq<byte>, size: nat)
      requires Valid() && w.Valid()
      requires |RowBytes(w.version, w.blockOffsets, w.cord)| < TWO_64
      modifies this, w
      ensures row == RowBytes(w.version, w.blockOffsets, w.cord)
      ensures data == old(data) + Varint(size) + row && rows == old(rows) + [row]
      ensures size == |row| <==> old(w.colNum) == |w.types|
      ensures old(w.colNum) == |w.types| ==> Valid()
    {
      hide RowBytes, Varint, RowSetBytes;
      size := w.Size();
      var buf := EncodeVarint(size);
      data := data + buf;
      row := w.EncodeTo([]);
      data := data + row;
      RowSetSnoc(rows, row);
      rows := rows + [row];
    }
  }

  lemma RowSetSnoc(rows: seq<seq<byte>>, row: seq<byte>)
    ensures RowSetBytes(rows + [row]) == RowSetBytes(rows) + Varint(|row|) + row
  {
    RowSetConcat(rows, [row]);
  }

  /** Where the first row lies in a row set. */
  lemma FirstRow(rows: seq<seq<byte>>)
    requires rows != []
    ensures var data, len := RowSetBytes(rows), |Varint(|rows[0]|)|;
      DecodeVarint(data) == Some((|rows[0]|, len)) &&
      len + |rows[0]| <= |data| && data[len..len + |rows[0]|] == rows[0]
  {
    var first, others := rows[0], RowSetBytes(rows[1..]);
    VarintRoundTrip(|first|, first + others);
    assert RowSetBytes(rows) == Varint(|first|) + (first + others);
  }

  class RowSetIterator {
    const data: seq<byte>
    var offset: nat
    var len: int
    var row: seq<byte>

    /** The rows from the current one on. */
    ghost predicate Stands(rest: seq<seq<byte>>)
      reads this
    {
      offset <= |data| && data[offset..] == RowSetBytes(rest) && ShortRows(rest) &&
      (rest != [] ==> row == rest[0] && len == |Varint(|rest[0]|)| + |rest[0]|)
    }

    constructor (data: seq<byte>, ghost rows: seq<seq<byte>>)
      requires data == RowSetBytes(rows) && ShortRows(rows)
      ensures this.data == data && Stands(rows)
    {
      this.data, offset, len, row := data, 0, 0, [];
      new;
      assert data[0..] == data;
      PrepareReader(rows);
    }

    /** Lines 32-51 of RowSetReader.cpp. A length that cannot be read ends the iteration. */
    method PrepareReader(ghost rest: seq<seq<byte>>)
      requires offset <= |data| && data[offset..] == RowSetBytes(rest) && ShortRows(rest)
      modifies this`len, this`row, this`offset
      ensures Stands(rest) && offset == old(offset)
    {
      hide RowSetBytes, Varint, DecodeVarint;
      len := 0;
      if offset < |data| {
        EmptySet(rest);
        FirstRow(rest);
        var r := DecodeVarint(data[offset..]);
        var rowLen, lenBytes := ToInt32(r.value.0), r.value.1;
        AdvanceIff(rest[0]);
        row := data[offset + lenBytes..offset + lenBytes + rowLen];
        assert row == data[offset..][lenBytes..lenBytes + rowLen];
        len := ToInt32(lenBytes + rowLen);
      } else {
        EmptySet(rest);
      }
    }

    /** operator++ */
    method Next(ghost rest: seq<seq<byte>>)
      requires Stands(rest) && rest != []
      modifies this
      ensures Stands(rest[1..]) && offset > old(offset)
    {
      ghost var first, others := rest[0], RowSetBytes(rest[1..]);
      assert data[offset..] == Varint(|first|) + first + others;
      assert data[offset..][len..] == others;
      offset := offset + len;
      PrepareReader(rest[1..]);
    }
  }

  lemma EmptySet(rows: seq<seq<byte>>)
    ensures RowSetBytes(rows) == [] <==> rows == []
  {
  }

  /** Iterating what was written yields the rows in order and stops. */
  method ReadRows(data: seq<byte>, ghost rows: seq<seq<byte>>) returns (out: seq<seq<byte>>)
    requires data == RowSetBytes(rows) && ShortRows(rows)
    ensures out == rows
  {
    out := [];
    var it := new RowSetIterator(data, rows);
    ghost var rest := rows;
    while it.offset < |data|
      invariant fresh(it) && it.data == data && it.Stands(rest) && out + rest == rows
      decreases |rest|
    {
      EmptySet(rest);
      out := out + [it.row];
      it.Next(rest);
      rest := rest[1..];
    }
    EmptySet(rest);
  }
}
