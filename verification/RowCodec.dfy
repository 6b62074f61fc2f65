/** A written row read back: the header parser, and the round trip from values to values. */
module RowCodec {
  import opened Bytes
  import opened RowFormat
  import opened RowLayout
  import opened RowWriter
  import RR = RowReader

  // ----- the header -----

  /** Bytes per block offset and bytes of the version, as packed in the first byte. */
  function OffsetWidth(row: seq<byte>): nat
    requires |row| > 0
  {
    row[0] % 8 + 1
  }

  function VersionWidth(row: seq<byte>): nat
    requires |row| > 0
  {
    row[0] / 32
  }

  ghost predicate HeaderFits(row: seq<byte>, numFields: nat) {
    |row| > 0 && 1 + VersionWidth(row) + Times(numFields / 16, OffsetWidth(row)) <= |row|
  }

  /** `count` little-endian offsets of `width` bytes each. */
  ghost function Offsets(bs: seq<byte>, width: nat, count: nat): (os: seq<nat>)
    requires Times(count, width) <= |bs|
    ensures |os| == count
  {
    if count == 0 then []
    else
      var p := Times(count - 1, width);
      Offsets(bs, width, count - 1) + [FromLE(bs[p..p + width])]
  }

  datatype Header = Header(headerLen: nat, starts: seq<nat>)

  ghost function HeaderOf(row: seq<byte>, numFields: nat): Header
    requires HeaderFits(row, numFields)
  {
    var p, width := 1 + VersionWidth(row), OffsetWidth(row);
    Header(p + Times(numFields / 16, width), [0] + Offsets(row[p..], width, numFields / 16))
  }

  /** Lines 253-257 of RowReader.cpp: one block offset, byte by byte. */
  method ReadOffset(row: seq<byte>, at: nat, width: nat) returns (offset: nat)
    requires at + width <= |row|
    ensures offset == FromLE(row[at..at + width])
  {
    offset := 0;
    var scale: nat := 1;
    for j := 0 to width
      invariant offset == FromLE(row[at..at + j]) && scale == Pow256(j)
    {
      FromLESnoc(row[at..at + j], row[at + j]);
      assert row[at..at + j + 1] == row[at..at + j] + [row[at + j]];
      offset := offset + row[at + j] * scale;
      scale := 256 * scale;
    }
  }

  /** processHeader: refuses exactly the rows too short for their header. */
  method ProcessHeader(row: seq<byte>, numFields: nat) returns (r: Option<Header>)
    ensures r.Some? <==> HeaderFits(row, numFields)
    ensures r.Some? ==> r.value == HeaderOf(row, numFields)
  {
    if |row| == 0 {
      return None;
    }
    var width, verBytes := OffsetWidth(row), VersionWidth(row);
    var numOffsets := numFields / 16;
    TimesIsProduct(numOffsets, width);
    if width * numOffsets + verBytes + 1 > |row| {
      return None;
    }
    var offsets := ReadOffsets(row, 1 + verBytes, width, numOffsets);
    r := Some(Header(1 + verBytes + Times(numOffsets, width), [0] + offsets));
  }

  /** The loop over the block offsets. */
  method ReadOffsets(row: seq<byte>, start: nat, width: nat, num: nat) returns (offsets: seq<nat>)
    requires start + Times(num, width) <= |row|
    ensures offsets == Offsets(row[start..], width, num)
  {
    offsets := [];
    var it := start;
    ghost var bs := row[start..];
    for i := 0 to num
      invariant Times(i, width) <= |bs| && it == start + Times(i, width)
      invariant offsets == Offsets(bs, width, i)
    {
      TimesMonotone(i + 1, width, num, width);
      assert row[it..it + width] == bs[Times(i, width)..Times(i, width) + width];
      var offset := ReadOffset(row, it, width);
      offsets := offsets + [offset];
      it := it + width;
    }
  }

  /** getSchemaVer: -1 for data too short to tell. The version is put together in 32 signed bits. */
  function GetSchemaVer(row: seq<byte>): int {
    if row == [] then -1
    else if VersionWidth(row) == 0 then 0
    else if VersionWidth(row) + 1 > |row| then -1
    else ToInt32(FromLE(row[1..1 + VersionWidth(row)]))
  }

  // ----- the round trip -----

  /** Offsets that fit their width parse back. */
  lemma {:induction false} OffsetsParse(os: seq<nat>, n: nat, rest: seq<byte>)
    requires forall k :: 0 <= k < |os| ==> os[k] < Pow256(n)
    ensures Offsets(OffsetBytes(os, n) + rest, n, |os|) == os
    decreases |os|
  {
    hide LE, FromLE, Pow256;
    if os != [] {
      var front, last := os[..|os| - 1], os[|os| - 1];
      OffsetsParse(front, n, LE(last, n) + rest);
      assert OffsetBytes(os, n) + rest == OffsetBytes(front, n) + (LE(last, n) + rest);
      LERoundTrip(last, n);
      var p := Times(|os| - 1, n);
      assert (OffsetBytes(os, n) + rest)[p..p + n] == LE(last, n);
    }
  }

  /** The 3-bit fields of the header byte decode to what was encoded. */
  lemma HeaderByteDecodes(offsetBytes: nat, verBytes: nat)
    requires 1 <= offsetBytes <= 8 && verBytes <= 7
    ensures HeaderByte(offsetBytes, verBytes) % 8 + 1 == offsetBytes
    ensures HeaderByte(offsetBytes, verBytes) / 32 == verBytes
  {
  }

  /** The parts of an encoded row by position. */
  lemma RowSlices(header: byte, ver: seq<byte>, os: seq<byte>, data: seq<byte>)
    ensures var row := [header] + ver + os + data;
      row[0] == header && row[1..1 + |ver|] == ver && row[1 + |ver|..] == os + data &&
      row[1 + |ver| + |os|..] == data
  {
  }

  /** The widths a header byte announces are those its row was encoded with. */
  lemma RowWidths(version: int64, os: seq<nat>, data: seq<byte>)
    requires 0 <= version < TWO_32 && |data| < TWO_64
    ensures var row := RowBytes(version, os, data);
      OffsetWidth(row) == OccupiedBytes(|data|) && VersionWidth(row) == VersionBytes(version) &&
      |data| < Pow256(OccupiedBytes(|data|))
  {
    assert Pow256(8) == TWO_64 && Pow256(4) == 0x1_0000_0000;
    OccupiedWithin(|data|, 8);
    OccupiedWithin(version, 4);
    OccupiedLeast(|data|);
    HeaderByteDecodes(OccupiedBytes(|data|), VersionBytes(version));
  }

  /** An encoded row parses back to its offsets and data, and to its version if that is below 2^31. */
  lemma RowParses(version: int64, os: seq<nat>, data: seq<byte>, numFields: nat)
    requires 0 <= version < TWO_32 && |data| < TWO_64 && |os| == numFields / 16
    requires forall k :: 0 <= k < |os| ==> os[k] <= |data|
    ensures var row := RowBytes(version, os, data);
      HeaderFits(row, numFields) && HeaderOf(row, numFields) == Header(|row| - |data|, [0] + os) &&
      row[|row| - |data|..] == data && (GetSchemaVer(row) == version <==> version < TWO_31)
  {
    var n, vb := OccupiedBytes(|data|), VersionBytes(version);
    RowWidths(version, os, data);
    VersionParses(version, os, data);
    hide GetSchemaVer, OccupiedBytes, LE, FromLE, OffsetBytes, Offsets, Pow256, HeaderByte, OffsetWidth, VersionWidth;
    RowSlices(HeaderByte(n, vb), LE(version, vb), OffsetBytes(os, n), data);
    OffsetsParse(os, n, data);
  }

  /** A version takes at most four bytes, which the 3-bit width can tell, and comes back exactly
      if it is below 2^31. */
  lemma VersionParses(version: int64, os: seq<nat>, data: seq<byte>)
    requires 0 <= version < TWO_32 && |data| < TWO_64
    ensures var row := RowBytes(version, os, data);
      VersionWidth(row) == VersionBytes(version) <= 4 && (GetSchemaVer(row) == version <==> version < TWO_31)
  {
    RowWidths(version, os, data);
    assert Pow256(4) == TWO_32;
    OccupiedWithin(version, 4);
    var n, vb := OccupiedBytes(|data|), VersionBytes(version);
    VersionBytesRead(version);
    hide OccupiedBytes, LE, FromLE, OffsetBytes, Pow256, HeaderByte, OffsetWidth, VersionWidth;
    RowSlices(HeaderByte(n, vb), LE(version, vb), OffsetBytes(os, n), data);
  }

  lemma VersionBytesRead(version: int64)
    requires 0 <= version
    ensures FromLE(LE(version, VersionBytes(version))) == version
  {
    if version > 0 {
      OccupiedLeast(version);
      LERoundTrip(version, OccupiedBytes(version));
    }
  }

  /** Right block offsets never point past the data, so none loses anything in the width taken
      from the data size. */
  lemma OffsetsWithin(cs: seq<seq<byte>>)
    ensures var os, n := RightOffsets(cs, |cs|), OccupiedBytes(|Concat(cs)|);
      forall k :: 0 <= k < |os| ==> os[k] <= |Concat(cs)| && FromLE(LE(os[k], n)) == os[k]
    ensures [0] + RightOffsets(cs, |cs|) == BlockStarts(cs)
  {
    var os, n := RightOffsets(cs, |cs|), OccupiedBytes(|Concat(cs)|);
    OccupiedLeast(|Concat(cs)|);
    forall k | 0 <= k < |os|
      ensures os[k] <= |Concat(cs)| && FromLE(LE(os[k], n)) == os[k]
    {
      ConcatPrefix(cs, 16 * (k + 1));
      LERoundTrip(os[k], n);
    }
    assert Start(cs, 0) == 0;
  }

  /** The RowReader constructor over a row; the original aborts where this returns null. */
  method Open(row: seq<byte>, types: seq<SupportedType>) returns (r: RR.RowReader?)
    ensures r != null <==> HeaderFits(row, |types|)
    ensures r != null ==> fresh(r) && r.types == types && r.Valid() && r.NoHoles()
    ensures r != null ==> var h := HeaderOf(row, |types|);
      h.headerLen <= |row| && r.data == row[h.headerLen..] && r.starts == h.starts
  {
    var h := ProcessHeader(row, |types|);
    match h
    case None => r := null;
    case Some(header) => r := new RR.RowReader(types, row[header.headerLen..], header.starts);
  }

  /** The values a sequence of writes stores, with defaults for the columns not written. */
  ghost predicate AllStored(fc: FloatCasts, types: seq<SupportedType>, inputs: seq<Value>, values: seq<Value>) {
    |inputs| <= |types| == |values| &&
    forall i :: 0 <= i < |types| ==>
      if i < |inputs| then Stored(fc, types[i], inputs[i]) == Some(values[i]) else values[i] == Default(types[i])
  }

  /** Write the first columns and encode: the others are filled in. */
  method WriteRow(fc: FloatCasts, types: seq<SupportedType>, version: int64, inputs: seq<Value>)
    returns (row: seq<byte>)
    requires |inputs| <= |types|
    ensures var cs := Written(fc, types, inputs); row == RowBytes(version, FilledOffsets(cs, |inputs|), Concat(cs))
    ensures FillsRight(|inputs|, |types|) ==> row == FullRow(version, Written(fc, types, inputs))
  {
    hide RowBytes, Concat, LateOffsets, RightOffsets, WriteBytes, EncodeField;
    var w := new RowWriter(types, version);
    ghost var all := Written(fc, types, inputs);
    for i := 0 to |inputs|
      invariant fresh(w) && w.types == types && w.version == version
      invariant w.Valid() && w.LayoutOk() && w.chunks == all[..i] && w.colNum == i
    {
      w.Write(fc, inputs[i]);
    }
    row := w.EncodeTo([]);
    assert w.chunks == all;
    RightPrefix(all[..|inputs|], all[|inputs|..], |inputs|);
    assert all[..|inputs|] + all[|inputs|..] == all;
  }

  /** The block offsets of a row whose first c columns were written and the others skipped. */
  ghost function FilledOffsets(cs: seq<seq<byte>>, c: nat): seq<nat>
    requires c <= |cs|
  {
    RightOffsets(cs, c) + LateOffsets(cs, c, |cs|)
  }

  /** The condition under which filling in keeps the offsets right. */
  ghost predicate FillsRight(written: nat, numFields: nat) {
    written == numFields || !exists q :: Boundary(q, written, numFields)
  }

  ghost function Written(fc: FloatCasts, types: seq<SupportedType>, inputs: seq<Value>): (cs: seq<seq<byte>>)
    requires |inputs| <= |types|
    ensures |cs| == |types|
  {
    seq(|types|, i requires 0 <= i < |types| =>
      if i < |inputs| then WriteBytes(fc, types[i], inputs[i]) else EncodeField(types[i], Default(types[i])))
  }

  lemma WrittenAreFields(fc: FloatCasts, types: seq<SupportedType>, inputs: seq<Value>, values: seq<Value>)
    requires AllStored(fc, types, inputs, values)
    ensures WellTyped(types, values) && Written(fc, types, inputs) == Fields(types, values)
  {
    forall i | 0 <= i < |types|
      ensures HasType(types[i], values[i]) && Written(fc, types, inputs)[i] == EncodeField(types[i], values[i])
    {
      if i < |inputs| {
        WriteStores(fc, types[i], inputs[i]);
      }
    }
  }

  /** A row with all its columns and the right block offsets. */
  ghost function FullRow(version: int64, cs: seq<seq<byte>>): seq<byte> {
    RowBytes(version, RightOffsets(cs, |cs|), Concat(cs))
  }

  /** Through its own accessor a field gives its value exactly if that is readable. */
  ghost predicate OwnReads(types: seq<SupportedType>, values: seq<Value>, asked: (Getter, nat), got: Got)
    requires WellTyped(types, values)
  {
    var i := asked.1;
    i < |types| && asked.0 == GetterOf(types[i]) ==> (Reads(got, values[i]) <==> Readable(types[i], values[i]))
  }

  lemma ExpectedOwn(fc: FloatCasts, types: seq<SupportedType>, values: seq<Value>, asked: (Getter, nat))
    requires WellTyped(types, values)
    ensures OwnReads(types, values, asked, RR.Expected(fc, asked.0, asked.1, types, values))
  {
    if asked.1 < |types| {
      ReadableIff(fc, types[asked.1], values[asked.1]);
    }
  }

  /** Opening a full row and reading any fields through any accessors in any order: every read
      gives what the accessor gives of the stored value. */
  method ReadBack(fc: FloatCasts, types: seq<SupportedType>, row: seq<byte>, asked: seq<(Getter, nat)>,
                  ghost version: int64, ghost values: seq<Value>) returns (out: seq<Got>)
    requires WellTyped(types, values) && row == FullRow(version, Fields(types, values))
    requires 0 <= version < TWO_32 && |Concat(Fields(types, values))| < TWO_63
    ensures |out| == |asked|
    ensures forall k :: 0 <= k < |asked| ==> OwnReads(types, values, asked[k], out[k])
    ensures forall k :: 0 <= k < |asked| ==> out[k] == RR.Expected(fc, asked[k].0, asked[k].1, types, values)
  {
    ghost var cs := Fields(types, values);
    OffsetsWithin(cs);
    RowParses(version, RightOffsets(cs, |cs|), Concat(cs), |types|);
    var reader := Open(row, types);
    out := reader.ReadAll(fc, asked, values);
    forall k | 0 <= k < |asked|
      ensures OwnReads(types, values, asked[k], out[k])
    {
      ExpectedOwn(fc, types, values, asked[k]);
    }
  }

  /** Through the accessor of its column a value that was written comes back as it is, if it has the
      type of the column and does not take 2^31 bytes; a column that was not written gives zero. */
  ghost predicate ComesBack(types: seq<SupportedType>, inputs: seq<Value>, asked: (Getter, nat), got: Got) {
    var i := asked.1;
    i < |types| && asked.0 == GetterOf(types[i]) ==>
      (i < |inputs| && HasType(types[i], inputs[i]) && |EncodeField(types[i], inputs[i])| < TWO_31 ==>
        Reads(got, inputs[i])) &&
      (i >= |inputs| ==> got.Got? && HasType(types[i], got.value) && IsZero(types[i], got.value))
  }

  lemma BackAgain(fc: FloatCasts, types: seq<SupportedType>, inputs: seq<Value>, values: seq<Value>,
                  asked: (Getter, nat))
    requires AllStored(fc, types, inputs, values) && WellTyped(types, values)
    ensures ComesBack(types, inputs, asked, RR.Expected(fc, asked.0, asked.1, types, values))
  {
    hide EncodeField, Reading;
    var i := asked.1;
    if i < |types| {
      ReadableIff(fc, types[i], values[i]);
      DefaultIsZero(types[i]);
      if i < |inputs| {
        StoredOwn(fc, types[i], inputs[i]);
      }
    }
  }

  /** Write the first columns of a row, open it, and read: the round trip. The columns not written
      give their defaults, if no sixteenth column is among them or next to them. */
  method WriteThenRead(fc: FloatCasts, types: seq<SupportedType>, version: int64, inputs: seq<Value>,
                       asked: seq<(Getter, nat)>, ghost values: seq<Value>) returns (out: seq<Got>)
    requires AllStored(fc, types, inputs, values) && FillsRight(|inputs|, |types|) && 0 <= version < TWO_32
    requires |Concat(Written(fc, types, inputs))| < TWO_63
    ensures WellTyped(types, values) && |out| == |asked|
    ensures forall k :: 0 <= k < |asked| ==> OwnReads(types, values, asked[k], out[k])
    ensures forall k :: 0 <= k < |asked| ==> out[k] == RR.Expected(fc, asked[k].0, asked[k].1, types, values)
    ensures forall k :: 0 <= k < |asked| ==> ComesBack(types, inputs, asked[k], out[k])
  {
    forall k | 0 <= k < |asked|
      ensures ComesBack(types, inputs, asked[k], RR.Expected(fc, asked[k].0, asked[k].1, types, values))
    {
      BackAgain(fc, types, inputs, values, asked[k]);
    }
    hide ComesBack;
    WrittenAreFields(fc, types, inputs, values);
    var row := WriteRow(fc, types, version, inputs);
    out := ReadBack(fc, types, row, asked, version, values);
  }

  // ----- a row that stops short of a block -----

  /** A row of 16 * q columns of which the last block was not finished lacks an offset. */
  lemma LacksOffset(cs: seq<seq<byte>>, c: nat, q: nat)
    requires |cs| == 16 * q && 16 * q < c + 16 && c < 16 * q
    ensures FilledOffsets(cs, c) == RightOffsets(cs, c) && |RightOffsets(cs, c)| == q - 1
  {
    LateFirst(cs, c, |cs|);
    assert 16 * (q - 1) < c < 16 * q;
  }

  lemma OccupiedAtMost(v: nat)
    requires 0 < v < TWO_64
    ensures OccupiedBytes(v) <= v
  {
    assert Pow256(8) == TWO_64 && Pow256(1) == 256;
    if v < 256 {
      OccupiedWithin(v, 1);
    } else {
      OccupiedWithin(v, 8);
    }
  }

  /** The reader takes the missing offset from the data, and the data to start behind it. */
  lemma LackingParses(version: int64, os: seq<nat>, data: seq<byte>, numFields: nat)
    requires 0 <= version < TWO_32 && 0 < |data| < TWO_64 && |os| + 1 == numFields / 16
    requires forall k :: 0 <= k < |os| ==> os[k] <= |data|
    ensures var row, n := RowBytes(version, os, data), OccupiedBytes(|data|);
      n <= |data| && HeaderFits(row, numFields) && row[|row| - |data| + n..] == data[n..] &&
      HeaderOf(row, numFields) == Header(|row| - |data| + n, [0] + os + [FromLE(data[..n])])
  {
    hide RowBytes, OccupiedBytes, FromLE, OffsetBytes, Offsets, Pow256, OffsetWidth, VersionWidth, Times;
    hide HeaderFits, HeaderOf;
    var n := OccupiedBytes(|data|);
    RowWidths(version, os, data);
    OccupiedAtMost(|data|);
    OffsetsLacking(os, n, data);
    BehindVersion(version, os, data);
    LackingHeader(RowBytes(version, os, data), OffsetBytes(os, n) + data, os, data, numFields);
  }

  /** What lies behind the version of a row. */
  lemma BehindVersion(version: int64, os: seq<nat>, data: seq<byte>)
    requires 0 <= version
    ensures var row, bs := RowBytes(version, os, data), OffsetBytes(os, OccupiedBytes(|data|)) + data;
      |row| == 1 + VersionBytes(version) + |bs| && row[1 + VersionBytes(version)..] == bs &&
      bs[|bs| - |data|..] == data
  {
    hide OccupiedBytes, LE, OffsetBytes, HeaderByte, Times;
    var n, vb := OccupiedBytes(|data|), VersionBytes(version);
    RowSlices(HeaderByte(n, vb), LE(version, vb), OffsetBytes(os, n), data);
  }

  lemma LackingHeader(row: seq<byte>, bs: seq<byte>, os: seq<nat>, data: seq<byte>, numFields: nat)
    requires 0 < |row| && |os| + 1 == numFields / 16 && 1 + VersionWidth(row) <= |row|
    requires row[1 + VersionWidth(row)..] == bs && row[|row| - |bs|..] == bs && |data| <= |bs| <= |row|
    requires var n := OffsetWidth(row);
      n <= |data| && |bs| == Times(|os|, n) + |data| && Times(|os| + 1, n) == Times(|os|, n) + n &&
      bs[Times(|os|, n)..] == data &&
      [0] + Offsets(bs, n, |os| + 1) == [0] + os + [FromLE(data[..n])]
    ensures var n := OffsetWidth(row);
      HeaderFits(row, numFields) && row[|row| - |data| + n..] == data[n..] &&
      HeaderOf(row, numFields) == Header(|row| - |data| + n, [0] + os + [FromLE(data[..n])])
  {
    hide Offsets, FromLE, Times, HeaderFits, HeaderOf, OffsetWidth, VersionWidth;
    HeaderFrom(row, bs, numFields);
    assert row[|row| - |data|..] == data;
    Behind(row, data, OffsetWidth(row));
  }

  lemma HeaderFrom(row: seq<byte>, bs: seq<byte>, numFields: nat)
    requires 0 < |row| && 1 + VersionWidth(row) <= |row| && row[1 + VersionWidth(row)..] == bs
    requires Times(numFields / 16, OffsetWidth(row)) <= |bs|
    ensures var count, width := numFields / 16, OffsetWidth(row);
      HeaderFits(row, numFields) &&
      HeaderOf(row, numFields) == Header(1 + VersionWidth(row) + Times(count, width), [0] + Offsets(bs, width, count))
  {
  }

  lemma Behind(row: seq<byte>, data: seq<byte>, n: nat)
    requires n <= |data| <= |row| && row[|row| - |data|..] == data
    ensures row[|row| - |data| + n..] == data[n..]
  {
    assert row[|row| - |data| + n..] == row[|row| - |data|..][n..];
  }

  lemma OffsetsLacking(os: seq<nat>, n: nat, data: seq<byte>)
    requires n <= |data| && forall k :: 0 <= k < |os| ==> os[k] < Pow256(n)
    ensures Times(|os| + 1, n) == Times(|os|, n) + n
    ensures [0] + Offsets(OffsetBytes(os, n) + data, n, |os| + 1) == [0] + os + [FromLE(data[..n])]
  {
    hide LE, FromLE, Pow256, OffsetBytes;
    OffsetsParse(os, n, data);
    var bs, p := OffsetBytes(os, n) + data, Times(|os|, n);
    assert bs[p..p + n] == data[..n];
  }

  lemma {:induction false} Singles(cs: seq<seq<byte>>)
    requires forall i :: 0 <= i < |cs| ==> |cs[i]| == 1
    ensures |Concat(cs)| == |cs| && forall i :: 0 <= i < |cs| ==> Concat(cs)[i] == cs[i][0]
  {
    if cs != [] {
      Singles(cs[..|cs| - 1]);
    }
  }

  lemma ShortBytes(fc: FloatCasts, types: seq<SupportedType>, inputs: seq<Value>)
    requires |types| == 16 && |inputs| == 15
    requires forall i :: 0 <= i < 16 ==> types[i] == BOOL
    requires forall i :: 0 <= i < 15 ==> inputs[i].BoolV?
    ensures var data := Concat(Written(fc, types, inputs));
      |data| == 16 && data[1] == BoolByte(inputs[1].b) && OccupiedBytes(|data|) == 1
  {
    hide Concat, OccupiedBytes;
    Singles(Written(fc, types, inputs));
    assert 16 < Pow256(1);
    OccupiedWithin(16, 1);
    OccupiedLeast(16);
  }

  /** So with 15 of 16 boolean columns written, the first one read gives the second one written. */
  method ReadShort(fc: FloatCasts, types: seq<SupportedType>, version: int64, inputs: seq<Value>) returns (r: Got)
    requires |types| == 16 && |inputs| == 15 && 0 <= version < TWO_32
    requires forall i :: 0 <= i < 16 ==> types[i] == BOOL
    requires forall i :: 0 <= i < 15 ==> inputs[i].BoolV?
    ensures r == Got(inputs[1], 1)
  {
    hide Written, Concat, RowBytes, HeaderOf, HeaderFits, FilledOffsets, RightOffsets, OccupiedBytes, FromLE;
    var row := WriteRow(fc, types, version, inputs);
    ghost var cs := Written(fc, types, inputs);
    LacksOffset(cs, 15, 1);
    ShortBytes(fc, types, inputs);
    LackingParses(version, [], Concat(cs), 16);
    var reader := Open(row, types);
    r := reader.GetField(fc, GetBool, 0);
  }
}
