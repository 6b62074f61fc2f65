/** Writing a row: appended fields, block offsets every sixteen fields, packed header. */
module RowWriter {
  import opened Bytes
  import opened RowFormat
  import opened RowLayout

  /** The bytes one stream operator appends for a value in a column of type t; a value of the
      wrong kind appends a default of its own kind. */
  function WriteBytes(fc: FloatCasts, t: SupportedType, v: Value): (bs: seq<byte>)
    ensures |bs| > 0
  {
    match v
    case BoolV(b) => [BoolByte(t.BOOL? && b)]
    case FloatV(f) => if t.FLOAT? then f else if t.DOUBLE? then fc.widen(f) else ZERO32
    case DoubleV(d) => if t.FLOAT? then fc.narrow(d) else if t.DOUBLE? then d else ZERO64
    case StrV(s) => if t.STRING? then Varint(|s|) + s else Varint(0)
    case IntV(i) =>
      if t.INT? || t.TIMESTAMP? then Varint(Unsigned(i))
      else if t.VID? then LE(Unsigned(i), 8)
      else Varint(0)
  }

  /** The value a column of type t holds after a write, if the appended bytes are a field of t at all. */
  function Stored(fc: FloatCasts, t: SupportedType, v: Value): (u: Option<Value>)
    ensures u.Some? ==> HasType(t, u.value)
  {
    match v
    case FloatV(f) => if t.FLOAT? then Some(v) else if t.DOUBLE? then Some(DoubleV(fc.widen(f))) else None
    case DoubleV(d) =>
      if t.FLOAT? then Some(FloatV(fc.narrow(d))) else if t.DOUBLE? then Some(v)
      else if t.VID? then Some(IntV(0)) else None
    case _ =>
      if HasType(t, v) then Some(v)
      else if t.BOOL? || t.INT? || t.TIMESTAMP? || t.STRING? then Some(Default(t))
      else None
  }

  function Default(t: SupportedType): (v: Value)
    ensures HasType(t, v)
  {
    match t
    case BOOL => BoolV(false)
    case INT => IntV(0)
    case TIMESTAMP => IntV(0)
    case VID => IntV(0)
    case FLOAT => FloatV(ZERO32)
    case DOUBLE => DoubleV(ZERO64)
    case STRING => StrV([])
  }

  /** A value of the column's type is stored as it is, a float or double converted, and any other as
      zero, if it can be read at all. */
  lemma StoredOwn(fc: FloatCasts, t: SupportedType, v: Value)
    ensures HasType(t, v) ==> Stored(fc, t, v) == Some(v)
    ensures t.DOUBLE? && v.FloatV? ==> Stored(fc, t, v) == Some(DoubleV(fc.widen(v.f)))
    ensures t.FLOAT? && v.DoubleV? ==> Stored(fc, t, v) == Some(FloatV(fc.narrow(v.d)))
    ensures !HasType(t, v) && !(t.DOUBLE? && v.FloatV?) && !(t.FLOAT? && v.DoubleV?) && Stored(fc, t, v).Some? ==>
      IsZero(t, Stored(fc, t, v).value)
  {
  }

  /** The value of a column that is skipped: false, zero, zero bytes, or no bytes. */
  predicate IsZero(t: SupportedType, v: Value)
    requires HasType(t, v)
  {
    match v
    case BoolV(b) => !b
    case IntV(i) => i == 0
    case FloatV(f) => f == [0, 0, 0, 0]
    case DoubleV(d) => d == [0, 0, 0, 0, 0, 0, 0, 0]
    case StrV(s) => s == []
  }

  lemma DefaultIsZero(t: SupportedType)
    ensures IsZero(t, Default(t)) && Readable(t, Default(t))
  {
  }

  lemma ZeroVid()
    ensures LE(0, 8) == ZERO64
  {
    assert LE(0, 7) == [0] + LE(0, 6);
    assert LE(0, 5) == [0] + LE(0, 4);
    assert LE(0, 3) == [0] + LE(0, 2);
    assert LE(0, 1) == [0] + LE(0, 0);
  }

  /** A mistyped write stays readable exactly when its default has the width of the column's type. */
  lemma WriteStores(fc: FloatCasts, t: SupportedType, v: Value)
    ensures Stored(fc, t, v).Some? ==> WriteBytes(fc, t, v) == EncodeField(t, Stored(fc, t, v).value)
    ensures Stored(fc, t, v).None? ==> forall u :: HasType(t, u) ==> WriteBytes(fc, t, v) != EncodeField(t, u)
  {
    ZeroVid();
    if Stored(fc, t, v).None? {
      forall u | HasType(t, u)
        ensures WriteBytes(fc, t, v) != EncodeField(t, u)
      {
        VarintLength(t, v, u, fc);
      }
    }
  }

  lemma VarintLength(t: SupportedType, v: Value, u: Value, fc: FloatCasts)
    requires Stored(fc, t, v).None? && HasType(t, u)
    ensures WriteBytes(fc, t, v) != EncodeField(t, u)
  {
    if v.FloatV? || v.DoubleV? {
      var zeros := WriteBytes(fc, t, v);
      assert zeros[0] == 0 && |zeros| > 1;
      match t
      case INT => ZeroVarint(Unsigned(u.i));
      case TIMESTAMP => ZeroVarint(Unsigned(u.i));
      case STRING => ZeroVarint(|u.s|);
      case _ =>
    }
  }

  /** A varint whose first byte is zero is that byte alone. */
  lemma ZeroVarint(v: nat)
    ensures Varint(v)[0] == 0 ==> v == 0 && Varint(v) == [0]
  {
  }

  // ----- block offsets -----

  /** What a row of c fields must have recorded: the start of each sixteenth field. */
  ghost function RightOffsets(cs: seq<seq<byte>>, c: nat): (os: seq<nat>)
    requires c <= |cs|
    ensures |os| == c / 16 && forall k :: 0 <= k < |os| ==> os[k] == Start(cs, 16 * (k + 1))
  {
    seq(c / 16, k requires 0 <= k < c / 16 => Start(cs, 16 * (k + 1)))
  }

  /** What Skip records for columns c to m: for each sixteenth column the end of that column. */
  ghost function LateOffsets(cs: seq<seq<byte>>, c: nat, m: nat): seq<nat>
    requires c <= m <= |cs|
  {
    if c == m then []
    else LateOffsets(cs, c, m - 1) + if m - 1 != 0 && (m - 1) % 16 == 0 then [Start(cs, m)] else []
  }

  ghost predicate Boundary(q: int, c: nat, m: nat) {
    1 <= q && c <= 16 * q <= m
  }

  lemma {:induction false} LateFirst(cs: seq<seq<byte>>, c: nat, m: nat)
    requires c <= m <= |cs|
    ensures LateOffsets(cs, c, m) != [] ==>
      exists x :: c <= x < m && x % 16 == 0 && LateOffsets(cs, c, m)[0] == Start(cs, x + 1)
    ensures forall q :: Boundary(q, c, m) && 16 * q < m ==> LateOffsets(cs, c, m) != []
    ensures LateOffsets(cs, c, m) != [] ==> exists q :: Boundary(q, c, m)
  {
    if c < m {
      LateFirst(cs, c, m - 1);
      var before := LateOffsets(cs, c, m - 1);
      if m - 1 != 0 && (m - 1) % 16 == 0 {
        assert Boundary((m - 1) / 16, c, m);
        if before == [] {
          assert LateOffsets(cs, c, m)[0] == Start(cs, m - 1 + 1);
        }
      }
      if before != [] {
        var q :| Boundary(q, c, m - 1);
        assert Boundary(q, c, m);
      }
      forall q | Boundary(q, c, m) && 16 * q < m
        ensures LateOffsets(cs, c, m) != []
      {
        if 16 * q < m - 1 {
          assert Boundary(q, c, m - 1);
        } else {
          assert (m - 1) % 16 == 0;
        }
      }
    }
  }

  /** Skipping keeps the offsets right exactly when no sixteenth column lies in the skipped range, ends included. */
  lemma SkipLayoutIff(cs: seq<seq<byte>>, c: nat, m: nat)
    requires c < m <= |cs| && forall k :: 0 <= k < |cs| ==> |cs[k]| > 0
    ensures RightOffsets(cs, c) + LateOffsets(cs, c, m) == RightOffsets(cs, m) <==> !exists q :: Boundary(q, c, m)
  {
    hide LateOffsets, Start;
    var late := LateOffsets(cs, c, m);
    LateFirst(cs, c, m);
    SameBlock(c, m);
    if exists q :: Boundary(q, c, m) {
      var q :| Boundary(q, c, m);
      if late != [] {
        LateDiffers(cs, c, m, late);
      } else {
        assert 16 * q == m;
      }
    }
  }

  lemma SameBlock(c: nat, m: nat)
    requires c <= m
    ensures c / 16 == m / 16 || Boundary(m / 16, c, m)
  {
  }

  lemma LateDiffers(cs: seq<seq<byte>>, c: nat, m: nat, late: seq<nat>)
    requires c < m <= |cs| && (forall k :: 0 <= k < |cs| ==> |cs[k]| > 0) && late != []
    requires exists x :: c <= x < m && x % 16 == 0 && late[0] == Start(cs, x + 1)
    ensures RightOffsets(cs, c) + late != RightOffsets(cs, m)
  {
    hide Start;
    var x :| c <= x < m && x % 16 == 0 && late[0] == Start(cs, x + 1);
    var y := 16 * (c / 16 + 1);
    assert (RightOffsets(cs, c) + late)[c / 16] == Start(cs, x + 1);
    if m / 16 > c / 16 {
      assert RightOffsets(cs, m)[c / 16] == Start(cs, y);
      if x + 1 < y { StartsIncrease(cs, x + 1, y); } else { StartsIncrease(cs, y, x + 1); }
    }
  }

  // ----- header -----

  /** The number of bytes a value occupies, leading zeros ignored, at least one. */
  function OccupiedBytes(v: nat): (n: nat)
    ensures n > 0
  {
    if v < 256 then 1 else 1 + OccupiedBytes(v / 256)
  }

  /** calcOccupiedBytes: the loop. */
  method CalcOccupiedBytes(v: nat) returns (bytes: nat)
    ensures bytes == OccupiedBytes(v)
  {
    bytes := 1;
    var rest := v / 256;
    while rest != 0
      invariant 0 <= rest
      invariant OccupiedBytes(v) == if rest == 0 then bytes else bytes + OccupiedBytes(rest)
    {
      bytes := bytes + 1;
      rest := rest / 256;
    }
  }

  /** It is the least number of bytes the value fits in. */
  lemma {:induction false} OccupiedLeast(v: nat)
    ensures v < Pow256(OccupiedBytes(v))
    ensures OccupiedBytes(v) > 1 ==> Pow256(OccupiedBytes(v) - 1) <= v
  {
    if v >= 256 {
      OccupiedLeast(v / 256);
    }
  }

  lemma {:induction false} OccupiedMonotone(v: nat, w: nat)
    requires v <= w
    ensures OccupiedBytes(v) <= OccupiedBytes(w)
  {
    if v >= 256 {
      OccupiedMonotone(v / 256, w / 256);
    }
  }

  lemma {:induction false} Pow256Monotone(m: nat, n: nat)
    requires m <= n
    ensures Pow256(m) <= Pow256(n)
  {
    if m < n {
      Pow256Monotone(m, n - 1);
    }
  }

  lemma OccupiedWithin(v: nat, n: nat)
    requires n > 0 && v < Pow256(n)
    ensures OccupiedBytes(v) <= n
  {
    OccupiedLeast(v);
    if OccupiedBytes(v) > n {
      Pow256Monotone(n, OccupiedBytes(v) - 1);
      assert false;
    }
  }

  /** Bytes of the schema version, none for versions that are not positive. */
  function VersionBytes(version: int64): nat {
    if version > 0 then OccupiedBytes(version) else 0
  }

  /** offsetBytes - 1 in the low three bits, verBytes in the high three, in one char. */
  function HeaderByte(offsetBytes: nat, verBytes: nat): byte
    requires 1 <= offsetBytes
  {
    (offsetBytes - 1 + 32 * verBytes) % 256
  }

  /** The block offsets, each cut to n bytes. */
  function OffsetBytes(os: seq<nat>, n: nat): (bs: seq<byte>)
    ensures |bs| == Times(|os|, n)
  {
    if os == [] then []
    else OffsetBytes(os[..|os| - 1], n) + LE(os[|os| - 1], n)
  }

  /** The encoded row: header, version, block offsets, data. */
  function RowBytes(version: int64, os: seq<nat>, data: seq<byte>): (bs: seq<byte>)
    ensures |bs| == 1 + VersionBytes(version) + Times(|os|, OccupiedBytes(|data|)) + |data|
  {
    var n := OccupiedBytes(|data|);
    var vb := VersionBytes(version);
    [HeaderByte(n, vb)] + LE(if version > 0 then version else 0, vb) + OffsetBytes(os, n) + data
  }

  class RowWriter {
    const types: seq<SupportedType>
    const version: int64
    var cord: seq<byte>
    var colNum: nat
    var blockOffsets: seq<nat>
    /** The bytes of each column written so far. */
    ghost var chunks: seq<seq<byte>>

    ghost predicate Valid()
      reads this
    {
      colNum == |chunks| <= |types| && cord == Concat(chunks) &&
      forall k :: 0 <= k < |chunks| ==> |chunks[k]| > 0
    }

    /** One block offset per sixteen columns, each the start of a sixteenth column. */
    ghost predicate LayoutOk()
      requires Valid()
      reads this
    {
      blockOffsets == RightOffsets(chunks, colNum)
    }

    constructor (types: seq<SupportedType>, version: int64)
      ensures this.types == types && this.version == version && colNum == 0 && chunks == []
      ensures Valid() && LayoutOk()
    {
      this.types, this.version := types, version;
      cord, colNum, blockOffsets, chunks := [], 0, [], [];
    }

    /** The value stream operators (RW_GET_COLUMN_TYPE to RW_CLEAN_UP_WRITE). */
    method Write(fc: FloatCasts, v: Value)
      requires Valid() && colNum < |types|
      modifies this
      ensures Valid() && chunks == old(chunks) + [WriteBytes(fc, types[old(colNum)], v)]
      ensures old(LayoutOk()) ==> LayoutOk()
    {
      var bs := WriteBytes(fc, types[colNum], v);
      ghost var before := chunks;
      chunks := chunks + [bs];
      AppendChunk(before, bs);
      cord := cord + bs;
      colNum := colNum + 1;
      if colNum != 0 && colNum % 16 == 0 {
        blockOffsets := blockOffsets + [|cord|];
      }
    }

    /** The Skip control: defaults for the next columns, block offsets recorded as the loop does. */
    method Skip(toSkip: int)
      requires Valid()
      modifies this
      ensures Valid()
      ensures colNum == if toSkip <= 0 then old(colNum)
                        else if old(colNum) + toSkip < |types| then old(colNum) + toSkip else |types|
      ensures chunks == old(chunks) + Defaults(types[old(colNum)..colNum])
      ensures blockOffsets == old(blockOffsets) + LateOffsets(chunks, old(colNum), colNum)
      ensures old(LayoutOk()) && colNum > old(colNum) ==>
        (LayoutOk() <==> !exists q :: Boundary(q, old(colNum), colNum))
    {
      if toSkip <= 0 {
        return;
      }
      var skipTo := if colNum + toSkip < |types| then colNum + toSkip else |types|;
      SkipColumns(skipTo);
      if colNum > old(colNum) {
        SkipLayoutIff(chunks, old(colNum), colNum);
        RightPrefix(old(chunks), Defaults(types[old(colNum)..colNum]), old(colNum));
      }
    }

    /** size(): the length of the row as it stands. */
    method Size() returns (r: nat)
      ensures r == |RowBytes(version, blockOffsets, cord)|
    {
      var offsetBytes := CalcOccupiedBytes(|cord|);
      var verBytes := 0;
      if version > 0 {
        verBytes := CalcOccupiedBytes(version);
      }
      TimesIsProduct(|blockOffsets|, offsetBytes);
      r := |cord| + offsetBytes * |blockOffsets| + verBytes + 1;
    }

    /** Lines 54-74 of RowWriter.cpp: append header, version, block offsets and data. */
    method AppendRow(encoded: seq<byte>) returns (r: seq<byte>)
      ensures r == encoded + RowBytes(version, blockOffsets, cord)
    {
      hide OccupiedBytes, LE, HeaderByte, OffsetBytes;
      var offsetBytes := CalcOccupiedBytes(|cord|);
      if version > 0 {
        var verBytes := CalcOccupiedBytes(version);
        r := encoded + [HeaderByte(offsetBytes, verBytes)] + LE(version, verBytes);
      } else {
        r := encoded + [HeaderByte(offsetBytes, 0)] + LE(0, 0);
      }
      var offsets := AppendOffsets(offsetBytes);
      r := r + offsets;
      r := r + cord;
    }

    /** Lines 69-72 of RowWriter.cpp: the block offsets, each cut to the same width. */
    method AppendOffsets(offsetBytes: nat) returns (r: seq<byte>)
      ensures r == OffsetBytes(blockOffsets, offsetBytes)
    {
      hide LE;
      r := [];
      for i := 0 to |blockOffsets|
        invariant r == OffsetBytes(blockOffsets[..i], offsetBytes)
      {
        r := r + LE(blockOffsets[i], offsetBytes);
        assert blockOffsets[..i + 1][..i] == blockOffsets[..i];
      }
      assert blockOffsets[..|blockOffsets|] == blockOffsets;
    }

    /** encodeTo: the missing columns are skipped first, so the size taken before is the length
        appended exactly when no column was missing. */
    method EncodeTo(encoded: seq<byte>) returns (r: seq<byte>)
      requires Valid()
      modifies this
      ensures Valid() && colNum == |types| && chunks == old(chunks) + Defaults(types[old(colNum)..])
      ensures r == encoded + RowBytes(version, blockOffsets, cord)
      ensures blockOffsets == old(blockOffsets) + LateOffsets(chunks, old(colNum), |types|)
      ensures old(LayoutOk()) ==>
        (LayoutOk() <==> old(colNum) == |types| || !exists q :: Boundary(q, old(colNum), |types|))
      ensures old(colNum) == |types| ==> |r| == |encoded| + old(|RowBytes(version, blockOffsets, cord)|)
      ensures old(colNum) < |types| ==> |r| > |encoded| + old(|RowBytes(version, blockOffsets, cord)|)
    {
      hide RowBytes, LateOffsets, Concat, RightOffsets, Start;
      ghost var cs, os, data := chunks, blockOffsets, cord;
      Skip(|types| - colNum);
      assert types[old(colNum)..colNum] == types[old(colNum)..];
      if old(colNum) == |types| {
        LateNone(chunks, colNum);
        assert Defaults(types[old(colNum)..]) == [];
        assert chunks == cs && blockOffsets == os;
      } else {
        SizeGrows(version, os, data, blockOffsets, cord, cs, chunks);
      }
      r := AppendRow(encoded);
    }

    /** Lines 222-260 of RowWriter.cpp. */
    method SkipColumns(skipTo: nat)
      requires Valid() && colNum <= skipTo <= |types|
      modifies this
      ensures Valid() && colNum == skipTo
      ensures chunks == old(chunks) + Defaults(types[old(colNum)..skipTo])
      ensures blockOffsets == old(blockOffsets) + LateOffsets(chunks, old(colNum), skipTo)
    {
      hide Concat, LateOffsets, RightOffsets, EncodeField, Start;
      ghost var c := colNum;
      var i := colNum;
      LateNone(chunks, c);
      while i < skipTo
        invariant c <= i <= skipTo && |chunks| == i && cord == Concat(chunks) && colNum == c
        invariant forall k :: 0 <= k < |chunks| ==> |chunks[k]| > 0
        invariant chunks == old(chunks) + Defaults(types[c..i])
        invariant blockOffsets == old(blockOffsets) + LateOffsets(chunks, c, i)
      {
        var bs := EncodeField(types[i], Default(types[i]));
        ghost var before := chunks;
        chunks := chunks + [bs];
        AppendChunk(before, bs);
        cord := cord + bs;
        LateNext(before, bs, c);
        if i != 0 && i % 16 == 0 {
          // recorded after the column has been written
          blockOffsets := blockOffsets + [|cord|];
        }
        assert types[c..i + 1] == types[c..i] + [types[i]];
        i := i + 1;
      }
      colNum := skipTo;
    }
  }

  function Defaults(types: seq<SupportedType>): (cs: seq<seq<byte>>)
    ensures |cs| == |types| && forall i :: 0 <= i < |types| ==> cs[i] == EncodeField(types[i], Default(types[i]))
  {
    seq(|types|, i requires 0 <= i < |types| => EncodeField(types[i], Default(types[i])))
  }

  lemma AppendChunk(cs: seq<seq<byte>>, bs: seq<byte>)
    ensures Concat(cs + [bs]) == Concat(cs) + bs
    ensures Start(cs + [bs], |cs| + 1) == |Concat(cs)| + |bs|
    ensures RightOffsets(cs + [bs], |cs|) == RightOffsets(cs, |cs|)
  {
    assert (cs + [bs])[..|cs|] == cs;
    assert (cs + [bs])[..|cs| + 1] == cs + [bs];
    RightPrefix(cs, [bs], |cs|);
  }

  lemma RightPrefix(cs: seq<seq<byte>>, more: seq<seq<byte>>, c: nat)
    requires c <= |cs|
    ensures RightOffsets(cs + more, c) == RightOffsets(cs, c)
  {
    forall k | 0 <= k < c / 16
      ensures RightOffsets(cs + more, c)[k] == RightOffsets(cs, c)[k]
    {
      StartPrefix(cs, more, 16 * (k + 1));
    }
  }

  lemma LateNone(cs: seq<seq<byte>>, c: nat)
    requires c <= |cs|
    ensures LateOffsets(cs, c, c) == []
  {
  }

  lemma LateNext(cs: seq<seq<byte>>, bs: seq<byte>, c: nat)
    requires c <= |cs|
    ensures LateOffsets(cs + [bs], c, |cs| + 1) ==
      LateOffsets(cs, c, |cs|) + if |cs| != 0 && |cs| % 16 == 0 then [|Concat(cs)| + |bs|] else []
  {
    LatePrefix(cs, bs, c, |cs|);
    AppendChunk(cs, bs);
  }

  lemma {:induction false} LatePrefix(cs: seq<seq<byte>>, bs: seq<byte>, c: nat, m: nat)
    requires c <= m <= |cs|
    ensures LateOffsets(cs + [bs], c, m) == LateOffsets(cs, c, m)
  {
    if c < m {
      LatePrefix(cs, bs, c, m - 1);
      StartPrefix(cs, [bs], m);
    }
  }

  /** Appending columns makes the encoded row longer. */
  lemma SizeGrows(version: int64, os: seq<nat>, data: seq<byte>, os': seq<nat>, data': seq<byte>,
                  cs: seq<seq<byte>>, cs': seq<seq<byte>>)
    requires data == Concat(cs) && data' == Concat(cs') && |os| <= |os'|
    requires |cs| < |cs'| && cs <= cs' && forall k :: 0 <= k < |cs'| ==> |cs'[k]| > 0
    ensures |RowBytes(version, os, data)| < |RowBytes(version, os', data')|
  {
    StartsIncrease(cs', |cs|, |cs'|);
    assert cs'[..|cs|] == cs && cs'[..|cs'|] == cs';
    OccupiedMonotone(|data|, |data'|);
    hide RowBytes, OccupiedBytes, Concat;
    TimesMonotone(|os|, OccupiedBytes(|data|), |os'|, OccupiedBytes(|data'|));
  }
}
