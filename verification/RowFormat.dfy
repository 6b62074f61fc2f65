/** The bytes of one field: what the row writer appends for a value and what the
    row reader skips or reads back. */
module RowFormat {
  import opened Bytes

  datatype SupportedType = BOOL | INT | TIMESTAMP | FLOAT | DOUBLE | STRING | VID

  /** Floating-point numbers are kept as their bytes. */
  type Float32 = b: seq<byte> | |b| == 4 witness [0, 0, 0, 0]
  type Float64 = b: seq<byte> | |b| == 8 witness [0, 0, 0, 0, 0, 0, 0, 0]

  /** The machine's conversions between the two widths. */
  datatype FloatCasts = FloatCasts(widen: Float32 -> Float64, narrow: Float64 -> Float32)

  datatype Value =
    | BoolV(b: bool) | IntV(i: int64) | FloatV(f: Float32) | DoubleV(d: Float64) | StrV(s: seq<byte>)

  const ZERO32: Float32 := [0, 0, 0, 0]
  const ZERO64: Float64 := [0, 0, 0, 0, 0, 0, 0, 0]

  const E_NAME_NOT_FOUND := -1
  const E_INDEX_OUT_OF_RANGE := -2
  const E_INCOMPATIBLE_TYPE := -3
  const E_DATA_INVALID := -5

  predicate HasType(t: SupportedType, v: Value) {
    match t
    case BOOL => v.BoolV?
    case INT => v.IntV?
    case TIMESTAMP => v.IntV?
    case VID => v.IntV?
    case FLOAT => v.FloatV?
    case DOUBLE => v.DoubleV?
    case STRING => v.StrV?
  }

  function BoolByte(b: bool): byte {
    if b then 1 else 0
  }

  function EncodeField(t: SupportedType, v: Value): (bs: seq<byte>)
    requires HasType(t, v)
    ensures |bs| > 0
  {
    match t
    case BOOL => [BoolByte(v.b)]
    case INT => Varint(Unsigned(v.i))
    case TIMESTAMP => Varint(Unsigned(v.i))
    case VID => LE(Unsigned(v.i), 8)
    case FLOAT => v.f
    case DOUBLE => v.d
    case STRING => Varint(|v.s|) + v.s
  }

  // ----- reading -----

  function ReadInteger(data: seq<byte>, offset: nat): Option<(int64, nat)> {
    if offset > |data| then None
    else
      match DecodeVarint(data[offset..])
      case None => None
      case Some((v, len)) => Some((Signed(v % TWO_64), len))
  }

  function ReadFixed(data: seq<byte>, offset: nat, n: nat): (r: Option<seq<byte>>)
    ensures r.Some? ==> |r.value| == n
  {
    if offset + n > |data| then None else Some(data[offset..offset + n])
  }

  /** A string and the bytes its length and contents take, counted in 32 signed bits. */
  function ReadString(data: seq<byte>, offset: nat): Option<(seq<byte>, int)> {
    if offset > |data| then None
    else
      match DecodeVarint(data[offset..])
      case None => None
      case Some((strLen, intLen)) =>
        if offset + intLen + strLen > |data| then None
        else Some((data[offset + intLen..offset + intLen + strLen], ToInt32(intLen + strLen)))
  }

  /** skipToNext without the cache: the offset after a field of type t, or E_DATA_INVALID. */
  function SkipField(t: SupportedType, data: seq<byte>, offset: nat): (r: int)
    ensures r == E_DATA_INVALID || offset < r <= |data|
  {
    var next :=
      match t
      case BOOL => offset + 1
      case INT => (match ReadInteger(data, offset) case None => |data| + 1 case Some((_, len)) => offset + len)
      case TIMESTAMP => (match ReadInteger(data, offset) case None => |data| + 1 case Some((_, len)) => offset + len)
      case FLOAT => offset + 4
      case DOUBLE => offset + 8
      case VID => offset + 8
      case STRING =>
        (if offset > |data| then |data| + 1
         else match DecodeVarint(data[offset..])
              case None => |data| + 1
              case Some((strLen, intLen)) => offset + intLen + strLen);
    if offset < next <= |data| then next else E_DATA_INVALID
  }

  datatype Getter = GetBool | GetInt | GetFloat | GetDouble | GetString | GetVid

  /** What an accessor reports: a value and the bytes it took, success without a value, or a code. */
  datatype Got = Got(value: Value, len: nat) | GotUnset | GotErr(code: int)

  /** The spellings of true. */
  predicate StrToBool(s: seq<byte>) {
    s == [89] || s == [121] || s == [84] || s == [116] ||           // Y y T t
    s == [121, 101, 115] || s == [89, 101, 115] || s == [89, 69, 83] ||  // yes Yes YES
    s == [116, 114, 117, 101] || s == [84, 114, 117, 101] || s == [84, 82, 85, 69]  // true True TRUE
  }

  function Upper(b: byte): byte {
    if 97 <= b <= 122 then b - 32 else b
  }

  /** The word in lower case, with a capital, or in capitals. */
  predicate Spells(s: seq<byte>, word: seq<byte>) {
    |s| == |word| > 0 &&
    (s == word || s == [Upper(word[0])] + word[1..] || forall i :: 0 <= i < |s| ==> s[i] == Upper(word[i]))
  }

  /** True is spelled y, t, yes or true. */
  lemma StrToBoolIff(s: seq<byte>)
    ensures StrToBool(s) <==>
      Spells(s, [121]) || Spells(s, [116]) || Spells(s, [121, 101, 115]) || Spells(s, [116, 114, 117, 101])
  {
  }

  /** A string of count bytes read as u. A negative count is taken for an error code. The boolean
      accessor also returns a count of zero as its code, which is the code of success. */
  function Counted(g: Getter, u: Value, count: int): Got {
    if count > 0 || (count == 0 && g.GetString?) then Got(u, count)
    else if count == 0 then GotUnset
    else GotErr(count)
  }

  function GotInteger(data: seq<byte>, offset: nat): Got {
    match ReadInteger(data, offset)
    case None => GotErr(E_DATA_INVALID)
    case Some((v, len)) => Got(IntV(v), len)
  }

  /** The typed accessors: read the field of type t at the offset as the asked kind of value. */
  function Get(fc: FloatCasts, g: Getter, t: SupportedType, data: seq<byte>, offset: nat): Got {
    match g
    case GetBool =>
      if t.BOOL? then
        match ReadFixed(data, offset, 1)
        case None => GotErr(E_DATA_INVALID)
        case Some(bs) => Got(BoolV(bs[0] != 0), 1)
      else if t.INT? || t.TIMESTAMP? then
        match ReadInteger(data, offset)
        case None => GotErr(E_DATA_INVALID)
        case Some((v, len)) => Got(BoolV(v != 0), len)
      else if t.STRING? then
        match ReadString(data, offset)
        case None => GotErr(E_DATA_INVALID)
        case Some((s, count)) => Counted(g, BoolV(StrToBool(s)), count)
      else GotErr(E_INCOMPATIBLE_TYPE)
    case GetInt =>
      if t.INT? || t.TIMESTAMP? then GotInteger(data, offset) else GotErr(E_INCOMPATIBLE_TYPE)
    case GetVid =>
      if t.INT? then GotInteger(data, offset)
      else if t.VID? then
        match ReadFixed(data, offset, 8)
        case None => GotErr(E_DATA_INVALID)
        case Some(bs) => LEBelow(bs); assert Pow256(8) == TWO_64; Got(IntV(Signed(FromLE(bs))), 8)
      else GotErr(E_INCOMPATIBLE_TYPE)
    case GetFloat =>
      if t.FLOAT? then
        match ReadFixed(data, offset, 4)
        case None => GotErr(E_DATA_INVALID)
        case Some(bs) => Got(FloatV(bs), 4)
      else if t.DOUBLE? then
        match ReadFixed(data, offset, 8)
        case None => GotErr(E_DATA_INVALID)
        case Some(bs) => Got(FloatV(fc.narrow(bs)), 8)
      else GotErr(E_INCOMPATIBLE_TYPE)
    case GetDouble =>
      if t.FLOAT? then
        match ReadFixed(data, offset, 4)
        case None => GotErr(E_DATA_INVALID)
        case Some(bs) => Got(DoubleV(fc.widen(bs)), 4)
      else if t.DOUBLE? then
        match ReadFixed(data, offset, 8)
        case None => GotErr(E_DATA_INVALID)
        case Some(bs) => Got(DoubleV(bs), 8)
      else GotErr(E_INCOMPATIBLE_TYPE)
    case GetString =>
      if t.STRING? then
        match ReadString(data, offset)
        case None => GotErr(E_DATA_INVALID)
        case Some((s, count)) => Counted(g, StrV(s), count)
      else GotErr(E_INCOMPATIBLE_TYPE)
  }

  /** What a stored value looks like through an accessor, if it can be seen through it at all. */
  function View(fc: FloatCasts, g: Getter, t: SupportedType, v: Value): Option<Value>
    requires HasType(t, v)
  {
    match g
    case GetBool =>
      if t.BOOL? then Some(v)
      else if t.INT? || t.TIMESTAMP? then Some(BoolV(v.i != 0))
      else if t.STRING? then Some(BoolV(StrToBool(v.s)))
      else None
    case GetInt => if t.INT? || t.TIMESTAMP? then Some(v) else None
    case GetVid => if t.INT? || t.VID? then Some(v) else None
    case GetFloat => if t.FLOAT? then Some(v) else if t.DOUBLE? then Some(FloatV(fc.narrow(v.d))) else None
    case GetDouble => if t.FLOAT? then Some(DoubleV(fc.widen(v.f))) else if t.DOUBLE? then Some(v) else None
    case GetString => if t.STRING? then Some(v) else None
  }

  /** What an accessor gives of a stored value. */
  function Reading(fc: FloatCasts, g: Getter, t: SupportedType, v: Value): Got
    requires HasType(t, v)
  {
    match View(fc, g, t, v)
    case None => GotErr(E_INCOMPATIBLE_TYPE)
    case Some(u) =>
      if t.STRING? then Counted(g, u, ToInt32(|EncodeField(t, v)|)) else Got(u, |EncodeField(t, v)|)
  }

  /** The accessor that reads a type as it was written. */
  function GetterOf(t: SupportedType): Getter {
    match t
    case BOOL => GetBool
    case INT => GetInt
    case TIMESTAMP => GetInt
    case VID => GetVid
    case FLOAT => GetFloat
    case DOUBLE => GetDouble
    case STRING => GetString
  }

  lemma GetterSees(fc: FloatCasts, t: SupportedType, v: Value)
    requires HasType(t, v)
    ensures View(fc, GetterOf(t), t, v) == Some(v)
  {
  }

  /** data holds the encoding of v at the offset. */
  ghost predicate FieldAt(t: SupportedType, v: Value, data: seq<byte>, offset: nat)
    requires HasType(t, v)
  {
    var bs := EncodeField(t, v);
    offset + |bs| <= |data| && data[offset..offset + |bs|] == bs
  }

  lemma FieldSplit(t: SupportedType, v: Value, data: seq<byte>, offset: nat)
    requires HasType(t, v) && FieldAt(t, v, data, offset)
    ensures data[offset..] == EncodeField(t, v) + data[offset + |EncodeField(t, v)|..]
  {
  }

  lemma ReadsInteger(i: int64, data: seq<byte>, offset: nat)
    requires FieldAt(INT, IntV(i), data, offset)
    ensures ReadInteger(data, offset) == Some((i, |Varint(Unsigned(i))|))
  {
    hide Varint, DecodeVarint;
    FieldSplit(INT, IntV(i), data, offset);
    VarintRoundTrip(Unsigned(i), data[offset + |Varint(Unsigned(i))|..]);
  }

  lemma ReadsString(s: seq<byte>, data: seq<byte>, offset: nat)
    requires FieldAt(STRING, StrV(s), data, offset)
    ensures ReadString(data, offset) == Some((s, ToInt32(|Varint(|s|)| + |s|)))
    ensures DecodeVarint(data[offset..]) == Some((|s|, |Varint(|s|)|))
  {
    hide Varint, DecodeVarint;
    var bs := EncodeField(STRING, StrV(s));
    var rest := data[offset + |bs|..];
    FieldSplit(STRING, StrV(s), data, offset);
    assert data[offset..] == Varint(|s|) + (s + rest);
    VarintRoundTrip(|s|, s + rest);
    var n := |Varint(|s|)|;
    assert data[offset + n..offset + n + |s|] == bs[n..];
  }

  /** A field is skipped exactly. */
  lemma SkipsField(t: SupportedType, v: Value, data: seq<byte>, offset: nat)
    requires HasType(t, v) && FieldAt(t, v, data, offset)
    ensures SkipField(t, data, offset) == offset + |EncodeField(t, v)|
  {
    match t
    case INT => ReadsInteger(v.i, data, offset);
    case TIMESTAMP => ReadsInteger(v.i, data, offset);
    case STRING => ReadsString(v.s, data, offset);
    case _ =>
  }

  /** Every accessor gives of a field what is stored there. */
  lemma ReadsField(fc: FloatCasts, g: Getter, t: SupportedType, v: Value, data: seq<byte>, offset: nat)
    requires HasType(t, v) && FieldAt(t, v, data, offset)
    ensures Get(fc, g, t, data, offset) == Reading(fc, g, t, v)
  {
    hide Varint, DecodeVarint, ToInt32, StrToBool, Counted;
    match t
    case INT => ReadsInteger(v.i, data, offset);
    case TIMESTAMP => ReadsInteger(v.i, data, offset);
    case STRING => ReadsString(v.s, data, offset);
    case VID =>
      assert Pow256(8) == TWO_64;
      LERoundTrip(Unsigned(v.i), 8);
    case _ =>
  }

  /** got is v, read whole. */
  predicate Reads(got: Got, v: Value) {
    got.Got? && got.value == v
  }

  /** The encoded length of a value does not show as a negative 32-bit count. */
  predicate Readable(t: SupportedType, v: Value)
    requires HasType(t, v)
  {
    t.STRING? ==> ToInt32(|EncodeField(t, v)|) >= 0
  }

  /** A stored value is read back through its own accessor exactly if it is readable, and a string
      through the boolean one exactly if its count is positive. */
  lemma ReadableIff(fc: FloatCasts, t: SupportedType, v: Value)
    requires HasType(t, v)
    ensures Reads(Reading(fc, GetterOf(t), t, v), v) <==> Readable(t, v)
    ensures t.STRING? ==>
      var count := ToInt32(|EncodeField(t, v)|);
      (Reading(fc, GetBool, t, v).Got? <==> count > 0) && (Reading(fc, GetBool, t, v).GotUnset? <==> count == 0) &&
      (count < 0 ==> Reading(fc, GetBool, t, v) == Reading(fc, GetString, t, v) == GotErr(count))
    ensures |EncodeField(t, v)| < TWO_31 ==> Readable(t, v)
  {
    hide EncodeField;
    GetterSees(fc, t, v);
  }

  /** So a string of 2^31 bytes is written and then refused by both accessors. */
  lemma LongStringRefused(fc: FloatCasts, s: seq<byte>, data: seq<byte>, offset: nat)
    requires |s| == TWO_31 && FieldAt(STRING, StrV(s), data, offset)
    ensures Get(fc, GetString, STRING, data, offset) == GotErr(5 - TWO_31)
    ensures Get(fc, GetBool, STRING, data, offset) == GotErr(5 - TWO_31)
  {
    hide Get, Varint;
    FiveBytes(|s|);
    ReadsField(fc, GetString, STRING, StrV(s), data, offset);
    ReadsField(fc, GetBool, STRING, StrV(s), data, offset);
  }

  lemma FiveBytes(v: nat)
    requires 0x1000_0000 <= v < 0x8_0000_0000
    ensures |Varint(v)| == 5
  {
    assert |Varint(v / 128 / 128 / 128)| == 2;
    assert |Varint(v / 128)| == 4;
  }
}
