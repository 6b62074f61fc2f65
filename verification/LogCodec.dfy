/** The log codec: key-value pairs, multi-value logs and batches of operations. */
module LogCodec {
  import opened Bytes

  type Str = seq<byte>

  const HEAD_LEN: nat := 13
  const OP_BATCH_WRITE: byte := 0x11

  /** A size kept in a 32-bit unsigned variable. */
  function Size32(s: Str): (n: nat)
    ensures n <= |s| && n < TWO_32
    ensures n == |s| <==> |s| < TWO_32
  {
    |s| % TWO_32
  }

  function Le32(n: nat): (bs: Str)
    ensures |bs| == 4
  {
    LE(n % TWO_32, 4)
  }

  lemma Le32Reads(n: nat)
    ensures FromLE(Le32(n)) == n % TWO_32
  {
    LERoundTrip(n % TWO_32, 4);
    assert Pow256(4) == TWO_32 by {
      assert Pow256(1) == 256 && Pow256(2) == 0x1_0000 && Pow256(3) == 0x100_0000;
    }
  }

  // ----- reads at a pointer; reading outside the string is None, and no bytes are never read -----

  function Read32(s: Str, p: int): Option<nat> {
    if 0 <= p && p + 4 <= |s| then Some(FromLE(s[p..p + 4])) else None
  }

  function Piece(s: Str, p: int, len: nat): Option<Str> {
    if len == 0 then Some([]) else if 0 <= p && p + len <= |s| then Some(s[p..p + len]) else None
  }

  lemma Reads32(s: Str, p: nat, n: nat)
    requires p <= |s| && Le32(n) <= s[p..]
    ensures Read32(s, p) == Some(n % TWO_32)
  {
    Le32Reads(n);
    assert s[p..p + 4] == s[p..][..4] == Le32(n);
  }

  lemma ReadsPiece(s: Str, p: nat, t: Str)
    requires p <= |s| && t <= s[p..]
    ensures Piece(s, p, |t|) == Some(t)
  {
    assert s[p..p + |t|] == s[p..][..|t|] == t;
  }

  /** a lies right behind the first k bytes of what starts at p. */
  lemma Behind(s: Str, p: nat, a: Str, b: Str)
    requires p <= |s| && a + b <= s[p..]
    ensures a <= s[p..] && p + |a| <= |s| && b <= s[p + |a|..]
  {
    assert s[p + |a|..] == s[p..][|a|..];
    assert (a + b)[..|a|] == a && (a + b)[|a|..] == b;
  }

  // ----- one key and value -----

  /** The bytes of a string cut to the size its length field can tell. */
  function Cut(s: Str): (cut: Str)
    ensures |cut| == |s| % TWO_32
    ensures cut == s <==> |s| < TWO_32
  {
    s[..Size32(s)]
  }

  function KV(key: Str, val: Str): Str {
    Le32(|key|) + Le32(|val|) + Cut(key) + Cut(val)
  }

  /** Lines 16-27 of LogEncoder.cpp. */
  method EncodeKV(key: Str, val: Str) returns (str: Str)
    ensures str == KV(key, val)
  {
    var ksize, vsize := Size32(key), Size32(val);
    str := LE(ksize, 4);
    str := str + LE(vsize, 4);
    str := str + key[..ksize];
    str := str + val[..vsize];
  }

  /** Lines 29-35 of LogEncoder.cpp. */
  function DecodeKV(data: Str): Option<(Str, Str)> {
    match (Read32(data, 0), Read32(data, 4))
    case (Some(ksize), Some(vsize)) =>
      (match (Piece(data, 8, ksize), Piece(data, 8 + ksize, vsize))
       case (Some(key), Some(val)) => Some((key, val))
       case _ => None)
    case _ => None
  }

  /** A pair survives exactly when both sizes fit in 32 bits. */
  lemma KVRoundTrip(key: Str, val: Str)
    ensures DecodeKV(KV(key, val)) == Some((Cut(key), Cut(val)))
    ensures DecodeKV(KV(key, val)) == Some((key, val)) <==> |key| < TWO_32 && |val| < TWO_32
  {
    hide Le32, FromLE, Cut;
    var s := KV(key, val);
    assert s[0..] == Le32(|key|) + (Le32(|val|) + (Cut(key) + Cut(val)));
    Behind(s, 0, Le32(|key|), Le32(|val|) + (Cut(key) + Cut(val)));
    Behind(s, 4, Le32(|val|), Cut(key) + Cut(val));
    Behind(s, 8, Cut(key), Cut(val));
    Reads32(s, 0, |key|);
    Reads32(s, 4, |val|);
    ReadsPiece(s, 8, Cut(key));
    ReadsPiece(s, 8 + |Cut(key)|, Cut(val));
  }

  // ----- multi-value logs -----

  function Head(ts: int64, logType: byte, num: nat): (h: Str)
    ensures |h| == HEAD_LEN
  {
    LE(Unsigned(ts), 8) + [logType] + Le32(num)
  }

  /** The count, and where what follows the head starts. */
  lemma HeadReads(ts: int64, logType: byte, num: nat, rest: Str)
    ensures var s := Head(ts, logType, num) + rest;
      Read32(s, 9) == Some(num % TWO_32) && s[HEAD_LEN..] == rest
  {
    hide LE, FromLE;
    var s := Head(ts, logType, num) + rest;
    assert s[9..] == Le32(num) + rest;
    Reads32(s, 9, num);
  }

  /** And what else the head holds. */
  lemma HeadHolds(ts: int64, logType: byte, num: nat)
    ensures var h := Head(ts, logType, num); Signed(FromLE(h[..8]) % TWO_64) == ts && h[8] == logType
  {
    assert Pow256(8) == TWO_64;
    LERoundTrip(Unsigned(ts), 8);
    hide LE, FromLE;
    assert Head(ts, logType, num)[..8] == LE(Unsigned(ts), 8);
  }

  function Field(v: Str): Str {
    Le32(|v|) + Cut(v)
  }

  function Fields(values: seq<Str>): Str {
    if values == [] then [] else Field(values[0]) + Fields(values[1..])
  }

  function Flat(kvs: seq<(Str, Str)>): (values: seq<Str>)
    ensures |values| == 2 * |kvs|
    ensures forall i :: 0 <= i < |kvs| ==> values[2 * i] == kvs[i].0 && values[2 * i + 1] == kvs[i].1
  {
    if kvs == [] then [] else Flat(kvs[..|kvs| - 1]) + [kvs[|kvs| - 1].0, kvs[|kvs| - 1].1]
  }

  lemma {:induction false} FieldsConcat(a: seq<Str>, b: seq<Str>)
    ensures Fields(a + b) == Fields(a) + Fields(b)
  {
    if a == [] {
      assert a + b == b;
    } else {
      assert (a + b)[1..] == a[1..] + b;
      FieldsConcat(a[1..], b);
    }
  }

  lemma FieldsSnoc(values: seq<Str>, v: Str)
    ensures Fields(values + [v]) == Fields(values) + Field(v)
  {
    FieldsConcat(values, [v]);
  }

  /** Lines 83-85, 111-116 of LogEncoder.cpp: the size, then as many bytes. */
  method AppendField(encoded: Str, v: Str) returns (longer: Str)
    ensures longer == encoded + Field(v)
  {
    var len := Size32(v);
    longer := encoded + LE(len, 4);
    longer := longer + v[..len];
  }

  /** Lines 64-89 of LogEncoder.cpp. The wall clock is the parameter ts. */
  method EncodeMultiValues(ts: int64, logType: byte, values: seq<Str>) returns (encoded: Str)
    ensures encoded == Head(ts, logType, |values|) + Fields(values)
  {
    hide Head, Fields, Field, LE;
    encoded := LE(Unsigned(ts), 8) + [logType] + Le32(|values|);
    HeadIs(ts, logType, |values|);
    for i := 0 to |values|
      invariant encoded == Head(ts, logType, |values|) + Fields(values[..i])
    {
      encoded := AppendField(encoded, values[i]);
      FieldsSnoc(values[..i], values[i]);
      assert values[..i + 1] == values[..i] + [values[i]];
    }
    assert values[..|values|] == values;
  }

  /** Lines 92-120 of LogEncoder.cpp: keys and values one after the other, counted together. */
  method EncodeMultiKVs(ts: int64, logType: byte, kvs: seq<(Str, Str)>) returns (encoded: Str)
    ensures encoded == Head(ts, logType, |Flat(kvs)|) + Fields(Flat(kvs))
  {
    hide Head, Fields, Field, Le32, LE;
    encoded := LE(Unsigned(ts), 8) + [logType] + Le32(2 * |kvs|);
    HeadIs(ts, logType, 2 * |kvs|);
    for i := 0 to |kvs|
      invariant encoded == Head(ts, logType, 2 * |kvs|) + Fields(Flat(kvs[..i]))
    {
      ghost var before := Flat(kvs[..i]);
      encoded := AppendField(encoded, kvs[i].0);
      FieldsSnoc(before, kvs[i].0);
      encoded := AppendField(encoded, kvs[i].1);
      FieldsSnoc(before + [kvs[i].0], kvs[i].1);
      assert kvs[..i + 1][..i] == kvs[..i];
      assert Flat(kvs[..i + 1]) == before + [kvs[i].0] + [kvs[i].1];
    }
    assert kvs[..|kvs|] == kvs;
  }

  lemma HeadIs(ts: int64, logType: byte, num: nat)
    ensures LE(Unsigned(ts), 8) + [logType] + Le32(num) == Head(ts, logType, num) + Fields([])
  {
  }

  /** Lines 123-146 of LogEncoder.cpp. */
  method EncodeTwoValues(ts: int64, logType: byte, v1: Str, v2: Str) returns (encoded: Str)
    ensures encoded == Head(ts, logType, 2) + Fields([v1, v2])
  {
    hide Head, Fields, Field, LE;
    encoded := LE(Unsigned(ts), 8) + [logType] + LE(2, 4);
    HeadIs(ts, logType, 2);
    encoded := AppendField(encoded, v1);
    encoded := AppendField(encoded, v2);
    FieldsSnoc([], v1);
    FieldsSnoc([v1], v2);
    assert [] + [v1] == [v1] && [v1] + [v2] == [v1, v2];
  }

  /** num fields from p on. */
  function DecodeFields(s: Str, p: nat, num: nat): Option<seq<Str>>
    decreases num
  {
    if num == 0 then Some([])
    else
      match Read32(s, p)
      case None => None
      case Some(len) =>
        match Piece(s, p + 4, len)
        case None => None
        case Some(v) => After([v], DecodeFields(s, p + 4 + len, num - 1))
  }

  function After<T>(done: seq<T>, rest: Option<seq<T>>): Option<seq<T>> {
    match rest
    case None => None
    case Some(vs) => Some(done + vs)
  }

  lemma AfterNone<T>(rest: Option<seq<T>>)
    ensures After([], rest) == rest
  {
    if rest.Some? {
      assert [] + rest.value == rest.value;
    }
  }

  lemma AfterAfter<T>(done: seq<T>, more: seq<T>, rest: Option<seq<T>>)
    ensures After(done, After(more, rest)) == After(done + more, rest)
  {
    if rest.Some? {
      assert done + (more + rest.value) == done + more + rest.value;
    }
  }

  function MultiValues(encoded: Str): Option<seq<Str>> {
    match Read32(encoded, 9)
    case None => None
    case Some(num) => DecodeFields(encoded, HEAD_LEN, num)
  }

  /** Lines 149-165 of LogEncoder.cpp. */
  method DecodeMultiValues(encoded: Str) returns (r: Option<seq<Str>>)
    ensures r == MultiValues(encoded)
  {
    var n := Read32(encoded, 9);
    if n == None {
      return None;
    }
    var p, values, i := HEAD_LEN, [], 0;
    AfterNone(DecodeFields(encoded, p, n.value));
    while i < n.value
      invariant i <= n.value
      invariant MultiValues(encoded) == After(values, DecodeFields(encoded, p, n.value - i))
    {
      var len := Read32(encoded, p);
      if len == None {
        return None;
      }
      var v := Piece(encoded, p + 4, len.value);
      if v == None {
        return None;
      }
      AfterAfter(values, [v.value], DecodeFields(encoded, p + 4 + len.value, n.value - i - 1));
      values := values + [v.value];
      p := p + 4 + len.value;
      i := i + 1;
    }
    assert values + [] == values;
    return Some(values);
  }

  function CutAll(values: seq<Str>): (cut: seq<Str>)
    ensures |cut| == |values|
    ensures forall i :: 0 <= i < |values| ==> cut[i] == Cut(values[i])
  {
    if values == [] then [] else [Cut(values[0])] + CutAll(values[1..])
  }

  lemma {:induction false} FieldsDecode(s: Str, p: nat, values: seq<Str>)
    requires p <= |s| && Fields(values) <= s[p..]
    ensures DecodeFields(s, p, |values|) == Some(CutAll(values))
    decreases |values|
  {
    if values != [] {
      var v := values[0];
      assert Fields(values) == Le32(|v|) + (Cut(v) + Fields(values[1..]));
      Behind(s, p, Le32(|v|), Cut(v) + Fields(values[1..]));
      Behind(s, p + 4, Cut(v), Fields(values[1..]));
      Reads32(s, p, |v|);
      ReadsPiece(s, p + 4, Cut(v));
      FieldsDecode(s, p + 4 + |Cut(v)|, values[1..]);
    }
  }

  /** What comes back is the values, cut to 32-bit sizes, up to a 32-bit count: the very values
      exactly when the count and all sizes fit. */
  lemma MultiRoundTrip(ts: int64, logType: byte, values: seq<Str>)
    ensures var r := MultiValues(Head(ts, logType, |values|) + Fields(values));
      r == Some(CutAll(values[..|values| % TWO_32])) &&
      (r == Some(values) <==>
        |values| < TWO_32 && forall i :: 0 <= i < |values| ==> |values[i]| < TWO_32)
  {
    var n := |values| % TWO_32;
    var kept := values[..n];
    assert values == kept + values[n..];
    FieldsConcat(kept, values[n..]);
    var s := Head(ts, logType, |values|) + Fields(values);
    HeadReads(ts, logType, |values|, Fields(values));
    FieldsDecode(s, HEAD_LEN, kept);
    CutIff(values);
  }

  lemma CutIff(values: seq<Str>)
    ensures var n := |values| % TWO_32;
      CutAll(values[..n]) == values <==>
        |values| < TWO_32 && forall i :: 0 <= i < |values| ==> |values[i]| < TWO_32
  {
    var n := |values| % TWO_32;
    var cut := CutAll(values[..n]);
    if cut == values {
      assert n == |values|;
      forall i | 0 <= i < |values|
        ensures |values[i]| < TWO_32
      {
        assert cut[i] == Cut(values[..n][i]);
      }
    }
    if |values| < TWO_32 && forall i :: 0 <= i < |values| ==> |values[i]| < TWO_32 {
      assert values[..n] == values;
      assert forall i :: 0 <= i < |values| ==> cut[i] == values[i];
    }
  }

  // ----- batches -----

  datatype Op = Op(opType: byte, key: Str, val: Str)

  /** One operation: the sizes are cut to four bytes, the strings are not. */
  function OpBytes(op: Op): Str {
    [op.opType] + Le32(|op.key|) + op.key + Le32(|op.val|) + op.val
  }

  function Ops(batch: seq<Op>): Str {
    if batch == [] then [] else OpBytes(batch[0]) + Ops(batch[1..])
  }

  lemma {:induction false} OpsConcat(a: seq<Op>, b: seq<Op>)
    ensures Ops(a + b) == Ops(a) + Ops(b)
  {
    if a == [] {
      assert a + b == b;
    } else {
      assert (a + b)[1..] == a[1..] + b;
      OpsConcat(a[1..], b);
    }
  }

  /** Lines 167-196 of LogEncoder.cpp. */
  method EncodeBatchValue(ts: int64, batch: seq<Op>) returns (encoded: Str)
    ensures encoded == Head(ts, OP_BATCH_WRITE, |batch|) + Ops(batch)
  {
    hide LE;
    encoded := LE(Unsigned(ts), 8) + [OP_BATCH_WRITE] + Le32(|batch|);
    for i := 0 to |batch|
      invariant encoded == Head(ts, OP_BATCH_WRITE, |batch|) + Ops(batch[..i])
    {
      var op := batch[i];
      encoded := encoded + ([op.opType] + Le32(|op.key|) + op.key + Le32(|op.val|) + op.val);
      OpsConcat(batch[..i], [op]);
      assert batch[..i + 1] == batch[..i] + [op];
    }
    assert batch[..|batch|] == batch;
  }

  /** Lines 206-216 of LogEncoder.cpp: one operation and the pointer behind it. The running offset is a signed
      32-bit variable, and the final advance is a 32-bit unsigned sum. */
  function DecodeOp(s: Str, p: int): Option<(Op, int)> {
    if !(0 <= p < |s|) then None
    else
      var q := p + 1;
      match Read32(s, q)
      case None => None
      case Some(len1) =>
        var offset := ToInt32(4 + len1);
        match Read32(s, q + offset)
        case None => None
        case Some(len2) =>
          var behind := ToInt32(offset + 4);
          match (Piece(s, q + 4, len1), Piece(s, q + behind, len2))
          case (Some(key), Some(val)) => Some((Op(s[p], key, val), q + (behind + len2) % TWO_32))
          case _ => None
  }

  function DecodeOps(s: Str, p: int, num: nat): Option<seq<Op>>
    decreases num
  {
    if num == 0 then Some([])
    else
      match DecodeOp(s, p)
      case None => None
      case Some((op, next)) => After([op], DecodeOps(s, next, num - 1))
  }

  function BatchValue(encoded: Str): Option<seq<Op>> {
    match Read32(encoded, 9)
    case None => None
    case Some(num) => DecodeOps(encoded, HEAD_LEN, num)
  }

  /** Lines 198-219 of LogEncoder.cpp. */
  method DecodeBatchValue(encoded: Str) returns (r: Option<seq<Op>>)
    ensures r == BatchValue(encoded)
  {
    hide DecodeOp, FromLE;
    var n := Read32(encoded, 9);
    if n == None {
      return None;
    }
    var p: int := HEAD_LEN;
    var batch, i := [], 0;
    AfterNone(DecodeOps(encoded, p, n.value));
    while i < n.value
      invariant i <= n.value
      invariant BatchValue(encoded) == After(batch, DecodeOps(encoded, p, n.value - i))
    {
      var o := DecodeOp(encoded, p);
      if o == None {
        return None;
      }
      AfterAfter(batch, [o.value.0], DecodeOps(encoded, o.value.1, n.value - i - 1));
      batch := batch + [o.value.0];
      p := o.value.1;
      i := i + 1;
    }
    assert batch + [] == batch;
    return Some(batch);
  }

  /** Small enough for the decoder's 32-bit offsets to lead to its key and value. */
  predicate Placed(op: Op) {
    |op.key| + 4 < TWO_31 && (|op.key| + 8 < TWO_31 || op.val == []) && |op.val| < TWO_32
  }

  /** Small enough for the 32-bit advance to lead to the next operation. */
  predicate Advances(op: Op) {
    |op.key| + 8 + |op.val| < TWO_32
  }

  ghost predicate Decodable(batch: seq<Op>) {
    (forall i :: 0 <= i < |batch| ==> Placed(batch[i])) &&
    (forall i :: 0 <= i < |batch| - 1 ==> Advances(batch[i]))
  }

  /** How an operation lies behind p. */
  lemma OpLies(s: Str, p: nat, op: Op, rest: Str)
    requires p <= |s| && OpBytes(op) + rest <= s[p..]
    ensures p < |s| && s[p] == op.opType
    ensures Read32(s, p + 1) == Some(|op.key| % TWO_32)
    ensures Piece(s, p + 5, |op.key|) == Some(op.key)
    ensures Read32(s, p + 5 + |op.key|) == Some(|op.val| % TWO_32)
    ensures Piece(s, p + 9 + |op.key|, |op.val|) == Some(op.val)
    ensures p + |OpBytes(op)| <= |s| && rest <= s[p + |OpBytes(op)|..]
  {
    hide FromLE, LE;
    var k, v := Le32(|op.key|), Le32(|op.val|);
    assert OpBytes(op) + rest == [op.opType] + (k + (op.key + (v + (op.val + rest))));
    assert s[p] == s[p..][0];
    Behind(s, p, [op.opType], k + (op.key + (v + (op.val + rest))));
    Behind(s, p + 1, k, op.key + (v + (op.val + rest)));
    Behind(s, p + 5, op.key, v + (op.val + rest));
    Behind(s, p + 5 + |op.key|, v, op.val + rest);
    Behind(s, p + 9 + |op.key|, op.val, rest);
    Reads32(s, p + 1, |op.key|);
    ReadsPiece(s, p + 5, op.key);
    Reads32(s, p + 5 + |op.key|, |op.val|);
    ReadsPiece(s, p + 9 + |op.key|, op.val);
  }

  lemma SmallInt32(v: nat)
    requires v < TWO_32
    ensures ToInt32(v) == if v < TWO_31 then v else v - TWO_32
    ensures ToInt32(v) % TWO_32 == v
  {
  }

  lemma OpSize(op: Op)
    ensures |OpBytes(op)| == 9 + |op.key| + |op.val|
  {
  }

  /** Where the value of a placed operation is looked for, and where the advance leads. */
  lemma PlacedOffsets(op: Op)
    requires Placed(op)
    ensures var offset := ToInt32(4 + |op.key|);
      var behind := ToInt32(offset + 4);
      offset == 4 + |op.key| && (op.val == [] || behind == 8 + |op.key|) &&
      (behind + |op.val|) % TWO_32 == (8 + |op.key| + |op.val|) % TWO_32
  {
    SmallInt32(4 + |op.key|);
    SmallInt32(8 + |op.key|);
  }

  /** A placed operation is decoded, and the pointer behind it is right exactly if it advances. */
  lemma OpDecodes(s: Str, p: nat, op: Op, rest: Str)
    requires p <= |s| && OpBytes(op) + rest <= s[p..] && Placed(op)
    ensures DecodeOp(s, p) == Some((op, p + 1 + (8 + |op.key| + |op.val|) % TWO_32))
    ensures p + 1 + (8 + |op.key| + |op.val|) % TWO_32 == p + |OpBytes(op)| <==> Advances(op)
  {
    hide FromLE, LE, Read32, Le32, OpBytes, ToInt32;
    OpLies(s, p, op, rest);
    OpSize(op);
    PlacedOffsets(op);
  }

  lemma {:induction false} OpsDecode(s: Str, p: nat, batch: seq<Op>)
    requires p <= |s| && Ops(batch) <= s[p..] && Decodable(batch)
    ensures DecodeOps(s, p, |batch|) == Some(batch)
    decreases |batch|
  {
    hide DecodeOp, OpBytes, Placed, Advances;
    if batch != [] {
      OpDecodes(s, p, batch[0], Ops(batch[1..]));
      OpLies(s, p, batch[0], Ops(batch[1..]));
      if |batch| > 1 {
        assert Advances(batch[0]);
        OpsDecode(s, p + |OpBytes(batch[0])|, batch[1..]);
      }
      assert batch == [batch[0]] + batch[1..];
    }
  }

  lemma BatchRoundTrip(ts: int64, batch: seq<Op>)
    requires |batch| < TWO_32 && Decodable(batch)
    ensures BatchValue(Head(ts, OP_BATCH_WRITE, |batch|) + Ops(batch)) == Some(batch)
  {
    hide Head, Ops, OpBytes, Read32, DecodeOps, LE, FromLE, Decodable;
    HeadReads(ts, OP_BATCH_WRITE, |batch|, Ops(batch));
    OpsDecode(Head(ts, OP_BATCH_WRITE, |batch|) + Ops(batch), HEAD_LEN, batch);
  }

  /** A first operation that is not placed, its key below 2^32 - 18 bytes, is not read back. */
  lemma OpLost(s: Str, op: Op)
    requires Read32(s, HEAD_LEN + 1) == Some(|op.key| % TWO_32)
    requires Read32(s, HEAD_LEN + 5 + |op.key|) == Some(|op.val| % TWO_32)
    requires !Placed(op) && |op.key| < TWO_32 - 18
    ensures DecodeOp(s, HEAD_LEN) == None || DecodeOp(s, HEAD_LEN).value.0.val != op.val
  {
    hide LE, FromLE, ToInt32;
    SmallInt32(4 + |op.key|);
    SmallInt32(8 + |op.key|);
  }

  lemma WideKeyLost(s: Str, op: Op)
    requires Read32(s, HEAD_LEN + 1) == Some(|op.key| % TWO_32) && |op.key| >= TWO_32
    ensures DecodeOp(s, HEAD_LEN) == None || |DecodeOp(s, HEAD_LEN).value.0.key| != |op.key|
  {
    hide LE, FromLE, ToInt32;
  }

  /** A log of one operation is read back exactly if the operation is placed. Keys of the last 18
      sizes below 2^32 make the decoder take a size from the head of the log, which the timestamp
      can make right. */
  lemma SingleOpIff(ts: int64, op: Op)
    requires |op.key| < TWO_32 - 18 || |op.key| >= TWO_32
    ensures BatchValue(Head(ts, OP_BATCH_WRITE, 1) + Ops([op])) == Some([op]) <==> Placed(op)
  {
    hide Head, OpBytes, LE, FromLE, DecodeOp, Read32, Placed;
    if Placed(op) {
      BatchRoundTrip(ts, [op]);
    } else {
      FirstOpLost(ts, [op]);
    }
  }

  /** Whatever follows such an operation, the log is not read back. */
  lemma FirstOpLost(ts: int64, batch: seq<Op>)
    requires 0 < |batch| < TWO_32 && !Placed(batch[0])
    requires |batch[0].key| < TWO_32 - 18 || |batch[0].key| >= TWO_32
    ensures BatchValue(Head(ts, OP_BATCH_WRITE, |batch|) + Ops(batch)) != Some(batch)
  {
    hide Head, OpBytes, LE, FromLE, DecodeOp, Read32, Placed;
    var s := Head(ts, OP_BATCH_WRITE, |batch|) + Ops(batch);
    HeadReads(ts, OP_BATCH_WRITE, |batch|, Ops(batch));
    OpLies(s, HEAD_LEN, batch[0], Ops(batch[1..]));
    if |batch[0].key| < TWO_32 {
      OpLost(s, batch[0]);
    } else {
      WideKeyLost(s, batch[0]);
    }
    FirstDecoded(s, batch);
  }

  lemma FirstDecoded(s: Str, batch: seq<Op>)
    requires batch != []
    ensures DecodeOps(s, HEAD_LEN, |batch|) == Some(batch) ==>
      DecodeOp(s, HEAD_LEN).Some? && DecodeOp(s, HEAD_LEN).value.0 == batch[0]
  {
    hide DecodeOp;
  }

  /** An operation that is placed and does not advance loses what comes behind it: here the pointer
      comes back into the first operation and the decoder leaves the log. */
  lemma LongValueLost(ts: int64, batch: seq<Op>)
    requires 1 < |batch| < TWO_32 && batch[0].key == [] && |batch[0].val| == TWO_32 - 8
    ensures Placed(batch[0]) && !Advances(batch[0])
    ensures BatchValue(Head(ts, OP_BATCH_WRITE, |batch|) + Ops(batch)) == None
  {
    hide Head, Le32, DecodeOp, LE, FromLE;
    var op, rest := batch[0], Ops(batch[1..]);
    var s := Head(ts, OP_BATCH_WRITE, |batch|) + Ops(batch);
    HeadReads(ts, OP_BATCH_WRITE, |batch|, Ops(batch));
    OpDecodes(s, HEAD_LEN, op, rest);
    InsideLost(s, op, rest);
    SecondLost(s, op, |batch|);
  }

  lemma SecondLost(s: Str, op: Op, num: nat)
    requires DecodeOp(s, HEAD_LEN) == Some((op, HEAD_LEN + 1)) && DecodeOp(s, HEAD_LEN + 1) == None && num > 1
    ensures DecodeOps(s, HEAD_LEN, num) == None
  {
    hide DecodeOp;
    assert DecodeOps(s, HEAD_LEN + 1, num - 1) == None;
  }

  lemma InsideLost(s: Str, op: Op, rest: Str)
    requires HEAD_LEN <= |s| && s[HEAD_LEN..] == OpBytes(op) + rest
    requires op.key == [] && |op.val| == TWO_32 - 8
    ensures DecodeOp(s, HEAD_LEN + 1) == None
  {
    SizeBytes();
    hide FromLE, Le32;
    var k, v := Le32(0), Le32(|op.val|);
    assert s[HEAD_LEN..] == [op.opType] + (k + (v + (op.val + rest)));
    assert s[HEAD_LEN + 2..HEAD_LEN + 6] == s[HEAD_LEN..][2..6] == [0, 0, 0, 0xF8];
  }

  /** The bytes of the two sizes, and what the last three of one and the first of the other read as. */
  lemma SizeBytes()
    ensures Le32(0) == [0, 0, 0, 0] && Le32(TWO_32 - 8)[0] == 0xF8
    ensures FromLE([0, 0, 0, 0xF8]) == 0xF800_0000
  {
    assert LE(0, 2) == [0, 0];
    assert FromLE([0, 0xF8]) == 0xF800;
    assert FromLE([0, 0, 0xF8]) == 0xF8_0000;
  }
}
