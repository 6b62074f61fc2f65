/** Little-endian integers and base-128 varints over bytes. */
module Bytes {
  type byte = b: int | 0 <= b < 256

  datatype Option<+T> = None | Some(value: T)

  const TWO_63: int := 0x8000_0000_0000_0000
  const TWO_64: int := 0x1_0000_0000_0000_0000

  type int64 = v: int | -TWO_63 <= v < TWO_63
  type uint64 = v: int | 0 <= v < TWO_64

  /** The conversions between the two readings of 64 bits. */
  function Unsigned(v: int64): uint64 {
    if v < 0 then v + TWO_64 else v
  }

  function Signed(u: uint64): int64 {
    if u < TWO_63 then u else u - TWO_64
  }

  const TWO_32: int := 0x1_0000_0000
  const TWO_31: int := 0x8000_0000

  /** The value kept by a signed 32-bit variable. */
  function ToInt32(v: int): int {
    var m := v % TWO_32;
    if m < TWO_31 then m else m - TWO_32
  }

  // ----- fixed-width little endian -----

  function Pow256(n: nat): (p: nat)
    ensures p > 0
  {
    if n == 0 then 1 else 256 * Pow256(n - 1)
  }

  /** The low n bytes of v, least significant first. */
  function LE(v: nat, n: nat): (bs: seq<byte>)
    ensures |bs| == n
  {
    if n == 0 then [] else [v % 256] + LE(v / 256, n - 1)
  }

  function FromLE(bs: seq<byte>): nat {
    if bs == [] then 0 else bs[0] + 256 * FromLE(bs[1..])
  }

  /** Truncating to n bytes loses nothing exactly when the value fits. */
  lemma {:induction false} LERoundTrip(v: nat, n: nat)
    ensures FromLE(LE(v, n)) == v <==> v < Pow256(n)
  {
    if n > 0 {
      var bs := LE(v, n);
      assert bs[1..] == LE(v / 256, n - 1);
      LERoundTrip(v / 256, n - 1);
      LEBelow(bs[1..]);
    }
  }

  lemma {:induction false} LEBelow(bs: seq<byte>)
    ensures FromLE(bs) < Pow256(|bs|)
  {
    if bs != [] {
      LEBelow(bs[1..]);
    }
  }

  lemma {:induction false} FromLESnoc(bs: seq<byte>, b: byte)
    ensures FromLE(bs + [b]) == FromLE(bs) + b * Pow256(|bs|)
  {
    if bs == [] {
    } else {
      FromLESnoc(bs[1..], b);
      assert (bs + [b])[1..] == bs[1..] + [b];
      calc {
        FromLE(bs + [b]);
        bs[0] + 256 * (FromLE(bs[1..]) + b * Pow256(|bs| - 1));
        bs[0] + 256 * FromLE(bs[1..]) + 256 * (b * Pow256(|bs| - 1));
        { assert 256 * (b * Pow256(|bs| - 1)) == b * (256 * Pow256(|bs| - 1)); }
        FromLE(bs) + b * Pow256(|bs|);
      }
    }
  }

  /** i items of w bytes each, counted by addition. */
  function Times(i: nat, w: nat): nat {
    if i == 0 then 0 else Times(i - 1, w) + w
  }

  lemma {:induction false} TimesIsProduct(i: nat, w: nat)
    ensures Times(i, w) == i * w
  {
    if i > 0 {
      TimesIsProduct(i - 1, w);
    }
  }

  lemma {:induction false} TimesMonotone(i: nat, w: nat, j: nat, x: nat)
    requires i <= j && w <= x
    ensures Times(i, w) <= Times(j, x)
  {
    if i > 0 {
      TimesMonotone(i - 1, w, j - 1, x);
    }
  }

  // ----- varints -----

  function Varint(v: nat): (bs: seq<byte>)
    ensures |bs| > 0
  {
    if v < 128 then [v] else [128 + v % 128] + Varint(v / 128)
  }

  /** The value and the number of bytes read, or None when the bytes end too soon. */
  function DecodeVarint(bs: seq<byte>): (r: Option<(nat, nat)>)
    ensures r.Some? ==> 0 < r.value.1 <= |bs|
  {
    if bs == [] then None
    else if bs[0] < 128 then Some((bs[0], 1))
    else
      match DecodeVarint(bs[1..])
      case None => None
      case Some((v, len)) => Some((bs[0] - 128 + 128 * v, len + 1))
  }

  /** A varint reads back whatever follows it. */
  lemma {:induction false} VarintRoundTrip(v: nat, rest: seq<byte>)
    ensures DecodeVarint(Varint(v) + rest) == Some((v, |Varint(v)|))
  {
    var bs := Varint(v) + rest;
    if v < 128 {
      assert bs[0] == v;
    } else {
      VarintRoundTrip(v / 128, rest);
      assert bs[0] == 128 + v % 128;
      assert bs[1..] == Varint(v / 128) + rest;
    }
  }

  /** encodeVarint: the loop that fills the buffer. */
  method EncodeVarint(v: uint64) returns (buf: seq<byte>)
    ensures buf == Varint(v)
  {
    buf := [];
    var val := v;
    while val >= 128
      invariant 0 <= val && Varint(v) == buf + Varint(val)
    {
      buf := buf + [128 + val % 128];
      val := val / 128;
    }
    buf := buf + [val];
  }
}
