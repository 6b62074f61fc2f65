/** Where the fields of a row lie in its data. */
module RowLayout {
  import opened Bytes
  import opened RowFormat

  function Concat(cs: seq<seq<byte>>): seq<byte> {
    if cs == [] then [] else Concat(cs[..|cs| - 1]) + cs[|cs| - 1]
  }

  /** The offset of chunk i in the concatenation. */
  function Start(cs: seq<seq<byte>>, i: nat): nat
    requires i <= |cs|
  {
    |Concat(cs[..i])|
  }

  lemma StartNext(cs: seq<seq<byte>>, i: nat)
    requires i < |cs|
    ensures Start(cs, i + 1) == Start(cs, i) + |cs[i]|
  {
    assert cs[..i + 1][..i] == cs[..i];
  }

  /** Appending chunks moves no earlier one. */
  lemma StartPrefix(cs: seq<seq<byte>>, more: seq<seq<byte>>, i: nat)
    requires i <= |cs|
    ensures Start(cs + more, i) == Start(cs, i)
  {
    assert (cs + more)[..i] == cs[..i];
  }

  lemma {:induction false} ConcatPrefix(cs: seq<seq<byte>>, i: nat)
    requires i <= |cs|
    ensures Concat(cs[..i]) <= Concat(cs)
    decreases |cs|
  {
    if i == |cs| {
      assert cs[..i] == cs;
    } else {
      ConcatPrefix(cs[..|cs| - 1], i);
      assert cs[..|cs| - 1][..i] == cs[..i];
    }
  }

  lemma ChunkAt(cs: seq<seq<byte>>, i: nat)
    requires i < |cs|
    ensures Start(cs, i) + |cs[i]| <= |Concat(cs)|
    ensures Concat(cs)[Start(cs, i)..Start(cs, i) + |cs[i]|] == cs[i]
  {
    ConcatPrefix(cs, i + 1);
    assert cs[..i + 1][..i] == cs[..i];
    assert Concat(cs[..i + 1]) == Concat(cs[..i]) + cs[i];
  }

  /** Chunks that are not empty start at different offsets. */
  lemma {:induction false} StartsIncrease(cs: seq<seq<byte>>, i: nat, j: nat)
    requires i < j <= |cs| && forall k :: 0 <= k < |cs| ==> |cs[k]| > 0
    ensures Start(cs, i) < Start(cs, j)
    decreases j
  {
    StartNext(cs, j - 1);
    if i < j - 1 {
      StartsIncrease(cs, i, j - 1);
    }
  }

  ghost predicate WellTyped(types: seq<SupportedType>, values: seq<Value>) {
    |types| == |values| && forall i :: 0 <= i < |types| ==> HasType(types[i], values[i])
  }

  ghost function Fields(types: seq<SupportedType>, values: seq<Value>): (cs: seq<seq<byte>>)
    requires WellTyped(types, values)
    ensures |cs| == |types| && forall i :: 0 <= i < |types| ==> cs[i] == EncodeField(types[i], values[i])
  {
    seq(|types|, i requires 0 <= i < |types| => EncodeField(types[i], values[i]))
  }

  /** Block offsets: the start of every sixteenth field, from the first on. */
  ghost function BlockStarts(cs: seq<seq<byte>>): (bs: seq<nat>)
    ensures |bs| == |cs| / 16 + 1 && forall b :: 0 <= b < |bs| ==> bs[b] == Start(cs, 16 * b)
  {
    seq(|cs| / 16 + 1, b requires 0 <= b < |cs| / 16 + 1 => Start(cs, 16 * b))
  }
}
