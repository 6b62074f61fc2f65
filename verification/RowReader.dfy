/** Reading a row by field index through the lazily filled offset cache. */
module RowReader {
  import opened Bytes
  import opened RowFormat
  import opened RowLayout

  /** The linear scan the cache stands for: a block start comes from the header, any other
      field start from skipping the field before it, and the end from the data itself. */
  ghost function Scan(types: seq<SupportedType>, data: seq<byte>, starts: seq<nat>, i: nat): (r: int)
    requires i <= |types| && |starts| == |types| / 16 + 1
    ensures r >= 0 || r == E_DATA_INVALID
  {
    if i == |types| then |data|
    else if i % 16 == 0 then starts[i / 16]
    else
      var p := Scan(types, data, starts, i - 1);
      if p < 0 then p else SkipField(types[i - 1], data, p)
  }

  /** A field that cannot be reached makes the rest of its block unreachable. */
  lemma {:induction false} ScanFails(types: seq<SupportedType>, data: seq<byte>, starts: seq<nat>, i: nat, j: nat)
    requires |starts| == |types| / 16 + 1 && i <= j < |types| && i / 16 == j / 16
    requires Scan(types, data, starts, i) < 0
    ensures Scan(types, data, starts, j) == E_DATA_INVALID
  {
    if i < j {
      assert j % 16 != 0;
      ScanFails(types, data, starts, i, j - 1);
    }
  }

  /** On the data of a well-typed row the scan finds the true field starts. */
  lemma {:induction false} ScanIsStart(types: seq<SupportedType>, values: seq<Value>, i: nat)
    requires WellTyped(types, values) && i <= |types|
    ensures var cs := Fields(types, values); Scan(types, Concat(cs), BlockStarts(cs), i) == Start(cs, i)
  {
    hide SkipField, EncodeField, Concat;
    var cs := Fields(types, values);
    if i == |types| {
      assert cs[..i] == cs;
    } else if i % 16 == 0 {
      assert 16 * (i / 16) == i;
    } else {
      ScanIsStart(types, values, i - 1);
      ChunkAt(cs, i - 1);
      StartNext(cs, i - 1);
      SkipsField(types[i - 1], values[i - 1], Concat(cs), Start(cs, i - 1));
    }
  }

  class RowReader {
    const types: seq<SupportedType>
    const data: seq<byte>
    /** Header block offsets, with 0 for the first block. */
    const starts: seq<nat>
    /** offsets_: the start of each field, -1 while unknown, and the end of the data. */
    var offsets: seq<int>
    /** The second half of blockOffsets_: the largest index visited in each block, relative to it. */
    var visited: seq<nat>

    ghost function At(i: nat): (r: int)
      requires i <= |types| && |starts| == |types| / 16 + 1
    {
      Scan(types, data, starts, i)
    }

    ghost predicate Shaped()
      reads this
    {
      |starts| == |types| / 16 + 1 && |visited| == |starts| && |offsets| == |types| + 1
    }

    /** What every use keeps: cached offsets are right, block starts are cached, and so is each
        block's visited mark. */
    ghost predicate Valid()
      reads this
    {
      Shaped() &&
      (forall i :: 0 <= i < |offsets| ==> offsets[i] == -1 || offsets[i] == At(i) >= 0) &&
      offsets[|types|] >= 0 &&
      (forall b :: 0 <= b < |starts| && 16 * b < |types| ==> offsets[16 * b] >= 0) &&
      (forall b :: 0 <= b < |visited| ==> visited[b] < 16 && 16 * b + visited[b] <= |types|) &&
      (forall b :: 0 <= b < |visited| ==> offsets[16 * b + visited[b]] >= 0)
    }

    /** Nothing below a visited mark is missing from the cache. */
    ghost predicate NoHoles()
      requires Shaped()
      reads this
    {
      forall i :: 0 <= i < |types| && i % 16 <= visited[i / 16] ==> offsets[i] >= 0
    }

    /** Nothing was looked up yet. */
    ghost predicate Untouched()
      requires Shaped()
      reads this
    {
      (forall i :: 0 <= i < |types| && i % 16 != 0 ==> offsets[i] == -1) &&
      (forall b :: 0 <= b < |visited| ==> visited[b] == 0)
    }

    /** What processHeader leaves: block starts and the end are known, nothing else. */
    constructor (types: seq<SupportedType>, data: seq<byte>, starts: seq<nat>)
      requires |starts| == |types| / 16 + 1
      ensures this.types == types && this.data == data && this.starts == starts
      ensures Valid() && NoHoles() && Untouched()
    {
      this.types, this.data, this.starts := types, data, starts;
      offsets := seq(|types| + 1, i requires 0 <= i <= |types| =>
        if i == |types| then |data| else if i % 16 == 0 then starts[i / 16] else -1);
      visited := seq(|starts|, b => 0);
      new;
      forall i | 0 <= i < |offsets|
        ensures offsets[i] == -1 || offsets[i] == At(i) >= 0
      {
        hide Valid, NoHoles;
      }
    }

    /** Lines 280-345 of RowReader.cpp: the start of the field after `index`, whose own start is `offset`. */
    method SkipToNext(index: nat, offset: nat) returns (r: int)
      requires Valid() && index < |types| && offset == At(index)
      modifies this
      ensures Valid() && r == At(index + 1)
      ensures old(offsets[index + 1]) >= 0 || r < 0 ==> offsets == old(offsets) && visited == old(visited)
      ensures old(offsets[index + 1]) < 0 && r >= 0 ==>
        index + 1 < |types| && (index + 1) / 16 == index / 16 &&
        offsets == old(offsets)[index + 1 := r] && visited == old(visited)[index / 16 := index % 16 + 1]
    {
      if offsets[index + 1] >= 0 {
        return offsets[index + 1];
      }
      BlockInside(index);
      var next := SkipField(types[index], data, offset);
      if next < 0 {
        return E_DATA_INVALID;
      }
      offsets := offsets[index + 1 := next];
      var base := (index + 1) / 16;
      visited := visited[base := (index + 1) % 16];
      return next;
    }

    /** An unknown offset lies strictly inside a block. */
    lemma BlockInside(index: nat)
      requires Valid() && index < |types|
      ensures offsets[index + 1] < 0 ==>
        index + 1 < |types| && (index + 1) % 16 == index % 16 + 1 && (index + 1) / 16 == index / 16
    {
      if index + 1 < |types| && (index + 1) % 16 == 0 {
        assert offsets[16 * ((index + 1) / 16)] >= 0;
      }
    }

    /** The field lies below its block's visited mark but was never cached. */
    ghost predicate Hole(index: nat)
      requires Shaped() && index < |types|
      reads this
    {
      index % 16 <= visited[index / 16] && offsets[index] < 0
    }

    /** The fields of a block from its start up to i are cached. */
    ghost predicate Cached(block: nat, i: nat)
      requires Shaped() && i <= |types|
      reads this
    {
      forall j :: 16 * block <= j <= i ==> offsets[j] >= 0
    }

    /** Lines 348-372 of RowReader.cpp: from any cache state the linear scan's answer, except at a hole. */
    method SkipToField(index: nat) returns (r: int)
      requires Valid()
      modifies this
      ensures Valid()
      ensures index >= |types| ==> r == E_INDEX_OUT_OF_RANGE && offsets == old(offsets) && visited == old(visited)
      ensures index < |types| ==> r == if old(Hole(index)) then -1 else At(index)
      ensures old(NoHoles()) ==> NoHoles()
    {
      hide Scan;
      if index >= |types| {
        return E_INDEX_OUT_OF_RANGE;
      }
      var base := index / 16;
      var maxVisited := 16 * base + visited[base];
      if index <= maxVisited {
        return offsets[index];
      }
      var offset := offsets[maxVisited];
      for i := maxVisited to index
        invariant Valid() && offset == At(i) >= 0 && i / 16 == base
        invariant old(NoHoles()) ==> NoHoles() && Cached(base, i)
      {
        offset := Advance(i, offset);
        if offset < 0 {
          ScanFails(types, data, starts, i + 1, index);
          return E_DATA_INVALID;
        }
      }
      return offset;
    }

    /** One step of the scan inside a block whose earlier fields are cached. */
    method Advance(index: nat, offset: nat) returns (r: int)
      requires Valid() && index < |types| && offset == At(index)
      modifies this
      ensures Valid() && r == At(index + 1)
      ensures old(NoHoles() && Cached(index / 16, index)) ==>
        NoHoles() && (r >= 0 ==> Cached(index / 16, index + 1))
    {
      hide Scan;
      r := SkipToNext(index, offset);
    }

    /** The row read is the one that was written from `values`. */
    ghost predicate Holds(values: seq<Value>) {
      WellTyped(types, values) &&
      data == Concat(Fields(types, values)) && starts == BlockStarts(Fields(types, values))
    }

    lemma FieldHeld(values: seq<Value>, index: nat)
      requires Holds(values) && index < |types|
      ensures At(index) >= 0 && FieldAt(types[index], values[index], data, At(index))
      ensures At(index + 1) == At(index) + |EncodeField(types[index], values[index])|
    {
      hide Scan, Start, Concat, BlockStarts, EncodeField;
      var cs := Fields(types, values);
      ScanIsStart(types, values, index);
      ScanIsStart(types, values, index + 1);
      ChunkAt(cs, index);
      StartNext(cs, index);
    }

    /** The accessors by index (RR_GET_OFFSET and the typed read). */
    method GetField(fc: FloatCasts, g: Getter, index: nat) returns (r: Got)
      requires Valid()
      modifies this
      ensures Valid() && (old(NoHoles()) ==> NoHoles())
      ensures index >= |types| ==> r == GotErr(E_INDEX_OUT_OF_RANGE)
      ensures index < |types| && old(!Hole(index)) ==>
        r == if At(index) < 0 then GotErr(E_DATA_INVALID) else Get(fc, g, types[index], data, At(index))
      ensures index < |types| && old(Hole(index)) ==> r == GotErr(E_NAME_NOT_FOUND)
    {
      var offset := SkipToField(index);
      if offset < 0 {
        return GotErr(offset);
      }
      return Get(fc, g, types[index], data, offset);
    }

    lemma ReadsHeld(fc: FloatCasts, g: Getter, index: nat, values: seq<Value>)
      requires Holds(values) && index < |types|
      ensures At(index) >= 0
      ensures Get(fc, g, types[index], data, At(index)) == Expected(fc, g, index, types, values)
    {
      FieldHeld(values, index);
      ReadsField(fc, g, types[index], values[index], data, At(index));
    }

    /** On a written row, a read without a hole gives what the accessor gives of the written value. */
    method ReadOne(fc: FloatCasts, g: Getter, index: nat, ghost values: seq<Value>) returns (r: Got)
      requires Valid() && NoHoles() && Holds(values)
      modifies this
      ensures Valid() && NoHoles() && r == Expected(fc, g, index, types, values)
    {
      if index < |types| {
        ReadsHeld(fc, g, index, values);
      }
      hide Get, Reading, Holds, Valid, Scan;
      r := GetField(fc, g, index);
    }

    /** Any random-access reads in any order give what was written. */
    method ReadAll(fc: FloatCasts, asked: seq<(Getter, nat)>, ghost values: seq<Value>) returns (out: seq<Got>)
      requires Valid() && NoHoles() && Holds(values)
      modifies this
      ensures Valid() && NoHoles() && |out| == |asked|
      ensures forall k :: 0 <= k < |asked| ==> out[k] == Expected(fc, asked[k].0, asked[k].1, types, values)
    {
      hide Expected, NoHoles;
      out := [];
      for k := 0 to |asked|
        invariant Valid() && NoHoles() && |out| == k
        invariant forall j :: 0 <= j < k ==> out[j] == Expected(fc, asked[j].0, asked[j].1, types, values)
      {
        var r := ReadOne(fc, asked[k].0, asked[k].1, values);
        out := out + [r];
      }
    }
  }

  /** What reading field `index` must give. */
  ghost function Expected(fc: FloatCasts, g: Getter, index: nat, types: seq<SupportedType>, values: seq<Value>): Got
    requires WellTyped(types, values)
  {
    if index >= |types| then GotErr(E_INDEX_OUT_OF_RANGE)
    else Reading(fc, g, types[index], values[index])
  }

  /** RowReader::Iterator together with its cell. */
  class RowIterator {
    const reader: RowReader
    var index: nat
    var bytes: nat
    var offset: int

    /** The iterator stands at the true start of its field; a cell that was read is known by its length. */
    ghost predicate Stands(values: seq<Value>)
      reads this, reader
    {
      reader.Valid() && reader.Holds(values) && index <= |reader.types| &&
      (index < |reader.types| ==>
        offset == reader.At(index) &&
        (bytes == 0 || bytes == |EncodeField(reader.types[index], values[index])|))
    }

    constructor (reader: RowReader, ghost values: seq<Value>)
      requires reader.Valid() && reader.Holds(values)
      ensures this.reader == reader && Stands(values) && index == 0 && bytes == 0
    {
      this.reader, index, bytes, offset := reader, 0, 0, 0;
      new;
      if 0 < |reader.types| {
        assert reader.starts[0] == Start(Fields(reader.types, values), 0) == 0;
      }
    }

    /** Lines 83-88 of RowReader.cpp: skip a cell that was not read. */
    method SkipCell(ghost values: seq<Value>)
      requires Stands(values) && index < |reader.types| && bytes == 0
      modifies this`offset, reader
      ensures reader.Valid() && offset == reader.At(index + 1) >= 0
      ensures old(reader.offsets[index + 1]) >= 0 ==>
        reader.offsets == old(reader.offsets) && reader.visited == old(reader.visited)
      ensures old(reader.offsets[index + 1]) < 0 ==>
        index + 1 < |reader.types| && (index + 1) / 16 == index / 16 &&
        reader.offsets == old(reader.offsets)[index + 1 := offset] &&
        reader.visited == old(reader.visited)[index / 16 := index % 16 + 1]
    {
      hide Scan, EncodeField, RowReader.Holds, RowReader.At;
      reader.FieldHeld(values, index);
      offset := reader.SkipToNext(index, offset);
      if offset < 0 {
        // the error exit at the end of the row is not reached on a written row
        assert false;
      }
    }

    /** operator++: one field on, whether the cell was read or is skipped. */
    method Next(ghost values: seq<Value>)
      requires Stands(values)
      modifies this, reader
      ensures Stands(values) && bytes == (if old(index) < |reader.types| then 0 else old(bytes))
      ensures index == if old(index) < |reader.types| then old(index) + 1 else old(index)
      ensures old(index == |reader.types| || bytes > 0 || reader.offsets[index + 1] >= 0) ==>
        reader.offsets == old(reader.offsets) && reader.visited == old(reader.visited)
      ensures old(index < |reader.types| && bytes == 0 && reader.offsets[index + 1] < 0) ==>
        index < |reader.types| && index / 16 == old(index) / 16 && offset >= 0 &&
        reader.offsets == old(reader.offsets)[index := offset] &&
        reader.visited == old(reader.visited)[old(index) / 16 := old(index) % 16 + 1]
    {
      hide Scan, EncodeField, RowReader.Holds, RowReader.At;
      if index != |reader.types| {
        reader.FieldHeld(values, index);
        if bytes > 0 {
          offset := offset + bytes;
        } else {
          SkipCell(values);
        }
        bytes := 0;
        index := index + 1;
      }
    }

    /** A cell accessor (RR_CELL_GET_VALUE): a refused read ends the iteration. A read leaves the
        iterator standing right exactly unless it took fewer bytes than the field has. */
    method ReadCell(fc: FloatCasts, g: Getter, ghost values: seq<Value>) returns (r: Got)
      requires Stands(values)
      modifies this
      ensures old(index) == |reader.types| ==> r == GotErr(E_INDEX_OUT_OF_RANGE) && index == old(index)
      ensures old(index) < |reader.types| ==> r == Expected(fc, g, old(index), reader.types, values)
      ensures index == if r.GotErr? then |reader.types| else old(index)
      ensures bytes == match r case Got(_, len) => len case GotUnset => 0 case GotErr(_) => old(bytes)
      ensures Stands(values) <==>
        !(old(index) < |reader.types| && r.Got? && CutShort(reader.types[old(index)], values[old(index)]))
    {
      if index == |reader.types| {
        return GotErr(E_INDEX_OUT_OF_RANGE);
      }
      reader.ReadsHeld(fc, g, index, values);
      hide Scan, Get, EncodeField, View;
      r := Get(fc, g, reader.types[index], reader.data, offset);
      match r
      case Got(_, len) => bytes := len;
      case GotUnset => bytes := 0;
      case GotErr(_) => index := |reader.types|;
    }
  }

  /** The 32-bit count of a string is positive and too small, as it can be from 2^32 bytes on. */
  ghost predicate CutShort(t: SupportedType, v: Value)
    requires HasType(t, v)
  {
    t.STRING? && 0 < ToInt32(|EncodeField(t, v)|) != |EncodeField(t, v)|
  }

  lemma ShortNotCut(t: SupportedType, v: Value)
    requires HasType(t, v) && |EncodeField(t, v)| < TWO_32
    ensures !CutShort(t, v)
  {
    hide EncodeField;
  }

  // ----- passing over a row -----

  /** What is asked of each cell: an accessor, or nothing. */
  type Pattern = seq<Option<Getter>>

  ghost predicate Refused(fc: FloatCasts, asked: Option<Getter>, t: SupportedType, v: Value)
    requires HasType(t, v)
  {
    asked.Some? && Reading(fc, asked.value, t, v).GotErr?
  }

  /** The cell was read with some bytes taken, so that its end is not looked up in passing. */
  ghost predicate Taken(fc: FloatCasts, asked: Option<Getter>, t: SupportedType, v: Value)
    requires HasType(t, v)
  {
    asked.Some? && Reading(fc, asked.value, t, v).Got? && Reading(fc, asked.value, t, v).len > 0
  }

  ghost function TakenCells(fc: FloatCasts, asked: Pattern, types: seq<SupportedType>, values: seq<Value>)
    : (took: seq<bool>)
    requires WellTyped(types, values) && |asked| == |types|
    ensures |took| == |types| && forall i :: 0 <= i < |types| ==> took[i] == Taken(fc, asked[i], types[i], values[i])
  {
    seq(|types|, i requires 0 <= i < |types| => Taken(fc, asked[i], types[i], values[i]))
  }

  /** A field's block and its place in it. */
  function Block(i: nat): nat {
    i / 16
  }

  function Slot(i: nat): nat {
    i % 16
  }

  lemma Places(i: nat)
    ensures i == 16 * Block(i) + Slot(i) && Slot(i) < 16
  {
  }

  lemma PlaceOf(b: nat, s: nat)
    requires s < 16
    ensures Block(16 * b + s) == b && Slot(16 * b + s) == s
  {
  }

  lemma NextPlace(p: nat)
    requires Slot(p + 1) != 0
    ensures Block(p + 1) == Block(p) && Slot(p + 1) == Slot(p) + 1
  {
  }

  /** The cache after the first p cells were passed. */
  ghost predicate Passed(offsets: seq<int>, visited: seq<nat>, took: seq<bool>, p: nat) {
    |offsets| == |took| + 1 && |visited| == Block(|took|) + 1 && p <= |took| && offsets[|took|] >= 0 &&
    (forall i :: 0 <= i < |took| ==> (offsets[i] >= 0 <==> Known(took, p, i))) &&
    (forall i :: 0 <= i < |took| && Known(took, p, i) ==> Below(visited, i)) &&
    (forall b :: 0 <= b < |visited| && visited[b] > 0 ==> Marked(took, p, b, visited[b]))
  }

  /** A block start, or a field behind a cell that was passed and not taken. */
  ghost predicate Known(took: seq<bool>, p: nat, i: nat)
    requires i < |took|
  {
    Slot(i) == 0 || (0 < i <= p && !took[i - 1])
  }

  ghost predicate Below(visited: seq<nat>, i: nat) {
    Block(i) < |visited| && Slot(i) <= visited[Block(i)]
  }

  /** A block's mark stands at a known field. */
  ghost predicate Marked(took: seq<bool>, p: nat, b: nat, mark: nat) {
    mark < 16 && 16 * b + mark < |took| && Known(took, p, 16 * b + mark)
  }

  lemma KnownNext(took: seq<bool>, p: nat, i: nat)
    requires p < |took| && i < |took|
    ensures Known(took, p + 1, i) <==> Known(took, p, i) || (i == p + 1 && !took[p])
  {
    hide Slot;
  }

  lemma PassedOver(offsets: seq<int>, visited: seq<nat>, took: seq<bool>, p: nat)
    requires Passed(offsets, visited, took, p) && p < |took| && (took[p] || offsets[p + 1] >= 0)
    ensures Passed(offsets, visited, took, p + 1)
  {
    hide Block, Slot, Below, Known;
    forall i | 0 <= i < |took|
      ensures Known(took, p + 1, i) <==> Known(took, p, i)
    {
      KnownNext(took, p, i);
    }
  }

  lemma PassedNext(offsets: seq<int>, visited: seq<nat>, took: seq<bool>, p: nat, next: nat)
    requires Passed(offsets, visited, took, p) && p < |took| && !took[p] && offsets[p + 1] < 0
    ensures p + 1 < |took| && Slot(p + 1) != 0 && Block(p) < |visited|
    ensures Passed(offsets[p + 1 := next], visited[Block(p) := Slot(p) + 1], took, p + 1)
  {
    hide Block, Slot, Below, Known, Marked;
    assert p + 1 < |took| && !Known(took, p, p + 1);
    NextMark(visited, took, p);
    var v := visited[Block(p) := Slot(p) + 1];
    forall i | 0 <= i < |took|
      ensures Known(took, p + 1, i) <==> Known(took, p, i) || i == p + 1
      ensures Known(took, p + 1, i) ==> Below(v, i)
    {
      KnownNext(took, p, i);
      if Known(took, p + 1, i) {
        BelowNext(visited, took, p, i);
      }
    }
    forall b | 0 <= b < |v| && v[b] > 0
      ensures Marked(took, p + 1, b, v[b])
    {
      if b != Block(p) {
        MarkedNext(took, p, b, v[b]);
      }
    }
  }

  /** The mark moves to the field behind the cell just passed. */
  lemma NextMark(visited: seq<nat>, took: seq<bool>, p: nat)
    requires p + 1 < |took| && !took[p] && !Known(took, p, p + 1) && |visited| == Block(|took|) + 1
    ensures Slot(p + 1) != 0 && Block(p) < |visited| && Marked(took, p + 1, Block(p), Slot(p) + 1)
  {
    hide Block, Slot;
    NextPlace(p);
    Places(p);
    Places(p + 1);
    Places(|took|);
  }

  lemma BelowNext(visited: seq<nat>, took: seq<bool>, p: nat, i: nat)
    requires p + 1 < |took| && Slot(p + 1) != 0 && Block(p) < |visited| && i < |took|
    requires Known(took, p + 1, i) && (Known(took, p, i) ==> Below(visited, i)) && (i == p + 1 || Known(took, p, i))
    ensures Below(visited[Block(p) := Slot(p) + 1], i)
  {
    hide Block, Slot;
    NextPlace(p);
    Places(p);
    Places(i);
  }

  lemma MarkedNext(took: seq<bool>, p: nat, b: nat, mark: nat)
    requires p < |took| && Marked(took, p, b, mark)
    ensures Marked(took, p + 1, b, mark)
  {
    hide Slot;
    KnownNext(took, p, 16 * b + mark);
  }

  /** Field i cannot be read by index after the first p cells were passed: it is inside a block,
      the cell before it was taken, and the end of some later cell was looked up in the block. */
  ghost predicate Lost(took: seq<bool>, p: nat, i: nat) {
    0 < i <= p <= |took| && i < |took| && Slot(i) != 0 && took[i - 1] && exists j :: LookedUp(took, p, i, j)
  }

  ghost predicate LookedUp(took: seq<bool>, p: nat, i: nat, j: nat) {
    i < j <= p <= |took| && j < |took| && Block(j) == Block(i) && !took[j - 1]
  }

  lemma HoleIffLost(offsets: seq<int>, visited: seq<nat>, took: seq<bool>, p: nat, i: nat)
    requires Passed(offsets, visited, took, p) && i < |took|
    ensures Below(visited, i) && offsets[i] < 0 <==> Lost(took, p, i)
  {
    hide Block, Slot, Known, Marked;
    Places(i);
    Places(|took|);
    assert Block(i) < |visited|;
    if Below(visited, i) && offsets[i] < 0 {
      UnknownInside(took, p, i);
      LostBelow(visited, took, p, i);
    }
    if Lost(took, p, i) {
      var j: nat :| LookedUp(took, p, i, j);
      Places(j);
      LostKnown(took, p, i, j);
    }
  }

  lemma UnknownInside(took: seq<bool>, p: nat, i: nat)
    requires i < |took| && !Known(took, p, i)
    ensures Slot(i) > 0 && i > 0
  {
  }

  /** An unknown field below its block's mark is lost. */
  lemma LostBelow(visited: seq<nat>, took: seq<bool>, p: nat, i: nat)
    requires p <= |took| && i < |took| && !Known(took, p, i) && Below(visited, i) && Slot(i) > 0
    requires Marked(took, p, Block(i), visited[Block(i)])
    ensures Lost(took, p, i)
  {
    hide Block, Slot;
    var b := Block(i);
    Places(i);
    PlaceOf(b, visited[b]);
    assert LookedUp(took, p, i, 16 * b + visited[b]);
  }

  lemma LostKnown(took: seq<bool>, p: nat, i: nat, j: nat)
    requires Lost(took, p, i) && LookedUp(took, p, i, j)
    ensures !Known(took, p, i) && Known(took, p, j)
  {
    hide Slot;
  }

  ghost predicate NoneRefused(fc: FloatCasts, asked: Pattern, types: seq<SupportedType>, values: seq<Value>, p: nat)
    requires WellTyped(types, values) && p <= |asked| == |types|
  {
    forall i :: 0 <= i < p ==> !Refused(fc, asked[i], types[i], values[i])
  }

  /** The first cell whose read is refused, or the number of cells. */
  ghost predicate Ends(fc: FloatCasts, asked: Pattern, types: seq<SupportedType>, values: seq<Value>, p: nat)
    requires WellTyped(types, values) && |asked| == |types|
  {
    p <= |types| && NoneRefused(fc, asked, types, values, p) &&
    (p < |types| ==> Refused(fc, asked[p], types[p], values[p]))
  }

  /** The reader of an iteration is as Passed says. */
  ghost predicate Underway(it: RowIterator, values: seq<Value>, took: seq<bool>, p: nat)
    reads it, it.reader
  {
    it.Stands(values) && |took| == |it.reader.types| && Passed(it.reader.offsets, it.reader.visited, took, p)
  }

  lemma NonePassed(it: RowIterator, values: seq<Value>, took: seq<bool>)
    requires it.Stands(values) && it.reader.Untouched() && |took| == |it.reader.types|
    ensures Underway(it, values, took, 0)
  {
    hide Scan, EncodeField, RowReader.Holds;
    var r := it.reader;
    forall i | 0 <= i < |r.types| && i % 16 == 0
      ensures r.offsets[i] >= 0
    {
      assert 16 * (i / 16) == i;
    }
  }

  /** One cell: read if asked for, then passed unless the read was refused. */
  method Visit(it: RowIterator, fc: FloatCasts, asked: Option<Getter>, ghost values: seq<Value>, ghost took: seq<bool>)
    returns (refused: bool)
    requires Underway(it, values, took, it.index) && it.index < |took| && it.bytes == 0
    requires took[it.index] == Taken(fc, asked, it.reader.types[it.index], values[it.index])
    requires asked.Some? ==> !CutShort(it.reader.types[it.index], values[it.index])
    modifies it, it.reader
    ensures refused == Refused(fc, asked, it.reader.types[old(it.index)], values[old(it.index)])
    ensures it.index == if refused then |took| else old(it.index) + 1
    ensures Underway(it, values, took, if refused then old(it.index) else it.index) && it.bytes == 0
  {
    hide Scan, Reading, RowReader.Holds, RowReader.At, EncodeField, CutShort, Passed;
    ghost var p, o, v := it.index, it.reader.offsets, it.reader.visited;
    if asked.Some? {
      var r := it.ReadCell(fc, asked.value, values);
      if r.GotErr? {
        return true;
      }
    }
    assert took[p] <==> it.bytes > 0;
    if took[p] || o[p + 1] >= 0 {
      PassedOver(o, v, took, p);
    }
    it.Next(values);
    if !took[p] && o[p + 1] < 0 {
      PassedNext(o, v, took, p, it.offset);
    }
    return false;
  }

  /** The cells one after the other, up to the end or the first refused read. */
  method VisitAll(it: RowIterator, fc: FloatCasts, asked: Pattern, ghost values: seq<Value>, ghost took: seq<bool>)
    returns (steps: nat)
    requires Underway(it, values, took, 0) && it.index == 0 && it.bytes == 0
    requires WellTyped(it.reader.types, values) && |asked| == |it.reader.types|
    requires took == TakenCells(fc, asked, it.reader.types, values)
    requires forall i :: 0 <= i < |asked| && asked[i].Some? ==> !CutShort(it.reader.types[i], values[i])
    modifies it, it.reader
    ensures Underway(it, values, took, steps) && it.index == |asked|
    ensures Ends(fc, asked, it.reader.types, values, steps)
  {
    hide CutShort, Underway, Refused, Taken;
    steps := 0;
    while it.index != |asked|
      invariant Underway(it, values, took, steps) && it.bytes == 0 && steps <= |asked|
      invariant it.index == steps || it.index == |asked|
      invariant it.index == steps ==> NoneRefused(fc, asked, it.reader.types, values, steps)
      invariant it.index != steps ==> Ends(fc, asked, it.reader.types, values, steps)
      decreases |asked| - it.index
    {
      var refused := Visit(it, fc, asked[it.index], values, took);
      if !refused {
        steps := steps + 1;
      }
    }
  }

  /** Passing over a row, reading cells through any accessors and skipping others: one increment for
      each cell up to the end or the first refused read. Afterwards exactly the lost fields are holes. */
  method Traverse(it: RowIterator, fc: FloatCasts, asked: Pattern, ghost values: seq<Value>)
    returns (steps: nat)
    requires it.Stands(values) && it.index == 0 && it.bytes == 0 && it.reader.Untouched()
    requires |asked| == |it.reader.types|
    requires forall i :: 0 <= i < |asked| && asked[i].Some? ==> !CutShort(it.reader.types[i], values[i])
    modifies it, it.reader
    ensures it.Stands(values) && it.index == |it.reader.types|
    ensures Ends(fc, asked, it.reader.types, values, steps)
    ensures forall i :: 0 <= i < |asked| ==>
      (it.reader.Hole(i) <==> Lost(TakenCells(fc, asked, it.reader.types, values), steps, i))
  {
    hide CutShort, Lost, Ends, RowReader.Hole, Scan, EncodeField, Passed;
    ghost var took := TakenCells(fc, asked, it.reader.types, values);
    NonePassed(it, values, took);
    steps := VisitAll(it, fc, asked, values, took);
    HolesAreLost(it, values, took, steps);
  }

  lemma HolesAreLost(it: RowIterator, values: seq<Value>, took: seq<bool>, p: nat)
    requires Underway(it, values, took, p)
    ensures it.reader.Shaped() && forall i :: 0 <= i < |took| ==> (it.reader.Hole(i) <==> Lost(took, p, i))
  {
    hide Scan, EncodeField, RowReader.Holds, RowReader.At, Lost, Passed;
    forall i | 0 <= i < |took|
      ensures it.reader.Hole(i) <==> Lost(took, p, i)
    {
      HoleIffLost(it.reader.offsets, it.reader.visited, took, p, i);
    }
  }

  /** A field read by index after a pass over the row: lost fields are reported missing, and every
      other one is read as if there had been no pass. */
  method TraverseThenRead(reader: RowReader, fc: FloatCasts, asked: Pattern, g: Getter, i: nat,
                          ghost values: seq<Value>) returns (r: Got, steps: nat)
    requires reader.Valid() && reader.Untouched() && reader.Holds(values)
    requires |asked| == |reader.types| && i < |asked|
    requires forall k :: 0 <= k < |asked| && asked[k].Some? ==> !CutShort(reader.types[k], values[k])
    modifies reader
    ensures Ends(fc, asked, reader.types, values, steps)
    ensures r ==
      if Lost(TakenCells(fc, asked, reader.types, values), steps, i) then GotErr(E_NAME_NOT_FOUND)
      else Expected(fc, g, i, reader.types, values)
  {
    hide CutShort, Lost, Ends, Scan, EncodeField, Get, Reading, RowReader.At;
    var it := new RowIterator(reader, values);
    steps := Traverse(it, fc, asked, values);
    reader.ReadsHeld(fc, g, i, values);
    r := reader.GetField(fc, g, i);
  }

  /** Reading the first of three boolean cells and skipping the others loses the second field. */
  method LostExample(reader: RowReader, fc: FloatCasts, g: Getter, ghost values: seq<Value>) returns (r: Got)
    requires reader.Valid() && reader.Untouched() && reader.Holds(values) && reader.types == [BOOL, BOOL, BOOL]
    modifies reader
    ensures r == GotErr(E_NAME_NOT_FOUND)
  {
    hide RowReader.Valid, RowReader.Untouched, Lost, Ends, TakenCells, Concat, BlockStarts;
    var asked: Pattern := [Some(GetBool), None, None];
    var steps;
    r, steps := TraverseThenRead(reader, fc, asked, g, 1, values);
    FirstReadOnly(fc, reader.types, values, steps);
  }

  lemma FirstReadOnly(fc: FloatCasts, types: seq<SupportedType>, values: seq<Value>, steps: nat)
    requires types == [BOOL, BOOL, BOOL] && WellTyped(types, values)
    requires Ends(fc, [Some(GetBool), None, None], types, values, steps)
    ensures Lost(TakenCells(fc, [Some(GetBool), None, None], types, values), steps, 1)
  {
    var asked: Pattern := [Some(GetBool), None, None];
    assert forall i :: 0 <= i < 3 ==> !Refused(fc, asked[i], types[i], values[i]);
    assert LookedUp(TakenCells(fc, asked, types, values), 3, 1, 2);
  }
}
