/** Snapshot delivery: the rows of a partition handed to a callback in batches. */
module Snapshot {
  import opened Bytes
  import opened LogCodec

  datatype Status = IN_PROGRESS | DONE | FAILED

  /** One invocation of the callback. */
  datatype Call = Call(data: seq<Str>, count: nat, size: nat, status: Status)

  function Encoded(rows: seq<(Str, Str)>): (data: seq<Str>)
    ensures |data| == |rows|
    ensures forall i :: 0 <= i < |rows| ==> data[i] == KV(rows[i].0, rows[i].1)
  {
    if rows == [] then []
    else Encoded(rows[..|rows| - 1]) + [KV(rows[|rows| - 1].0, rows[|rows| - 1].1)]
  }

  function Total(data: seq<Str>): nat {
    if data == [] then 0 else Total(data[..|data| - 1]) + |data[|data| - 1]|
  }

  /** All the data handed over by the calls. */
  function Delivered(calls: seq<Call>): seq<Str> {
    if calls == [] then [] else Delivered(calls[..|calls| - 1]) + calls[|calls| - 1].data
  }

  /** The running totals of a call are the sums of what was delivered up to and including it. */
  ghost predicate Counted(calls: seq<Call>, i: nat)
    requires i < |calls|
  {
    calls[i].count == |Delivered(calls[..i + 1])| && calls[i].size == Total(Delivered(calls[..i + 1]))
  }

  /** The batch reaches the limit with its last row and not before. */
  ghost predicate JustReaches(data: seq<Str>, limit: int) {
    data != [] && Total(data[..|data| - 1]) < limit <= Total(data)
  }

  /** Batch sizes stay within the 32-bit counter. */
  ghost predicate Fits(rows: seq<(Str, Str)>, limit: int) {
    0 < limit < TWO_31 &&
    forall i :: 0 <= i < |rows| ==> limit + |KV(rows[i].0, rows[i].1)| <= TWO_31
  }

  /** Calls so far, all in progress and all accepted. */
  ghost predicate Accepted(calls: seq<Call>, accept: nat -> bool) {
    forall i :: 0 <= i < |calls| ==>
      calls[i].status == IN_PROGRESS && accept(i) && Counted(calls, i)
  }

  ghost predicate Batched(calls: seq<Call>, limit: int) {
    forall i :: 0 <= i < |calls| ==> calls[i].status == IN_PROGRESS ==> JustReaches(calls[i].data, limit)
  }

  /** What a whole delivery of the rows looks like. */
  ghost predicate Delivery(calls: seq<Call>, rows: seq<(Str, Str)>, accept: nat -> bool) {
    |calls| > 0 &&
    var n := |calls| - 1;
    var got := Delivered(calls);
    Accepted(calls[..n], accept) && Counted(calls, n) &&
    match calls[n].status
    case DONE => got == Encoded(rows)
    case IN_PROGRESS => !accept(n) && |got| < |rows| && got == Encoded(rows[..|got|])
    case FAILED => false
  }

  /** One more call behind the others. */
  lemma CallsSnoc(calls: seq<Call>, c: Call)
    requires c.count == |Delivered(calls) + c.data| && c.size == Total(Delivered(calls) + c.data)
    ensures Delivered(calls + [c]) == Delivered(calls) + c.data
    ensures Counted(calls + [c], |calls|)
    ensures forall i :: 0 <= i < |calls| && Counted(calls, i) ==> Counted(calls + [c], i)
  {
    var longer := calls + [c];
    assert longer[..|calls|] == calls && longer[..|calls| + 1] == longer;
    forall i | 0 <= i < |calls| && Counted(calls, i)
      ensures Counted(longer, i)
    {
      assert longer[..i + 1] == calls[..i + 1];
    }
  }

  /** One more row in the batch. */
  lemma RowSnoc(rows: seq<(Str, Str)>, n: nat, got: seq<Str>, data: seq<Str>)
    requires n < |rows| && got + data == Encoded(rows[..n])
    ensures var row := KV(rows[n].0, rows[n].1);
      got + (data + [row]) == Encoded(rows[..n + 1]) &&
      Total(got + (data + [row])) == Total(got + data) + |row| &&
      Total(data + [row]) == Total(data) + |row|
  {
    var row := KV(rows[n].0, rows[n].1);
    assert rows[..n + 1][..n] == rows[..n];
    assert got + (data + [row]) == (got + data) + [row];
    assert ((got + data) + [row])[..|got + data|] == got + data;
    assert (data + [row])[..|data|] == data;
  }

  /** The state of the loop of AccessAllRows after n rows. */
  ghost predicate Underway(rows: seq<(Str, Str)>, n: nat, limit: int, accept: nat -> bool,
                           calls: seq<Call>, data: seq<Str>, totalCount: nat, totalSize: nat) {
    n <= |rows| && totalCount == n &&
    Accepted(calls, accept) && (Fits(rows, limit) ==> Batched(calls, limit)) &&
    Delivered(calls) + data == Encoded(rows[..n]) &&
    totalSize == Total(Delivered(calls) + data)
  }

  /** The size counter is exact, and the batch was below the limit before its last row. */
  ghost predicate Filling(rows: seq<(Str, Str)>, limit: int, data: seq<Str>, batchSize: int) {
    Fits(rows, limit) ==>
      batchSize == Total(data) && (data != [] ==> Total(data[..|data| - 1]) < limit)
  }

  /** Calling back with the batch. */
  lemma CallBack(rows: seq<(Str, Str)>, n: nat, limit: int, accept: nat -> bool,
                 calls: seq<Call>, data: seq<Str>, c: Call)
    requires Underway(rows, n, limit, accept, calls, data, c.count, c.size) && c.data == data
    requires c.status == IN_PROGRESS && Fits(rows, limit) ==> JustReaches(data, limit)
    requires match c.status case DONE => n == |rows| case IN_PROGRESS => n < |rows| case FAILED => false
    ensures c.status == IN_PROGRESS && accept(|calls|) ==>
      Underway(rows, n, limit, accept, calls + [c], [], c.count, c.size)
    ensures c.status == DONE || !accept(|calls|) ==> Delivery(calls + [c], rows, accept)
    ensures Fits(rows, limit) ==> Batched(calls + [c], limit)
  {
    hide Delivered, Total, Encoded, Counted, JustReaches, Fits;
    CallsSnoc(calls, c);
    assert Delivered(calls + [c]) + [] == Delivered(calls + [c]);
    assert (calls + [c])[..|calls|] == calls;
    assert rows[..|rows|] == rows;
  }

  /** Adding the next row. */
  lemma AddRow(rows: seq<(Str, Str)>, n: nat, limit: int, accept: nat -> bool, calls: seq<Call>,
               data: seq<Str>, totalCount: nat, totalSize: nat, batchSize: int)
    requires Underway(rows, n, limit, accept, calls, data, totalCount, totalSize) && n < |rows|
    requires Filling(rows, limit, data, batchSize) && (limit > 0 ==> batchSize < limit)
    ensures var row := KV(rows[n].0, rows[n].1);
      Underway(rows, n + 1, limit, accept, calls, data + [row], totalCount + 1, totalSize + |row|) &&
      Filling(rows, limit, data + [row], ToInt32(batchSize + |row|))
  {
    hide Delivered, Encoded, Accepted, Batched, KV, Total;
    RowSnoc(rows, n, Delivered(calls), data);
    var row := KV(rows[n].0, rows[n].1);
    assert (data + [row])[..|data|] == data;
  }

  /** Lines 15-53 of SnapshotManagerImpl.cpp. ok is the outcome of the prefix scan, rows what it iterates over, and
      accept(i) the answer of the i-th invocation of the callback. */
  method AccessAllRows(ok: bool, rows: seq<(Str, Str)>, limit: int, accept: nat -> bool)
    returns (calls: seq<Call>)
    ensures !ok ==> calls == [Call([], 0, 0, FAILED)]
    ensures ok ==> Delivery(calls, rows, accept)
    ensures ok && Fits(rows, limit) ==> Batched(calls, limit)
  {
    hide Underway, Filling, Delivery, Batched, Fits, KV;
    calls := [];
    var data: seq<Str> := [];
    var totalSize: nat, totalCount: nat := 0, 0;
    if !ok {
      calls := calls + [Call(data, totalCount, totalSize, FAILED)];
      return;
    }
    var batchSize, n := 0, 0;
    Initially(rows, limit, accept);
    while n < |rows|
      invariant n <= |rows|
      invariant Underway(rows, n, limit, accept, calls, data, totalCount, totalSize)
      invariant Filling(rows, limit, data, batchSize)
    {
      if batchSize >= limit {
        var c := Call(data, totalCount, totalSize, IN_PROGRESS);
        Full(rows, limit, data, batchSize);
        CallBack(rows, n, limit, accept, calls, data, c);
        calls := calls + [c];
        if accept(|calls| - 1) {
          data := [];
          batchSize := 0;
          NoneFilled(rows, limit);
        } else {
          return;
        }
      }
      var row := EncodeKV(rows[n].0, rows[n].1);
      AddRow(rows, n, limit, accept, calls, data, totalCount, totalSize, batchSize);
      data := data + [row];
      batchSize := ToInt32(batchSize + |row|);
      totalSize := totalSize + |row|;
      totalCount := totalCount + 1;
      n := n + 1;
    }
    var c := Call(data, totalCount, totalSize, DONE);
    CallBack(rows, n, limit, accept, calls, data, c);
    calls := calls + [c];
  }

  lemma Initially(rows: seq<(Str, Str)>, limit: int, accept: nat -> bool)
    ensures Underway(rows, 0, limit, accept, [], [], 0, 0) && Filling(rows, limit, [], 0)
  {
  }

  lemma NoneFilled(rows: seq<(Str, Str)>, limit: int)
    ensures Filling(rows, limit, [], 0)
  {
  }

  lemma Full(rows: seq<(Str, Str)>, limit: int, data: seq<Str>, batchSize: int)
    requires Filling(rows, limit, data, batchSize) && batchSize >= limit
    ensures Fits(rows, limit) ==> JustReaches(data, limit)
  {
  }

  /** A callback that always accepts gets everything, with exactly one DONE, last. */
  lemma AcceptedDelivery(calls: seq<Call>, rows: seq<(Str, Str)>, accept: nat -> bool)
    requires Delivery(calls, rows, accept) && forall i :: accept(i)
    ensures Delivered(calls) == Encoded(rows)
    ensures forall i :: 0 <= i < |calls| ==> (calls[i].status == DONE <==> i == |calls| - 1)
    ensures calls[|calls| - 1].count == |rows| && calls[|calls| - 1].size == Total(Encoded(rows))
  {
    var n := |calls| - 1;
    assert accept(n);
    assert calls[..n + 1] == calls;
    forall i | 0 <= i < n
      ensures calls[i].status == IN_PROGRESS
    {
      assert calls[..n][i].status == IN_PROGRESS;
    }
  }

  /** Whatever was delivered decodes to a prefix of the scan, and to all of it after DONE. */
  lemma DeliveryDecodes(calls: seq<Call>, rows: seq<(Str, Str)>, accept: nat -> bool)
    requires Delivery(calls, rows, accept)
    requires forall i :: 0 <= i < |rows| ==> |rows[i].0| < TWO_32 && |rows[i].1| < TWO_32
    ensures |Delivered(calls)| <= |rows|
    ensures forall i :: 0 <= i < |Delivered(calls)| ==> DecodeKV(Delivered(calls)[i]) == Some(rows[i])
    ensures calls[|calls| - 1].status == DONE <==> |Delivered(calls)| == |rows|
  {
    var got := Delivered(calls);
    assert rows[..|rows|] == rows;
    assert got == Encoded(rows[..|got|]);
    forall i | 0 <= i < |got|
      ensures DecodeKV(got[i]) == Some(rows[i])
    {
      KVRoundTrip(rows[i].0, rows[i].1);
    }
  }
}
