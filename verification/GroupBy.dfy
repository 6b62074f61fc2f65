/** GROUP BY: rows partitioned by key, with one shared aggregator for each group and column. */
module GroupBy {
  import opened Bytes
  import opened Multimaps
  import opened Aggregates

  type Row = seq<ColVal>
  type Key = seq<ColVal>

  /** The clauses: the key of a row, the function of each column, and its argument. Evaluation
      may fail. */
  datatype Clauses = Clauses(keyOf: Row -> Option<Key>, kinds: seq<Kind>, argOf: (Row, nat) -> Option<ColVal>)

  ghost predicate RowFails(cl: Clauses, row: Row) {
    cl.keyOf(row) == None || exists c :: 0 <= c < |cl.kinds| && cl.argOf(row, c) == None
  }

  ghost predicate Fails(cl: Clauses, rows: seq<Row>) {
    exists i :: 0 <= i < |rows| && RowFails(cl, rows[i])
  }

  /** The rows of a group, in order. */
  function RowsWith(cl: Clauses, rows: seq<Row>, k: Key): seq<Row> {
    if rows == [] then []
    else
      var last := rows[|rows| - 1];
      RowsWith(cl, rows[..|rows| - 1], k) + if cl.keyOf(last) == Some(k) then [last] else []
  }

  ghost predicate Occurs(cl: Clauses, rows: seq<Row>, k: Key) {
    RowsWith(cl, rows, k) != []
  }

  /** The values of a column over some rows. */
  function Args(cl: Clauses, rows: seq<Row>, c: nat): seq<ColVal> {
    if rows == [] then []
    else
      var v := cl.argOf(rows[|rows| - 1], c);
      Args(cl, rows[..|rows| - 1], c) + if v == None then [] else [v.value]
  }

  /** The values the aggregator of group k and column c has to see. */
  function Seen(cl: Clauses, rows: seq<Row>, k: Key, c: nat): seq<ColVal> {
    Args(cl, RowsWith(cl, rows, k), c)
  }

  lemma RowsSnoc(cl: Clauses, rows: seq<Row>, i: nat, k: Key)
    requires i < |rows|
    ensures RowsWith(cl, rows[..i + 1], k) ==
      RowsWith(cl, rows[..i], k) + if cl.keyOf(rows[i]) == Some(k) then [rows[i]] else []
  {
    assert rows[..i + 1][..i] == rows[..i];
  }

  lemma SeenSnoc(cl: Clauses, rows: seq<Row>, i: nat, k: Key, c: nat)
    requires i < |rows| && c < |cl.kinds| && !RowFails(cl, rows[i])
    ensures Seen(cl, rows[..i + 1], k, c) ==
      if cl.keyOf(rows[i]) == Some(k) then Seen(cl, rows[..i], k, c) + [cl.argOf(rows[i], c).value]
      else Seen(cl, rows[..i], k, c)
  {
    RowsSnoc(cl, rows, i, k);
    var before := RowsWith(cl, rows[..i], k);
    if cl.keyOf(rows[i]) == Some(k) {
      assert (before + [rows[i]])[..|before|] == before;
    } else {
      assert before + [] == before;
    }
  }

  // ----- the aggregators -----

  type Data = map<Key, seq<AggFun>>

  /** No aggregator is shared between groups or columns. */
  ghost predicate Separate(data: Data) {
    forall k, c, k', c' ::
      (k in data && k' in data && 0 <= c < |data[k]| && 0 <= c' < |data[k']| && data[k][c] == data[k'][c']) ==>
        k == k' && c == c'
  }

  ghost predicate Shaped(data: Data, kinds: seq<Kind>) {
    forall k :: k in data ==> |data[k]| == |kinds| && forall c :: 0 <= c < |kinds| ==> data[k][c].kind == kinds[c]
  }

  ghost function Objects(data: Data): set<object> {
    set k, c | k in data && 0 <= c < |data[k]| :: data[k][c]
  }

  /** Every aggregator has seen exactly the values of its group and column, in order. */
  ghost predicate Folded(cl: Clauses, rows: seq<Row>, data: Data)
    requires Shaped(data, cl.kinds)
    reads Objects(data)
  {
    forall k, c :: k in data && 0 <= c < |cl.kinds| ==>
      data[k][c].Valid() && data[k][c].applied == Seen(cl, rows, k, c)
  }

  ghost predicate Grouped(cl: Clauses, rows: seq<Row>, data: Data)
    reads Objects(data)
  {
    Shaped(data, cl.kinds) && Separate(data) && Folded(cl, rows, data) &&
    forall k :: k in data <==> Occurs(cl, rows, k)
  }

  ghost predicate DistinctFuns(funs: seq<AggFun>) {
    forall c, c' :: 0 <= c < c' < |funs| ==> funs[c] != funs[c']
  }

  /** Lines 278-282 of GroupByExecutor.cpp: the aggregators of a new group. */
  method NewFuns(kinds: seq<Kind>) returns (funs: seq<AggFun>)
    ensures |funs| == |kinds| && DistinctFuns(funs)
    ensures forall c :: 0 <= c < |kinds| ==>
      fresh(funs[c]) && funs[c].kind == kinds[c] && funs[c].Valid() && funs[c].applied == []
  {
    funs := [];
    for c := 0 to |kinds|
      invariant |funs| == c && DistinctFuns(funs)
      invariant forall j :: 0 <= j < c ==>
        fresh(funs[j]) && funs[j].kind == kinds[j] && funs[j].Valid() && funs[j].applied == []
    {
      var f := new AggFun(kinds[c]);
      funs := funs + [f];
    }
  }

  /** Lines 287-312 of GroupByExecutor.cpp: one row applied to the aggregators of its group, column by column. */
  method ApplyRow(cl: Clauses, row: Row, funs: seq<AggFun>) returns (ok: bool)
    requires |funs| == |cl.kinds| && DistinctFuns(funs) && cl.keyOf(row).Some?
    requires forall c :: 0 <= c < |funs| ==> funs[c].Valid()
    modifies funs
    ensures ok <==> !RowFails(cl, row)
    ensures forall c :: 0 <= c < |funs| ==> funs[c].Valid()
    ensures ok ==> forall c :: 0 <= c < |funs| ==> funs[c].applied == old(funs[c].applied) + [cl.argOf(row, c).value]
  {
    for c := 0 to |funs|
      invariant forall j :: 0 <= j < |funs| ==> funs[j].Valid()
      invariant forall j :: 0 <= j < c ==>
        cl.argOf(row, j).Some? && funs[j].applied == old(funs[j].applied) + [cl.argOf(row, j).value]
      invariant forall j :: c <= j < |funs| ==> funs[j].applied == old(funs[j].applied)
    {
      var v := cl.argOf(row, c);
      if v == None {
        return false;
      }
      funs[c].Apply(v.value);
    }
    return true;
  }

  lemma SeenNone(cl: Clauses, rows: seq<Row>, k: Key)
    requires RowsWith(cl, rows, k) == []
    ensures forall c :: Seen(cl, rows, k, c) == []
  {
  }

  /** Who is grouped after one more row. */
  lemma KeysSnoc(cl: Clauses, rows: seq<Row>, i: nat, k: Key)
    requires i < |rows| && cl.keyOf(rows[i]) == Some(k)
    ensures forall g: Key :: Occurs(cl, rows[..i + 1], g) <==> g == k || Occurs(cl, rows[..i], g)
  {
    forall g: Key
      ensures Occurs(cl, rows[..i + 1], g) <==> g == k || Occurs(cl, rows[..i], g)
    {
      RowsSnoc(cl, rows, i, g);
    }
  }

  /** A row of a group already there, changed through the shared aggregators. */
  method GroupOld(cl: Clauses, ghost rows: seq<Row>, ghost i: nat, row: Row, data: Data, k: Key)
    returns (ok: bool)
    requires i < |rows| && row == rows[i] && cl.keyOf(row) == Some(k)
    requires Grouped(cl, rows[..i], data) && k in data
    modifies data[k]
    ensures ok <==> !RowFails(cl, row)
    ensures ok ==> Grouped(cl, rows[..i + 1], data)
  {
    hide RowsWith, Seen, RowFails, AggFun.Valid;
    ok := ApplyRow(cl, row, data[k]);
    KeysSnoc(cl, rows, i, k);
    if ok {
      forall g, c | g in data && 0 <= c < |cl.kinds|
        ensures data[g][c].Valid() && data[g][c].applied == Seen(cl, rows[..i + 1], g, c)
      {
        SeenSnoc(cl, rows, i, g, c);
        if g != k {
          assert data[g][c] !in data[k];
        }
      }
    }
  }

  /** The first row of a group. */
  method GroupNew(cl: Clauses, ghost rows: seq<Row>, ghost i: nat, row: Row, data: Data, k: Key)
    returns (funs: seq<AggFun>, ok: bool)
    requires i < |rows| && row == rows[i] && cl.keyOf(row) == Some(k)
    requires Grouped(cl, rows[..i], data) && k !in data
    ensures forall c :: 0 <= c < |funs| ==> fresh(funs[c])
    ensures ok <==> !RowFails(cl, row)
    ensures ok ==> Grouped(cl, rows[..i + 1], data[k := funs])
  {
    hide RowsWith, Seen, RowFails, AggFun.Valid;
    funs := NewFuns(cl.kinds);
    ok := ApplyRow(cl, row, funs);
    KeysSnoc(cl, rows, i, k);
    if ok {
      ghost var data': Data := data[k := funs];
      SeenNone(cl, rows[..i], k);
      forall g, c | g in data' && 0 <= c < |cl.kinds|
        ensures data'[g][c].Valid() && data'[g][c].applied == Seen(cl, rows[..i + 1], g, c)
      {
        SeenSnoc(cl, rows, i, g, c);
      }
    }
  }

  /** Lines 243-317 of GroupByExecutor.cpp: one row. */
  method GroupRow(cl: Clauses, ghost rows: seq<Row>, ghost i: nat, row: Row, data: Data)
    returns (data': Data, ok: bool)
    requires i < |rows| && row == rows[i] && Grouped(cl, rows[..i], data)
    modifies Objects(data)
    ensures ok <==> !RowFails(cl, row)
    ensures ok ==> Grouped(cl, rows[..i + 1], data')
    ensures forall o :: o in Objects(data') ==> o in Objects(data) || fresh(o)
  {
    hide Grouped;
    data', ok := data, false;
    var key := cl.keyOf(row);
    if key == None {
      return;
    }
    if key.value in data {
      ok := GroupOld(cl, rows, i, row, data, key.value);
    } else {
      var funs;
      funs, ok := GroupNew(cl, rows, i, row, data, key.value);
      data' := data[key.value := funs];
    }
  }

  /** Lines 241-317 of GroupByExecutor.cpp: all rows. */
  method GroupRows(cl: Clauses, rows: seq<Row>) returns (data: Data, ok: bool)
    ensures ok <==> !Fails(cl, rows)
    ensures ok ==> Grouped(cl, rows, data)
  {
    hide Grouped, RowFails;
    data, ok := map[], true;
    NoRows(cl);
    for i := 0 to |rows|
      invariant forall o :: o in Objects(data) ==> fresh(o)
      invariant ok && Grouped(cl, rows[..i], data) && !Fails(cl, rows[..i])
    {
      data, ok := GroupRow(cl, rows, i, rows[i], data);
      if !ok {
        return;
      }
      FailsSnoc(cl, rows, i);
    }
    assert rows[..|rows|] == rows;
  }

  lemma FailsSnoc(cl: Clauses, rows: seq<Row>, i: nat)
    requires i < |rows| && !Fails(cl, rows[..i]) && !RowFails(cl, rows[i])
    ensures !Fails(cl, rows[..i + 1])
  {
    hide RowFails;
    var longer := rows[..i + 1];
    assert longer[..i] == rows[..i];
    assert forall j :: 0 <= j < i ==> longer[j] == longer[..i][j];
  }

  /** Lines 236-331 of GroupByExecutor.cpp: the results of all groups, in some order of their keys, or None when an
      expression fails on some row. */
  method GroupingData(cl: Clauses, rows: seq<Row>) returns (out: Option<seq<Row>>, ghost keys: seq<Key>)
    ensures out == None <==> Fails(cl, rows)
    ensures out.Some? ==> |out.value| == |keys| && Distinct(keys) && Partition(cl, rows, keys)
    ensures out.Some? ==> forall i :: 0 <= i < |keys| ==> IsGroup(cl, rows, keys[i], out.value[i])
  {
    hide RowsWith, Separate, Fails, IsGroup, Seen, AggFun.Valid;
    keys := [];
    var data, ok := GroupRows(cl, rows);
    if !ok {
      return None, [];
    }
    var rest, result := data.Keys, [];
    while rest != {}
      invariant rest <= data.Keys && |result| == |keys| && Distinct(keys) && Grouped(cl, rows, data)
      invariant forall k :: k in keys <==> k in data && k !in rest
      invariant forall i :: 0 <= i < |keys| ==> IsGroup(cl, rows, keys[i], result[i])
    {
      HasElement(rest);
      var k :| k in rest;
      var row := Results(cl, rows, k, data[k]);
      result := result + [row];
      keys := keys + [k];
      rest := rest - {k};
    }
    out := Some(result);
  }

  /** The keys are exactly those of the rows. */
  ghost predicate Partition(cl: Clauses, rows: seq<Row>, keys: seq<Key>) {
    forall k :: k in keys <==> Occurs(cl, rows, k)
  }

  /** The output row of a group: each column the aggregate of the group's own values. */
  ghost predicate IsGroup(cl: Clauses, rows: seq<Row>, k: Key, row: Row) {
    |row| == |cl.kinds| &&
    forall c :: 0 <= c < |cl.kinds| ==> row[c] == Aggregate(cl.kinds[c], Seen(cl, rows, k, c))
  }

  lemma NoRows(cl: Clauses)
    ensures Grouped(cl, [], map[]) && !Fails(cl, [])
  {
  }

  /** Lines 322-325 of GroupByExecutor.cpp. */
  method Results(cl: Clauses, ghost rows: seq<Row>, ghost k: Key, funs: seq<AggFun>) returns (row: Row)
    requires |funs| == |cl.kinds|
    requires forall c :: 0 <= c < |funs| ==>
      funs[c].kind == cl.kinds[c] && funs[c].Valid() && funs[c].applied == Seen(cl, rows, k, c)
    ensures IsGroup(cl, rows, k, row)
  {
    row := [];
    for c := 0 to |funs|
      invariant |row| == c
      invariant forall j :: 0 <= j < c ==> row[j] == Aggregate(cl.kinds[j], Seen(cl, rows, k, j))
    {
      var v := funs[c].GetResult();
      row := row + [v];
    }
  }

  // ----- conservation -----

  function Sizes(cl: Clauses, rows: seq<Row>, keys: seq<Key>): nat {
    if keys == [] then 0
    else Sizes(cl, rows, keys[..|keys| - 1]) + |RowsWith(cl, rows, keys[|keys| - 1])|
  }

  lemma {:induction false} SizesSnoc(cl: Clauses, rows: seq<Row>, i: nat, keys: seq<Key>)
    requires i < |rows| && cl.keyOf(rows[i]).Some? && Distinct(keys)
    ensures Sizes(cl, rows[..i + 1], keys) ==
      Sizes(cl, rows[..i], keys) + if cl.keyOf(rows[i]).value in keys then 1 else 0
  {
    if keys != [] {
      var front, last := keys[..|keys| - 1], keys[|keys| - 1];
      assert keys == front + [last];
      SizesSnoc(cl, rows, i, front);
      RowsSnoc(cl, rows, i, last);
      assert last !in front;
    }
  }

  lemma {:induction false} SizesAll(cl: Clauses, rows: seq<Row>, n: nat, keys: seq<Key>)
    requires n <= |rows| && Distinct(keys)
    requires forall i :: 0 <= i < n ==> cl.keyOf(rows[i]).Some? && cl.keyOf(rows[i]).value in keys
    ensures Sizes(cl, rows[..n], keys) == n
  {
    if n == 0 {
      NoSizes(cl, keys);
    } else {
      SizesAll(cl, rows, n - 1, keys);
      SizesSnoc(cl, rows, n - 1, keys);
    }
  }

  lemma {:induction false} NoSizes(cl: Clauses, keys: seq<Key>)
    ensures Sizes(cl, [], keys) == 0
  {
    if keys != [] {
      NoSizes(cl, keys[..|keys| - 1]);
    }
  }

  /** Every row is in the group of its key, and the sizes of the groups, which the Count columns
      report, add up to the number of rows. */
  lemma CountsAddUp(cl: Clauses, rows: seq<Row>, keys: seq<Key>)
    requires !Fails(cl, rows) && Distinct(keys) && Partition(cl, rows, keys)
    ensures Sizes(cl, rows, keys) == |rows|
    ensures forall k, c :: 0 <= c < |cl.kinds| && cl.kinds[c] == Count ==>
      Aggregate(cl.kinds[c], Seen(cl, rows, k, c)) == Integer(|RowsWith(cl, rows, k)|)
  {
    forall i | 0 <= i < |rows|
      ensures cl.keyOf(rows[i]).Some? && cl.keyOf(rows[i]).value in keys
    {
      assert !RowFails(cl, rows[i]);
      InGroup(cl, rows, |rows|, i);
      assert rows[..|rows|] == rows;
    }
    SizesAll(cl, rows, |rows|, keys);
    assert rows[..|rows|] == rows;
    forall k, c | 0 <= c < |cl.kinds| && cl.kinds[c] == Count
      ensures |Seen(cl, rows, k, c)| == |RowsWith(cl, rows, k)|
    {
      GroupSucceeds(cl, rows, k);
      AllArgs(cl, RowsWith(cl, rows, k), c);
    }
  }

  lemma {:induction false} InGroup(cl: Clauses, rows: seq<Row>, n: nat, i: nat)
    requires i < n <= |rows| && cl.keyOf(rows[i]).Some?
    ensures RowsWith(cl, rows[..n], cl.keyOf(rows[i]).value) != []
  {
    RowsSnoc(cl, rows, n - 1, cl.keyOf(rows[i]).value);
    if i < n - 1 {
      InGroup(cl, rows, n - 1, i);
    }
  }

  lemma {:induction false} GroupSucceeds(cl: Clauses, rows: seq<Row>, k: Key)
    requires !Fails(cl, rows)
    ensures !Fails(cl, RowsWith(cl, rows, k))
  {
    hide RowFails;
    if rows != [] {
      var front := rows[..|rows| - 1];
      assert !Fails(cl, front) by {
        assert forall i :: 0 <= i < |front| ==> front[i] == rows[i];
      }
      GroupSucceeds(cl, front, k);
      assert !RowFails(cl, rows[|rows| - 1]);
    }
  }

  lemma {:induction false} AllArgs(cl: Clauses, rows: seq<Row>, c: nat)
    requires !Fails(cl, rows) && c < |cl.kinds|
    ensures |Args(cl, rows, c)| == |rows|
  {
    if rows != [] {
      var front := rows[..|rows| - 1];
      assert !Fails(cl, front) by {
        assert forall i :: 0 <= i < |front| ==> front[i] == rows[i];
      }
      AllArgs(cl, front, c);
      assert !RowFails(cl, rows[|rows| - 1]);
    }
  }
}
