/** The final result of GO: joining the records with the input rows and filtering the edges. */
module GoResult {
  import opened Bytes
  import opened Multimaps
  import opened Graph
  import opened Filter
  import opened Go

  // ----- roots and the index of the input -----

  function RootIds(m: Multimap<VertexID, VertexID>, v: VertexID, record: nat): seq<VertexID> {
    if record == 1 then [v] else Range(m, v)
  }

  /** Lines 216-228 of GoExecutor.h. */
  method GetRoots(m: Multimap<VertexID, VertexID>, v: VertexID, record: nat) returns (ids: seq<VertexID>)
    requires record > 0
    ensures ids == RootIds(m, v, record)
  {
    ids := [];
    if record == 1 {
      ids := ids + [v];
      return;
    }
    var range := Range(m, v);
    for i := 0 to |range|
      invariant ids == range[..i]
    {
      ids := ids + [range[i]];
    }
  }

  /** The rows of the input under their start vertices. */
  function IndexOf(vids: seq<VertexID>): Multimap<VertexID, nat> {
    if vids == [] then [] else IndexOf(vids[..|vids| - 1]) + [(vids[|vids| - 1], |vids| - 1)]
  }

  /** Lines 205-222 of InterimResult.cpp: the rows are numbered as they are scanned. */
  method BuildIndex(vids: seq<VertexID>) returns (index: Multimap<VertexID, nat>)
    ensures index == IndexOf(vids)
  {
    index := [];
    for rowIndex := 0 to |vids|
      invariant index == IndexOf(vids[..rowIndex])
    {
      index := index + [(vids[rowIndex], rowIndex)];
      assert vids[..rowIndex + 1][..rowIndex] == vids[..rowIndex];
    }
    assert vids[..|vids|] == vids;
  }

  lemma {:induction false} IndexIff(vids: seq<VertexID>, v: VertexID, i: nat)
    ensures (v, i) in IndexOf(vids) <==> i < |vids| && vids[i] == v
  {
    if vids != [] {
      IndexIff(vids[..|vids| - 1], v, i);
    }
  }

  function RowsOf(index: Multimap<VertexID, nat>, ids: seq<VertexID>): seq<nat> {
    if ids == [] then [] else RowsOf(index, ids[..|ids| - 1]) + Range(index, ids[|ids| - 1])
  }

  /** Lines 95-104 of InterimResult.h. */
  method RowsOfVids(index: Multimap<VertexID, nat>, ids: seq<VertexID>) returns (rows: seq<nat>)
    ensures rows == RowsOf(index, ids)
  {
    rows := [];
    for j := 0 to |ids|
      invariant rows == RowsOf(index, ids[..j])
    {
      var range := Range(index, ids[j]);
      ghost var before := rows;
      for i := 0 to |range|
        invariant rows == before + range[..i]
      {
        rows := rows + [range[i]];
      }
      assert range[..|range|] == range;
      assert ids[..j + 1][..j] == ids[..j];
    }
    assert ids[..|ids|] == ids;
  }

  lemma {:induction false} RowsIff(vids: seq<VertexID>, ids: seq<VertexID>, i: nat)
    ensures i in RowsOf(IndexOf(vids), ids) <==> i < |vids| && vids[i] in ids
  {
    if ids != [] {
      var last := ids[|ids| - 1];
      assert ids == ids[..|ids| - 1] + [last];
      RowsIff(vids, ids[..|ids| - 1], i);
      IndexIff(vids, last, i);
    }
  }

  /** Which input rows are joined to a vertex of record k: for the first record those that
      start there, later those whose start has a walk of 1 to n edges to it, n being the
      number of steps traced; all with an exact walk of k - 1 edges are among them. */
  lemma JoinedRows(g: Edges, vids: seq<VertexID>, n: nat, m: Multimap<VertexID, VertexID>, v: VertexID, k: nat, i: nat)
    requires Traces(g, vids, n, m) && k > 0
    ensures var joined := i in RowsOf(IndexOf(vids), RootIds(m, v, k));
      if k == 1 then joined <==> i < |vids| && vids[i] == v
      else
        (joined <==> i < |vids| && ReachesWithin(g, vids[i], v, n)) &&
        (i < |vids| && k - 1 <= n && Reaches(g, vids[i], v, k - 1) ==> joined)
  {
    RowsIff(vids, RootIds(m, v, k), i);
  }

  /** With one or two steps, so at most one of them traced, the join is exact: the traced walks have
      the one length. */
  lemma JoinedExactly(g: Edges, vids: seq<VertexID>, n: nat, m: Multimap<VertexID, VertexID>, v: VertexID, k: nat,
                      i: nat)
    requires Traces(g, vids, n, m) && 1 <= k <= n + 1 <= 2
    ensures i in RowsOf(IndexOf(vids), RootIds(m, v, k)) <==> i < |vids| && Reaches(g, vids[i], v, k - 1)
  {
    JoinedRows(g, vids, n, m, v, k, i);
    if i < |vids| {
      ReachesNone(g, vids[i], v);
      assert Reaches(g, vids[i], v, 1) ==> ReachesWithin(g, vids[i], v, 1);
    }
  }

  /** With three it is not: on 1 -> 2 -> 3 -> 4 from the vertices 1 and 2, the row of 2 is joined to
      vertex 3 in the third record, and so to the edge out of it, although no walk of two edges
      leads from 2 to 3. */
  lemma JoinedTooMuch(m: Multimap<VertexID, VertexID>)
    requires Traces({Edge(1, 1, 0, 2), Edge(2, 1, 0, 3), Edge(3, 1, 0, 4)}, [1, 2], 2, m)
    ensures var g := {Edge(1, 1, 0, 2), Edge(2, 1, 0, 3), Edge(3, 1, 0, 4)};
      Frontier(g, [1, 2], 2, 3) && !Reaches(g, [1, 2][1], 3, 2) &&
      Ctx(Some(1), Edge(3, 1, 0, 4)) in
        RecordCtxs(Join(true, IndexOf([1, 2]), m), [VData(3, [Edge(3, 1, 0, 4)])], 3)
  {
    var g := {Edge(1, 1, 0, 2), Edge(2, 1, 0, 3), Edge(3, 1, 0, 4)};
    assert Leads(g, [Edge(2, 1, 0, 3)], 2, 3);
    assert Reaches(g, 2, 3, 1);
    assert ReachesWithin(g, 2, 3, 2);
    JoinedRows(g, [1, 2], 2, m, 3, 3, 1);
    assert Leads(g, [Edge(1, 1, 0, 2), Edge(2, 1, 0, 3)], 1, 3);
    assert Reaches(g, [1, 2][0], 3, 2);
    forall w: seq<Edge> | |w| == 2 ensures !Leads(g, w, 2, 3) {
      assert w[0] !in g || w[1] !in g || w[0].src != 2 || w[0].dst != w[1].src || w[1].dst != 3;
    }
    var j, resp, c := Join(true, IndexOf([1, 2]), m), [VData(3, [Edge(3, 1, 0, 4)])], Ctx(Some(1), Edge(3, 1, 0, 4));
    InputIff(j, 3, 3, 1);
    assert Visits(j, resp, 0, 3, c);
    RecordCtxIff(j, resp, 3, c);
  }

  // ----- filtering -----

  /** An edge together with the input row the filter and the columns see, if any. */
  datatype Ctx = Ctx(input: Option<nat>, edge: Edge)

  datatype Outcome = Failed | Rows(rows: seq<Ctx>)

  /** What the join needs: whether a yielded column is from the input, the index of the input, which
      is empty for literal starts, and the traced roots. */
  datatype Join = Join(joinInput: bool, index: Multimap<VertexID, nat>, mapping: Multimap<VertexID, VertexID>)

  function Somes(rows: seq<nat>): (inputs: seq<Option<nat>>)
    ensures |inputs| == |rows| && forall i :: 0 <= i < |rows| ==> inputs[i] == Some(rows[i])
  {
    if rows == [] then [] else Somes(rows[..|rows| - 1]) + [Some(rows[|rows| - 1])]
  }

  /** The passes made over the edges of a vertex: one for each joined row if the input is yielded,
      and else a single one, on the first joined row if there is one. */
  function Inputs(j: Join, v: VertexID, record: nat): seq<Option<nat>> {
    Passes(j.joinInput, RowsOf(j.index, RootIds(j.mapping, v, record)))
  }

  function Passes(joinInput: bool, rows: seq<nat>): seq<Option<nat>> {
    if joinInput then Somes(rows) else if rows == [] then [None] else [Some(rows[0])]
  }

  /** Literal starts have no rows. */
  lemma {:induction false} NoRows(ids: seq<VertexID>)
    ensures RowsOf([], ids) == []
  {
    if ids != [] {
      NoRows(ids[..|ids| - 1]);
    }
  }

  function EdgeCtxs(input: Option<nat>, edges: seq<Edge>): seq<Ctx> {
    if edges == [] then [] else EdgeCtxs(input, edges[..|edges| - 1]) + [Ctx(input, edges[|edges| - 1])]
  }

  function VertexCtxs(inputs: seq<Option<nat>>, edges: seq<Edge>): seq<Ctx> {
    if inputs == [] then [] else VertexCtxs(inputs[..|inputs| - 1], edges) + EdgeCtxs(inputs[|inputs| - 1], edges)
  }

  function RecordCtxs(j: Join, resp: seq<VData>, record: nat): seq<Ctx> {
    if resp == [] then []
    else
      var last := resp[|resp| - 1];
      RecordCtxs(j, resp[..|resp| - 1], record) + VertexCtxs(Inputs(j, last.id, record), last.edges)
  }

  /** Everything the filter is evaluated on, in order. */
  function AllCtxs(j: Join, records: seq<seq<VData>>, from: nat, upto: nat): seq<Ctx>
    requires upto <= |records|
  {
    if upto <= from then []
    else AllCtxs(j, records, from, upto - 1) + RecordCtxs(j, records[upto - 1], upto)
  }

  lemma InputIff(j: Join, v: VertexID, record: nat, i: nat)
    requires j.joinInput
    ensures Some(i) in Inputs(j, v, record) <==> i in RowsOf(j.index, RootIds(j.mapping, v, record))
    ensures None !in Inputs(j, v, record)
  {
    hide RowsOf, RootIds;
    var rows, inputs := RowsOf(j.index, RootIds(j.mapping, v, record)), Inputs(j, v, record);
    if i in rows {
      var k :| 0 <= k < |rows| && rows[k] == i;
      assert inputs[k] == Some(i);
    }
    assert forall k :: 0 <= k < |inputs| ==> inputs[k] == Some(rows[k]);
  }

  lemma {:induction false} EdgeCtxIff(input: Option<nat>, edges: seq<Edge>, c: Ctx)
    ensures c in EdgeCtxs(input, edges) <==> c.input == input && c.edge in edges
  {
    if edges != [] {
      var front, last := edges[..|edges| - 1], edges[|edges| - 1];
      EdgeCtxIff(input, front, c);
      assert edges == front + [last];
    }
  }

  lemma {:induction false} VertexCtxIff(inputs: seq<Option<nat>>, edges: seq<Edge>, c: Ctx)
    ensures c in VertexCtxs(inputs, edges) <==> c.input in inputs && c.edge in edges
  {
    if inputs != [] {
      var front, last := inputs[..|inputs| - 1], inputs[|inputs| - 1];
      VertexCtxIff(front, edges, c);
      EdgeCtxIff(last, edges, c);
      assert inputs == front + [last];
    }
  }

  /** A vertex of the record lists the edge and has the input. */
  ghost predicate Visits(j: Join, resp: seq<VData>, i: int, record: nat, c: Ctx) {
    0 <= i < |resp| && c.edge in resp[i].edges && c.input in Inputs(j, resp[i].id, record)
  }

  lemma {:induction false} RecordCtxIff(j: Join, resp: seq<VData>, record: nat, c: Ctx)
    ensures c in RecordCtxs(j, resp, record) <==> exists i :: Visits(j, resp, i, record, c)
  {
    hide Inputs, VertexCtxs;
    if resp != [] {
      var n := |resp| - 1;
      var front := resp[..n];
      RecordCtxIff(j, front, record, c);
      VertexCtxIff(Inputs(j, resp[n].id, record), resp[n].edges, c);
      assert c in VertexCtxs(Inputs(j, resp[n].id, record), resp[n].edges) <==> Visits(j, resp, n, record, c);
      if i :| Visits(j, front, i, record, c) {
        assert Visits(j, resp, i, record, c);
      }
      if i :| Visits(j, resp, i, record, c) {
        assert i == n || Visits(j, front, i, record, c);
      }
    }
  }

  ghost predicate InRecord(j: Join, records: seq<seq<VData>>, k: int, c: Ctx) {
    0 < k <= |records| && c in RecordCtxs(j, records[k - 1], k)
  }

  /** The filter is evaluated on exactly the edges of the records from recordFrom on, each with its
      inputs. */
  lemma {:induction false} AllCtxIff(j: Join, records: seq<seq<VData>>, from: nat, upto: nat, c: Ctx)
    requires upto <= |records|
    ensures c in AllCtxs(j, records, from, upto) <==> exists k :: from < k <= upto && InRecord(j, records, k, c)
  {
    hide RecordCtxs;
    if upto > from {
      AllCtxIff(j, records, from, upto - 1, c);
      assert c in RecordCtxs(j, records[upto - 1], upto) <==> InRecord(j, records, upto, c);
    }
  }

  /** The value of the filter on an edge; None is an error. */
  type Test = Ctx -> Option<bool>

  function Take(out: Outcome, c: Ctx, test: Test): Outcome {
    if out == Failed || test(c) == None then Failed
    else if test(c).value then Rows(out.rows + [c])
    else out
  }

  function SelectFrom(out: Outcome, ctxs: seq<Ctx>, test: Test): Outcome {
    if ctxs == [] then out
    else Take(SelectFrom(out, ctxs[..|ctxs| - 1], test), ctxs[|ctxs| - 1], test)
  }

  lemma {:induction false} SelectConcat(out: Outcome, a: seq<Ctx>, b: seq<Ctx>, test: Test)
    ensures SelectFrom(out, a + b, test) == SelectFrom(SelectFrom(out, a, test), b, test)
  {
    if b == [] {
      assert a + b == a;
    } else {
      assert (a + b)[..|a + b| - 1] == a + b[..|b| - 1];
      SelectConcat(out, a, b[..|b| - 1], test);
    }
  }

  lemma {:induction false} SelectFailed(ctxs: seq<Ctx>, test: Test)
    ensures SelectFrom(Failed, ctxs, test) == Failed
  {
    if ctxs != [] {
      SelectFailed(ctxs[..|ctxs| - 1], test);
    }
  }

  /** The contexts the filter accepts, in order. */
  function Accepted(ctxs: seq<Ctx>, test: Test): seq<Ctx> {
    if ctxs == [] then []
    else
      var last := ctxs[|ctxs| - 1];
      Accepted(ctxs[..|ctxs| - 1], test) + if test(last) == Some(true) then [last] else []
  }

  /** Each as often as it was evaluated. */
  lemma {:induction false} AcceptedCounts(ctxs: seq<Ctx>, test: Test, c: Ctx)
    ensures multiset(Accepted(ctxs, test))[c] == if test(c) == Some(true) then multiset(ctxs)[c] else 0
  {
    if ctxs != [] {
      AcceptedCounts(ctxs[..|ctxs| - 1], test, c);
      assert ctxs == ctxs[..|ctxs| - 1] + [ctxs[|ctxs| - 1]];
    }
  }

  ghost predicate Errs(ctxs: seq<Ctx>, test: Test) {
    exists i :: 0 <= i < |ctxs| && test(ctxs[i]) == None
  }

  /** The selection fails exactly if some evaluation does, and else gives what the filter accepts. */
  lemma {:induction false} SelectIs(rows: seq<Ctx>, ctxs: seq<Ctx>, test: Test)
    ensures SelectFrom(Rows(rows), ctxs, test) == if Errs(ctxs, test) then Failed else Rows(rows + Accepted(ctxs, test))
  {
    if ctxs == [] {
      assert rows + [] == rows;
    } else {
      var n := |ctxs| - 1;
      var front := ctxs[..n];
      SelectIs(rows, front, test);
      assert forall i :: 0 <= i < n ==> front[i] == ctxs[i];
      assert test(ctxs[n]) == None ==> Errs(ctxs, test);
      assert Errs(front, test) ==> Errs(ctxs, test) by {
        if i :| 0 <= i < |front| && test(front[i]) == None {
          assert test(ctxs[i]) == None;
        }
      }
      assert test(ctxs[n]) != None ==> (test(ctxs[n]).value <==> test(ctxs[n]) == Some(true));
    }
  }

  /** Lines 1129-1310 of GoExecutor.cpp: the edges of a vertex for one input row. An error ends the method. */
  method ProcessEdges(sofar: Outcome, input: Option<nat>, edges: seq<Edge>, test: Test) returns (out: Outcome)
    requires sofar.Rows?
    ensures out == SelectFrom(sofar, EdgeCtxs(input, edges), test)
  {
    out := sofar;
    for i := 0 to |edges|
      invariant out.Rows? && out == SelectFrom(sofar, EdgeCtxs(input, edges[..i]), test)
    {
      var c := Ctx(input, edges[i]);
      EdgesFrom(sofar, input, edges, i, test);
      if test(c) == None {
        return Failed;
      }
      if test(c).value {
        out := Rows(out.rows + [c]);
      }
    }
    assert edges[..|edges|] == edges;
  }

  lemma EdgesFrom(out: Outcome, input: Option<nat>, edges: seq<Edge>, i: nat, test: Test)
    requires i < |edges|
    ensures SelectFrom(out, EdgeCtxs(input, edges[..i + 1]), test) ==
      Take(SelectFrom(out, EdgeCtxs(input, edges[..i]), test), Ctx(input, edges[i]), test)
    ensures test(Ctx(input, edges[i])) == None ==> SelectFrom(out, EdgeCtxs(input, edges), test) == Failed
  {
    assert edges[..i + 1][..i] == edges[..i];
    var some := EdgeCtxs(input, edges[..i]) + [Ctx(input, edges[i])];
    assert some[..|some| - 1] == EdgeCtxs(input, edges[..i]);
    if test(Ctx(input, edges[i])) == None {
      EdgesSplit(input, edges, i + 1);
      SelectConcat(out, EdgeCtxs(input, edges[..i + 1]), EdgeCtxs(input, edges[i + 1..]), test);
      SelectFailed(EdgeCtxs(input, edges[i + 1..]), test);
    }
  }

  lemma {:induction false} EdgesSplit(input: Option<nat>, edges: seq<Edge>, i: nat)
    requires i <= |edges|
    ensures EdgeCtxs(input, edges) == EdgeCtxs(input, edges[..i]) + EdgeCtxs(input, edges[i..])
    decreases |edges|
  {
    if i == |edges| {
      assert edges[..i] == edges;
    } else {
      var front := edges[..|edges| - 1];
      EdgesSplit(input, front, i);
      assert front[..i] == edges[..i];
      assert edges[i..][..|edges| - i - 1] == front[i..];
    }
  }

  /** Lines 1113-1311 of GoExecutor.cpp: all passes over a vertex. */
  method ProcessVertex(sofar: Outcome, inputs: seq<Option<nat>>, edges: seq<Edge>, test: Test) returns (out: Outcome)
    ensures out == SelectFrom(sofar, VertexCtxs(inputs, edges), test)
  {
    hide SelectFrom, EdgeCtxs;
    out := sofar;
    NothingMore(sofar, test);
    for i := 0 to |inputs|
      invariant out == SelectFrom(sofar, VertexCtxs(inputs[..i], edges), test)
    {
      ghost var more := EdgeCtxs(inputs[i], edges);
      SelectConcat(sofar, VertexCtxs(inputs[..i], edges), more, test);
      assert inputs[..i + 1][..i] == inputs[..i];
      if out == Failed {
        SelectFailed(more, test);
      } else {
        out := ProcessEdges(out, inputs[i], edges, test);
      }
    }
    assert inputs[..|inputs|] == inputs;
  }

  lemma NothingMore(out: Outcome, test: Test)
    ensures SelectFrom(out, [], test) == out
  {
  }

  /** Lines 1108-1312 of GoExecutor.cpp: all vertices of a record. */
  method ProcessRecord(sofar: Outcome, j: Join, resp: seq<VData>, record: nat, test: Test) returns (out: Outcome)
    requires record > 0
    ensures out == SelectFrom(sofar, RecordCtxs(j, resp, record), test)
  {
    hide SelectFrom, VertexCtxs, Passes, RootIds;
    out := sofar;
    NothingMore(sofar, test);
    for i := 0 to |resp|
      invariant out == SelectFrom(sofar, RecordCtxs(j, resp[..i], record), test)
    {
      var roots := GetRoots(j.mapping, resp[i].id, record);
      var inputRows := RowsOfVids(j.index, roots);
      var inputs := Passes(j.joinInput, inputRows);
      ghost var more := VertexCtxs(inputs, resp[i].edges);
      SelectConcat(sofar, RecordCtxs(j, resp[..i], record), more, test);
      assert resp[..i + 1][..i] == resp[..i];
      out := ProcessVertex(out, inputs, resp[i].edges, test);
    }
    assert resp[..|resp|] == resp;
  }

  /** Lines 1073-1315 of GoExecutor.cpp: the records from recordFrom on. */
  method ProcessFinalResult(j: Join, records: seq<seq<VData>>, recordFrom: nat, test: Test) returns (out: Outcome)
    requires recordFrom > 0
    ensures var ctxs := AllCtxs(j, records, recordFrom - 1, |records|);
      out == if Errs(ctxs, test) then Failed else Rows(Accepted(ctxs, test))
  {
    hide SelectFrom, RecordCtxs, Accepted, Errs;
    out := Rows([]);
    var k := recordFrom - 1;
    NothingMore(out, test);
    while k < |records|
      invariant recordFrom - 1 <= k && (k <= |records| || k == recordFrom - 1)
      invariant k <= |records| ==> out == SelectFrom(Rows([]), AllCtxs(j, records, recordFrom - 1, k), test)
      invariant k > |records| ==> out == Rows([])
    {
      SelectConcat(Rows([]), AllCtxs(j, records, recordFrom - 1, k), RecordCtxs(j, records[k], k + 1), test);
      out := ProcessRecord(out, j, records[k], k + 1, test);
      k := k + 1;
    }
    SelectIs([], AllCtxs(j, records, recordFrom - 1, |records|), test);
    assert forall rows: seq<Ctx> :: [] + rows == rows;
  }

  // ----- filter pushdown -----

  function KeepCtxs(ctxs: seq<Ctx>, kept: Edge -> bool): seq<Ctx> {
    if ctxs == [] then []
    else
      var last := ctxs[|ctxs| - 1];
      KeepCtxs(ctxs[..|ctxs| - 1], kept) + if kept(last.edge) then [last] else []
  }

  lemma {:induction false} KeepConcat(a: seq<Ctx>, b: seq<Ctx>, kept: Edge -> bool)
    ensures KeepCtxs(a + b, kept) == KeepCtxs(a, kept) + KeepCtxs(b, kept)
  {
    if b == [] {
      assert a + b == a;
    } else {
      assert (a + b)[..|a + b| - 1] == a + b[..|b| - 1];
      KeepConcat(a, b[..|b| - 1], kept);
    }
  }

  lemma {:induction false} KeepEdges(input: Option<nat>, edges: seq<Edge>, kept: Edge -> bool)
    ensures EdgeCtxs(input, Keep(edges, kept)) == KeepCtxs(EdgeCtxs(input, edges), kept)
  {
    if edges != [] {
      var front, last := edges[..|edges| - 1], edges[|edges| - 1];
      KeepEdges(input, front, kept);
      var cs := EdgeCtxs(input, edges);
      assert cs[..|cs| - 1] == EdgeCtxs(input, front) && cs[|cs| - 1] == Ctx(input, last);
      if kept(last) {
        assert Keep(edges, kept)[..|Keep(edges, kept)| - 1] == Keep(front, kept);
      } else {
        assert Keep(edges, kept) == Keep(front, kept);
      }
    }
  }

  lemma {:induction false} KeepVertex(inputs: seq<Option<nat>>, edges: seq<Edge>, kept: Edge -> bool)
    ensures VertexCtxs(inputs, Keep(edges, kept)) == KeepCtxs(VertexCtxs(inputs, edges), kept)
  {
    if inputs != [] {
      var front, last := inputs[..|inputs| - 1], inputs[|inputs| - 1];
      KeepVertex(front, edges, kept);
      KeepEdges(last, edges, kept);
      KeepConcat(VertexCtxs(front, edges), EdgeCtxs(last, edges), kept);
    }
  }

  /** Dropping edges in storage is dropping them from what the filter is evaluated on. */
  lemma {:induction false} KeepRecord(j: Join, resp: seq<VData>, record: nat, kept: Edge -> bool)
    ensures RecordCtxs(j, PruneAll(resp, kept), record) == KeepCtxs(RecordCtxs(j, resp, record), kept)
  {
    hide Inputs, VertexCtxs;
    if resp != [] {
      var front, last := resp[..|resp| - 1], resp[|resp| - 1];
      KeepRecord(j, front, record, kept);
      var inputs := Inputs(j, last.id, record);
      KeepVertex(inputs, last.edges, kept);
      KeepConcat(RecordCtxs(j, front, record), VertexCtxs(inputs, last.edges), kept);
      assert PruneAll(resp, kept)[..|resp| - 1] == PruneAll(front, kept);
    }
  }

  /** Only edges the filter does not accept are dropped. */
  ghost predicate KeepsAccepted(test: Test, kept: Edge -> bool) {
    forall c: Ctx :: test(c) == Some(true) ==> kept(c.edge)
  }

  /** Dropping those leaves what the filter accepts. */
  lemma {:induction false} AcceptedKept(ctxs: seq<Ctx>, test: Test, kept: Edge -> bool)
    requires KeepsAccepted(test, kept)
    ensures Accepted(KeepCtxs(ctxs, kept), test) == Accepted(ctxs, test)
  {
    if ctxs != [] {
      var front, last := ctxs[..|ctxs| - 1], ctxs[|ctxs| - 1];
      AcceptedKept(front, test, kept);
      var k := KeepCtxs(ctxs, kept);
      if kept(last.edge) {
        assert k[..|k| - 1] == KeepCtxs(front, kept) && k[|k| - 1] == last;
      } else {
        assert k == KeepCtxs(front, kept) && test(last) != Some(true);
      }
    }
  }

  lemma {:induction false} AcceptedConcat(a: seq<Ctx>, b: seq<Ctx>, test: Test)
    ensures Accepted(a + b, test) == Accepted(a, test) + Accepted(b, test)
  {
    if b == [] {
      assert a + b == a;
    } else {
      assert (a + b)[..|a + b| - 1] == a + b[..|b| - 1];
      AcceptedConcat(a, b[..|b| - 1], test);
    }
  }

  lemma {:induction false} ErrsKept(ctxs: seq<Ctx>, test: Test, kept: Edge -> bool)
    ensures Errs(KeepCtxs(ctxs, kept), test) <==>
      exists i :: 0 <= i < |ctxs| && kept(ctxs[i].edge) && test(ctxs[i]) == None
  {
    if ctxs != [] {
      var n := |ctxs| - 1;
      var front, last := ctxs[..n], ctxs[n];
      ErrsKept(front, test, kept);
      assert forall i :: 0 <= i < n ==> front[i] == ctxs[i];
      var some := if kept(last.edge) then [last] else [];
      ErrsConcat(KeepCtxs(front, kept), some, test);
      assert Errs(some, test) <==> kept(last.edge) && test(last) == None by {
        assert kept(last.edge) ==> some[0] == last;
      }
    }
  }

  lemma ErrsConcat(a: seq<Ctx>, b: seq<Ctx>, test: Test)
    ensures Errs(a + b, test) <==> Errs(a, test) || Errs(b, test)
  {
    if i :| 0 <= i < |a| && test(a[i]) == None {
      assert test((a + b)[i]) == None;
    }
    if i :| 0 <= i < |b| && test(b[i]) == None {
      assert test((a + b)[|a| + i]) == None;
    }
    if i :| 0 <= i < |a + b| && test((a + b)[i]) == None {
      assert if i < |a| then test(a[i]) == None else test(b[i - |a|]) == None;
    }
  }

  /** Some edge of the last record that storage drops makes the filter fail, and nothing else does. */
  ghost predicate HidesError(front: seq<Ctx>, last: seq<Ctx>, test: Test, kept: Edge -> bool) {
    !Errs(front, test) &&
    (exists i :: 0 <= i < |last| && test(last[i]) == None) &&
    (forall i :: 0 <= i < |last| && test(last[i]) == None ==> !kept(last[i].edge))
  }

  /** The records as they would be without pushdown. */
  ghost predicate Pruned(full: seq<seq<VData>>, records: seq<seq<VData>>, kept: Edge -> bool) {
    |full| == |records| && |full| > 0 &&
    (forall k :: 0 <= k < |full| - 1 ==> records[k] == full[k]) &&
    records[|full| - 1] == PruneAll(full[|full| - 1], kept)
  }

  lemma {:induction false} SameRecords(j: Join, full: seq<seq<VData>>, records: seq<seq<VData>>, from: nat, upto: nat)
    requires upto <= |full| && upto <= |records| && forall k :: 0 <= k < upto ==> records[k] == full[k]
    ensures AllCtxs(j, records, from, upto) == AllCtxs(j, full, from, upto)
  {
    if upto > from {
      SameRecords(j, full, records, from, upto - 1);
    }
  }

  /** The same result with and without pushdown, exactly unless that hides an error. */
  lemma PrunedSame(j: Join, full: seq<seq<VData>>, records: seq<seq<VData>>, from: nat, test: Test, kept: Edge -> bool)
    requires Pruned(full, records, kept) && from < |full| && KeepsAccepted(test, kept)
    ensures var n := |full| - 1;
      var a, b := AllCtxs(j, full, from, |full|), AllCtxs(j, records, from, |full|);
      Accepted(b, test) == Accepted(a, test) &&
      (SelectFrom(Rows([]), b, test) == SelectFrom(Rows([]), a, test) <==>
        !HidesError(AllCtxs(j, full, from, n), RecordCtxs(j, full[n], n + 1), test, kept))
  {
    hide SelectFrom, RecordCtxs, KeepCtxs, Accepted, KeepsAccepted;
    var n := |full| - 1;
    SameRecords(j, full, records, from, n);
    var front, last := AllCtxs(j, full, from, n), RecordCtxs(j, full[n], n + 1);
    KeepRecord(j, full[n], n + 1, kept);
    var left := KeepCtxs(last, kept);
    AcceptedKept(last, test, kept);
    AcceptedConcat(front, last, test);
    AcceptedConcat(front, left, test);
    ErrsConcat(front, last, test);
    ErrsConcat(front, left, test);
    ErrsKept(last, test, kept);
    SelectIs([], front + last, test);
    SelectIs([], front + left, test);
  }

  /** The test the WHERE clause makes with the getters of the graph service. */
  function WhereTest(where: Option<Expr>, env: Ctx -> Env, ops: Operators): Test {
    (c: Ctx) =>
      if where == None then Some(true)
      else
        var v := Eval(where.value, env(c), ops);
        if v == None then None else Some(AsBool(v.value))
  }

  /** What storage keeps with a pushed filter and its own getters. */
  function StorageKeeps(pushed: Option<Expr>, env: Edge -> Env, ops: Operators): Edge -> bool {
    (e: Edge) => pushed == None || !Dropped(Eval(pushed.value, env(e), ops))
  }

  lemma StorageKeepsAccepted(where: Option<Expr>, enabled: bool, finalStep: bool, forward: bool,
                             graph: Ctx -> Env, storage: Edge -> Env, ops: Operators)
    requires forall c: Ctx :: Agrees(storage(c.edge), graph(c))
    ensures KeepsAccepted(WhereTest(where, graph, ops),
                          StorageKeeps(FilterPushdown(enabled, where, finalStep, forward), storage, ops))
  {
    var test := WhereTest(where, graph, ops);
    var pushed := FilterPushdown(enabled, where, finalStep, forward);
    var kept := StorageKeeps(pushed, storage, ops);
    forall c: Ctx | test(c) == Some(true)
      ensures kept(c.edge)
    {
      if pushed.Some? {
        RewriteWeakens(where.value, storage(c.edge), graph(c), ops);
      }
    }
  }

  /** Storage filtering followed by the check of the graph service keeps exactly the edges the
      filter keeps, whatever the joined row. The result is the same exactly unless the filter fails
      on an edge that storage drops and on no other. */
  lemma PushdownSame(j: Join, full: seq<seq<VData>>, records: seq<seq<VData>>, from: nat, where: Option<Expr>,
                     enabled: bool, forward: bool, graph: Ctx -> Env, storage: Edge -> Env, ops: Operators)
    requires forall c: Ctx :: Agrees(storage(c.edge), graph(c))
    requires var pushed := FilterPushdown(enabled, where, true, forward);
      Pruned(full, records, StorageKeeps(pushed, storage, ops)) && from < |full|
    ensures var test := WhereTest(where, graph, ops);
      var kept := StorageKeeps(FilterPushdown(enabled, where, true, forward), storage, ops);
      var n := |full| - 1;
      var a, b := AllCtxs(j, full, from, |full|), AllCtxs(j, records, from, |full|);
      Accepted(b, test) == Accepted(a, test) &&
      (SelectFrom(Rows([]), b, test) == SelectFrom(Rows([]), a, test) <==>
        !HidesError(AllCtxs(j, full, from, n), RecordCtxs(j, full[n], n + 1), test, kept))
  {
    hide SelectFrom, AllCtxs, Accepted, WhereTest, StorageKeeps, FilterPushdown;
    StorageKeepsAccepted(where, enabled, true, forward, graph, storage, ops);
    PrunedSame(j, full, records, from, WhereTest(where, graph, ops),
               StorageKeeps(FilterPushdown(enabled, where, true, forward), storage, ops));
  }

  /** WHERE e.p && $-.x. */
  const MIXED: Expr := Logical(AND, Prop(AliasProp, "p"), Prop(InputProp, "x"))

  /** Where p is false and x cannot be had, the filter fails and its pushed part drops the edge. */
  lemma MixedFilter(graph: Env, storage: Env, ops: Operators)
    requires graph(InputProp, "x") == None && storage(AliasProp, "p") == Some(BoolVal(false))
    ensures Eval(MIXED, graph, ops) == None
    ensures Rewrite(MIXED).Some? && Dropped(Eval(Rewrite(MIXED).value, storage, ops))
  {
    assert Eval(MIXED.right, graph, ops) == None;
    var pushed := Logical(AND, MIXED.left, Primary(BoolVal(true)));
    assert Rewrite(MIXED) == Some(pushed);
    assert Eval(pushed.left, storage, ops) == Some(BoolVal(false));
    assert Eval(pushed.right, storage, ops) == Some(BoolVal(true));
  }

  /** So errors can be hidden: the query over one edge from one input row fails without pushdown and
      returns nothing with it. */
  lemma HiddenError(e: Edge, joinInput: bool, graph: Ctx -> Env, storage: Edge -> Env, ops: Operators)
    requires graph(Ctx(Some(0), e))(InputProp, "x") == None && storage(e)(AliasProp, "p") == Some(BoolVal(false))
    ensures var test := WhereTest(Some(MIXED), graph, ops);
      var kept := StorageKeeps(FilterPushdown(true, Some(MIXED), true, true), storage, ops);
      var j, full, records := Join(joinInput, IndexOf([e.src]), []), [[VData(e.src, [e])]], [[VData(e.src, [])]];
      Pruned(full, records, kept) &&
      SelectFrom(Rows([]), AllCtxs(j, full, 0, 1), test) == Failed &&
      SelectFrom(Rows([]), AllCtxs(j, records, 0, 1), test) == Rows([])
  {
    hide Eval, Rewrite, SelectFrom, AllCtxs;
    var test := WhereTest(Some(MIXED), graph, ops);
    var kept := StorageKeeps(FilterPushdown(true, Some(MIXED), true, true), storage, ops);
    var j, c := Join(joinInput, IndexOf([e.src]), []), Ctx(Some(0), e);
    MixedFilter(graph(c), storage(e), ops);
    assert test(c) == None && !kept(e);
    PrunesOne(e, kept);
    OneContext(j, e);
    NoContext(j, e);
    SelectIs([], [c], test);
    assert [c][0] == c;
    NothingMore(Rows([]), test);
  }

  /** A filter that is pushed as it stands hides nothing: storage drops an edge only where the filter
      evaluates. */
  lemma WholeHidesNothing(front: seq<Ctx>, last: seq<Ctx>, where: Expr, enabled: bool, forward: bool,
                          graph: Ctx -> Env, storage: Edge -> Env, ops: Operators)
    requires forall c: Ctx :: Agrees(storage(c.edge), graph(c))
    requires CanPushdown(where) && NoBareUUID(where)
    ensures var kept := StorageKeeps(FilterPushdown(enabled, Some(where), true, forward), storage, ops);
      !HidesError(front, last, WhereTest(Some(where), graph, ops), kept)
  {
    hide Eval;
    RewriteWhole(where);
    var kept := StorageKeeps(FilterPushdown(enabled, Some(where), true, forward), storage, ops);
    var test := WhereTest(Some(where), graph, ops);
    forall i | 0 <= i < |last| && test(last[i]) == None
      ensures kept(last[i].edge)
    {
      EvalAgrees(where, storage(last[i].edge), graph(last[i]), ops);
    }
  }

  lemma PrunesOne(e: Edge, kept: Edge -> bool)
    requires !kept(e)
    ensures PruneAll([VData(e.src, [e])], kept) == [VData(e.src, [])]
  {
    assert Keep([e], kept) == [];
  }

  /** The one row of the input is the one pass made over its vertex. */
  lemma OneRow(v: VertexID, joinInput: bool)
    ensures Inputs(Join(joinInput, IndexOf([v]), []), v, 1) == [Some(0)]
  {
    assert IndexOf([v]) == [(v, 0)] by {
      assert [v][..0] == [];
    }
    var m: Multimap<VertexID, nat> := [(v, 0)];
    assert m[..0] == [];
    assert Range(m, v) == [0];
    assert RowsOf(m, [v]) == [0] by {
      assert [v][..0] == [];
    }
  }

  lemma OneContext(j: Join, e: Edge)
    requires j.index == IndexOf([e.src]) && j.mapping == []
    ensures AllCtxs(j, [[VData(e.src, [e])]], 0, 1) == [Ctx(Some(0), e)]
  {
    hide Inputs;
    OneRow(e.src, j.joinInput);
    var c := Ctx(Some(0), e);
    assert EdgeCtxs(Some(0), [e]) == [c] by {
      assert [e][..0] == [];
    }
    var once: seq<Option<nat>> := [Some(0)];
    assert once[..0] == [];
    assert VertexCtxs(once, [e]) == [c];
    assert RecordCtxs(j, [VData(e.src, [e])], 1) == [c] by {
      assert [VData(e.src, [e])][..0] == [];
    }
  }

  lemma NoContext(j: Join, e: Edge)
    requires j.index == IndexOf([e.src]) && j.mapping == []
    ensures AllCtxs(j, [[VData(e.src, [])]], 0, 1) == []
  {
    hide Inputs;
    OneRow(e.src, j.joinInput);
    var once: seq<Option<nat>> := [Some(0)];
    assert once[..0] == [];
    assert VertexCtxs(once, []) == [];
    assert RecordCtxs(j, [VData(e.src, [])], 1) == [] by {
      assert [VData(e.src, [])][..0] == [];
    }
  }

  // ----- the first joined row -----

  /** The rows of an id are in the order of the input. */
  lemma {:induction false} RangeLeast(vids: seq<VertexID>, v: VertexID, i: nat)
    requires i < |vids| && vids[i] == v && forall n :: 0 <= n < i ==> vids[n] != v
    ensures var r := Range(IndexOf(vids), v); r != [] && r[0] == i
  {
    var n := |vids| - 1;
    var m := IndexOf(vids);
    assert m[..|m| - 1] == IndexOf(vids[..n]) && m[|m| - 1] == (vids[n], n);
    if i < n {
      RangeLeast(vids[..n], v, i);
    } else {
      NotIndexed(vids[..n], v);
    }
  }

  lemma {:induction false} NotIndexed(vids: seq<VertexID>, v: VertexID)
    requires forall n :: 0 <= n < |vids| ==> vids[n] != v
    ensures Range(IndexOf(vids), v) == []
  {
    if vids != [] {
      var n := |vids| - 1;
      var m := IndexOf(vids);
      assert m[..|m| - 1] == IndexOf(vids[..n]) && m[|m| - 1] == (vids[n], n);
      NotIndexed(vids[..n], v);
    }
  }

  /** The first of all rows is the first one that starts at the first id. */
  lemma {:induction false} FirstOfRows(vids: seq<VertexID>, ids: seq<VertexID>, i: nat)
    requires ids != [] && i < |vids| && vids[i] == ids[0] && forall n :: 0 <= n < i ==> vids[n] != ids[0]
    ensures var rows := RowsOf(IndexOf(vids), ids); rows != [] && rows[0] == i
  {
    hide IndexOf, Range;
    var front := ids[..|ids| - 1];
    if front == [] {
      RangeLeast(vids, ids[0], i);
      assert RowsOf(IndexOf(vids), front) == [];
    } else {
      FirstOfRows(vids, front, i);
    }
  }

  // ----- how often -----

  lemma {:induction false} RowsCounts(vids: seq<VertexID>, ids: seq<VertexID>, i: nat)
    requires i < |vids|
    ensures multiset(RowsOf(IndexOf(vids), ids))[i] == multiset(ids)[vids[i]]
  {
    hide IndexOf, Range;
    if ids != [] {
      var front, last: VertexID := ids[..|ids| - 1], ids[|ids| - 1];
      RowsCounts(vids, front, i);
      RangeCounts(vids, last, i);
      ConcatCounts(RowsOf(IndexOf(vids), front), Range(IndexOf(vids), last), i);
      ConcatCounts(front, [last], vids[i]);
      assert ids == front + [last];
    }
  }

  lemma {:induction false} SomesCounts(rows: seq<nat>, i: nat)
    ensures multiset(Somes(rows))[Some(i)] == multiset(rows)[i]
  {
    if rows != [] {
      SomesCounts(rows[..|rows| - 1], i);
      assert rows == rows[..|rows| - 1] + [rows[|rows| - 1]];
    }
  }

  lemma {:induction false} RangeCounts(vids: seq<VertexID>, v: VertexID, i: nat)
    ensures var rows: seq<nat> := Range(IndexOf(vids), v);
      multiset(rows)[i] == if i < |vids| && vids[i] == v then 1 else 0
  {
    if vids != [] {
      var front, last := vids[..|vids| - 1], vids[|vids| - 1];
      RangeCounts(front, v, i);
      var m := IndexOf(vids);
      assert m[..|m| - 1] == IndexOf(front) && m[|m| - 1] == (last, |front|);
    }
  }

  lemma {:induction false} EdgeCounts(input: Option<nat>, edges: seq<Edge>, c: Ctx)
    ensures multiset(EdgeCtxs(input, edges))[c] == if c.input == input then multiset(edges)[c.edge] else 0
  {
    if edges != [] {
      EdgeCounts(input, edges[..|edges| - 1], c);
      assert edges == edges[..|edges| - 1] + [edges[|edges| - 1]];
    }
  }

  lemma {:induction false} VertexCounts(inputs: seq<Option<nat>>, edges: seq<Edge>, c: Ctx)
    requires Distinct(edges)
    ensures multiset(VertexCtxs(inputs, edges))[c] == if c.edge in edges then multiset(inputs)[c.input] else 0
  {
    if inputs != [] {
      var front, last := inputs[..|inputs| - 1], inputs[|inputs| - 1];
      VertexCounts(front, edges, c);
      EdgeCounts(last, edges, c);
      DistinctCount(edges, c.edge);
      assert inputs == front + [last];
    }
  }

  lemma {:induction false} DistinctCount(edges: seq<Edge>, e: Edge)
    requires Distinct(edges)
    ensures multiset(edges)[e] == if e in edges then 1 else 0
  {
    if edges != [] {
      var front, last := edges[..|edges| - 1], edges[|edges| - 1];
      DistinctCount(front, e);
      assert edges == front + [last] && last !in front;
    }
  }

  /** When storage lists every edge once, an edge is evaluated once for each pass over its source. */
  lemma {:induction false} RecordCounts(j: Join, resp: seq<VData>, record: nat, c: Ctx)
    requires ListsOnce(resp) && ListsOwn(resp)
    ensures multiset(RecordCtxs(j, resp, record))[c] ==
      if exists i :: Lists(resp, i, c.edge) then multiset(Inputs(j, c.edge.src, record))[c.input] else 0
  {
    hide Inputs, VertexCtxs;
    if resp != [] {
      var n := |resp| - 1;
      var front, last := resp[..n], resp[n];
      RecordCounts(j, front, record, c);
      VertexCounts(Inputs(j, last.id, record), last.edges, c);
      if i :| Lists(front, i, c.edge) {
        assert Lists(resp, i, c.edge) && last.id != c.edge.src;
        NotListed(resp, n, c.edge);
      } else if c.edge in last.edges {
        var k :| 0 <= k < |last.edges| && last.edges[k] == c.edge;
        assert Lists(resp, n, c.edge);
      } else {
        forall i ensures !Lists(resp, i, c.edge) {
          assert Lists(resp, i, c.edge) && i < n ==> Lists(front, i, c.edge);
        }
      }
    }
  }

  lemma NotListed(resp: seq<VData>, i: nat, e: Edge)
    requires ListsOwn(resp) && i < |resp| && resp[i].id != e.src
    ensures e !in resp[i].edges
  {
  }
}
