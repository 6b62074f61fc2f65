/** GO as a whole: which pairs of input row and edge it returns, and how often. */
module GoQuery {
  import opened Bytes
  import opened Multimaps
  import opened Graph
  import opened Filter
  import opened Go
  import opened GoResult

  /** GO recordFrom TO steps STEPS FROM vids. The starts are a column of the input or, without
      fromInput, literals. With joinInput a yielded column is from the input; with distinct each
      start is requested once. */
  datatype Request = Request(vids: seq<VertexID>, fromInput: bool, steps: nat, recordFrom: nat, joinInput: bool,
                             distinct: bool)

  /** The traced roots of every vertex. */
  type Trace = Multimap<VertexID, VertexID>

  /** The first step recorded; zero stands for one. */
  function First(q: Request): nat {
    if q.recordFrom == 0 then 1 else q.recordFrom
  }

  /** Literal starts leave the index empty. */
  function JoinOf(q: Request, m: Trace): Join {
    Join(q.joinInput, if q.fromInput then IndexOf(q.vids) else [], m)
  }

  /** Row i is joined to the vertex v of record k: it starts at v, in the first record, or its start
      has a walk of 1 to steps - 1 edges to v, in a later one. */
  ghost predicate JoinedRow(g: Edges, q: Request, k: nat, i: nat, v: VertexID) {
    i < |q.vids| && q.steps > 0 && if k == 1 then q.vids[i] == v else ReachesWithin(g, q.vids[i], v, q.steps - 1)
  }

  /** The first row joined to v. */
  function FirstRow(q: Request, m: Trace, v: VertexID, k: nat): Option<nat> {
    var rows := RowsOf(IndexOf(q.vids), RootIds(m, v, k));
    if rows == [] then None else Some(rows[0])
  }

  /** The inputs an edge out of v gets in record k: every joined row if the input is yielded, and
      else only the first one; none for literal starts. */
  ghost predicate Joined(g: Edges, q: Request, m: Trace, k: nat, input: Option<nat>, v: VertexID) {
    if !q.fromInput then !q.joinInput && input == None
    else if q.joinInput then input.Some? && JoinedRow(g, q, k, input.value, v)
    else input == FirstRow(q, m, v, k)
  }

  /** In step k, which is among those asked for, e leaves a vertex that some start reaches by k - 1
      edges. */
  ghost predicate Leaves(g: Edges, q: Request, k: int, e: Edge) {
    q.recordFrom <= k && 1 <= k <= q.steps && e in g && Frontier(g, q.vids, k - 1, e.src)
  }

  /** Such an edge with an input it gets there. */
  ghost predicate Reached(g: Edges, q: Request, m: Trace, k: int, c: Ctx) {
    Leaves(g, q, k, c.edge) && Joined(g, q, m, k, c.input, c.edge.src)
  }

  /** What the filter is evaluated on: on the last step only the edges storage keeps. */
  ghost predicate Evaluated(g: Edges, q: Request, m: Trace, kept: Edge -> bool, k: int, c: Ctx) {
    Reached(g, q, m, k, c) && (k == q.steps ==> kept(c.edge))
  }

  // ----- one record -----

  lemma {:induction false} KeepIff(edges: seq<Edge>, kept: Edge -> bool, e: Edge)
    ensures e in Keep(edges, kept) <==> e in edges && kept(e)
  {
    if edges != [] {
      KeepIff(edges[..|edges| - 1], kept, e);
      assert edges == edges[..|edges| - 1] + [edges[|edges| - 1]];
    }
  }

  lemma {:induction false} KeepDistinct(edges: seq<Edge>, kept: Edge -> bool)
    requires Distinct(edges)
    ensures Distinct(Keep(edges, kept))
  {
    if edges != [] {
      var front, last := edges[..|edges| - 1], edges[|edges| - 1];
      KeepDistinct(front, kept);
      KeepIff(front, kept, last);
      assert last !in front;
    }
  }

  /** The record of a step, whole or pruned. */
  function RecordOf(resp: seq<VData>, last: bool, kept: Edge -> bool): seq<VData> {
    if last then PruneAll(resp, kept) else resp
  }

  lemma RecordIff(g: Edges, vs: seq<VertexID>, resp: seq<VData>, last: bool, kept: Edge -> bool,
                  j: Join, k: nat, c: Ctx)
    requires Answers(g, vs, resp)
    ensures c in RecordCtxs(j, RecordOf(resp, last, kept), k) <==>
      c.edge in g && c.edge.src in vs && (last ==> kept(c.edge)) && c.input in Inputs(j, c.edge.src, k)
  {
    hide Inputs, RecordCtxs;
    var record := RecordOf(resp, last, kept);
    RecordCtxIff(j, record, k, c);
    if i :| Visits(j, record, i, k, c) {
      KeepIff(resp[i].edges, kept, c.edge);
      var n :| 0 <= n < |resp[i].edges| && resp[i].edges[n] == c.edge;
    }
    if c.edge in g && c.edge.src in vs && (last ==> kept(c.edge)) && c.input in Inputs(j, c.edge.src, k) {
      var i :| Lists(resp, i, c.edge);
      KeepIff(resp[i].edges, kept, c.edge);
      assert Visits(j, record, i, k, c);
    }
  }

  lemma RecordOnce(g: Edges, vs: seq<VertexID>, resp: seq<VData>, last: bool, kept: Edge -> bool)
    requires Answers(g, vs, resp) && ListsOnce(resp)
    ensures ListsOnce(RecordOf(resp, last, kept)) && ListsOwn(RecordOf(resp, last, kept))
  {
    var record := RecordOf(resp, last, kept);
    forall i | 0 <= i < |resp|
      ensures Distinct(record[i].edges)
    {
      KeepDistinct(resp[i].edges, kept);
    }
    forall i, n | 0 <= i < |record| && 0 <= n < |record[i].edges|
      ensures record[i].edges[n].src == record[i].id
    {
      KeepIff(resp[i].edges, kept, record[i].edges[n]);
      var n' :| 0 <= n' < |resp[i].edges| && resp[i].edges[n'] == record[i].edges[n];
    }
  }

  // ----- the join -----

  lemma SameStarts(g: Edges, from: seq<VertexID>, vids: seq<VertexID>, n: nat, m: Trace)
    requires (forall v :: v in from <==> v in vids) && Traces(g, from, n, m)
    ensures Traces(g, vids, n, m)
    ensures Counts(g, from, n, m) ==> Counts(g, vids, n, m)
  {
    forall v, r
      ensures RootCount(g, from, n, v, r) == RootCount(g, vids, n, v, r)
    {
      SameCounts(g, from, vids, n, v, r);
    }
  }

  lemma {:induction false} SameCounts(g: Edges, from: seq<VertexID>, vids: seq<VertexID>, n: nat, v: VertexID,
                                      r: VertexID)
    requires forall v :: v in from <==> v in vids
    ensures RootCount(g, from, n, v, r) == RootCount(g, vids, n, v, r)
    decreases n, 0, 0
  {
    if n > 0 {
      SameCounts(g, from, vids, n - 1, v, r);
      assert EdgesInto(g, from, n - 1, v) == EdgesInto(g, vids, n - 1, v);
      SameSums(g, from, vids, n - 1, EdgesInto(g, vids, n - 1, v), r);
    }
  }

  lemma {:induction false} SameSums(g: Edges, from: seq<VertexID>, vids: seq<VertexID>, n: nat, edges: set<Edge>,
                                    r: VertexID)
    requires forall v :: v in from <==> v in vids
    ensures RootSum(g, from, n, edges, r) == RootSum(g, vids, n, edges, r)
    decreases n, 1, |edges|
  {
    if edges != {} {
      HasElement(edges);
      var e :| e in edges;
      SameCounts(g, from, vids, n, e.src, r);
      SameSums(g, from, vids, n, edges - {e}, r);
      RootSumRemove(g, from, n, edges, e, r);
      RootSumRemove(g, vids, n, edges, e, r);
    }
  }

  /** A vertex that is reached has a root. */
  lemma RootOf(g: Edges, q: Request, m: Trace, k: nat, v: VertexID)
    requires 0 < k <= q.steps && Traces(g, q.vids, q.steps - 1, m) && Frontier(g, q.vids, k - 1, v)
    ensures var ids := RootIds(m, v, k); ids != [] && ids[0] in q.vids
  {
    var r :| r in q.vids && Reaches(g, r, v, k - 1);
    if k == 1 {
      ReachesNone(g, r, v);
    } else {
      assert ReachesWithin(g, r, v, q.steps - 1);
      assert (v, r) in m && r in Range(m, v);
      var r0 := Range(m, v)[0];
      assert (v, r0) in m;
    }
  }

  lemma FirstAt(vids: seq<VertexID>, v: VertexID) returns (i: nat)
    requires v in vids
    ensures i < |vids| && vids[i] == v && forall n :: 0 <= n < i ==> vids[n] != v
  {
    i := 0;
    while vids[i] != v
      invariant i < |vids| && forall n :: 0 <= n < i ==> vids[n] != v
      decreases |vids| - i
    {
      i := i + 1;
    }
  }

  /** The first row joined to a vertex that is reached: it is joined, it starts at the first root,
      and no earlier row does. */
  lemma FirstRowIs(g: Edges, q: Request, m: Trace, k: nat, v: VertexID)
    requires 0 < k <= q.steps && Traces(g, q.vids, q.steps - 1, m) && Frontier(g, q.vids, k - 1, v)
    ensures var first := FirstRow(q, m, v, k);
      RootIds(m, v, k) != [] && first.Some? && JoinedRow(g, q, k, first.value, v) &&
      q.vids[first.value] == RootIds(m, v, k)[0] &&
      forall n :: 0 <= n < first.value ==> q.vids[n] != RootIds(m, v, k)[0]
  {
    hide Traces, RootIds, RowsOf, Frontier;
    RootOf(g, q, m, k, v);
    var ids := RootIds(m, v, k);
    var i := FirstAt(q.vids, ids[0]);
    FirstOfRows(q.vids, ids, i);
    JoinedRows(g, q.vids, q.steps - 1, m, v, k, i);
    var rows := RowsOf(IndexOf(q.vids), ids);
    assert rows[0] in rows;
  }

  lemma InputJoined(g: Edges, q: Request, m: Trace, k: nat, input: Option<nat>, v: VertexID)
    requires 0 < k <= q.steps && Traces(g, q.vids, q.steps - 1, m) && Frontier(g, q.vids, k - 1, v)
    ensures input in Inputs(JoinOf(q, m), v, k) <==> Joined(g, q, m, k, input, v)
  {
    hide Traces, RowsOf, RootIds, Frontier;
    var j := JoinOf(q, m);
    if !q.fromInput {
      NoRows(RootIds(m, v, k));
    } else if q.joinInput {
      InputIff(j, v, k, if input.Some? then input.value else 0);
      if input.Some? {
        JoinedRows(g, q.vids, q.steps - 1, m, v, k, input.value);
      }
    } else {
      FirstRowIs(g, q, m, k, v);
    }
  }

  // ----- all records -----

  /** What the executor leaves. */
  ghost predicate Recorded(g: Edges, q: Request, kept: Edge -> bool, records: seq<seq<VData>>, once: bool) {
    forall k :: 0 <= k < |records| ==> RecordedAt(g, q, kept, records[k], k, once)
  }

  /** A record is the answer for the vertices of its step, with each edge listed once if once. */
  ghost predicate RecordedAt(g: Edges, q: Request, kept: Edge -> bool, record: seq<VData>, k: nat, once: bool) {
    exists vs, resp ::
      IsFrontier(g, q.vids, k, vs) && Answers(g, vs, resp) && (once ==> ListsOnce(resp)) &&
      record == RecordOf(resp, k + 1 == q.steps, kept)
  }

  lemma InRecordIff(g: Edges, q: Request, kept: Edge -> bool, records: seq<seq<VData>>, once: bool,
                    m: Trace, k: nat, c: Ctx)
    requires q.steps > 0 && Traces(g, q.vids, q.steps - 1, m) && Recorded(g, q, kept, records, once)
    requires First(q) <= k <= |records| <= q.steps
    ensures InRecord(JoinOf(q, m), records, k, c) <==> Evaluated(g, q, m, kept, k, c)
    ensures once ==> ListsOnce(records[k - 1]) && ListsOwn(records[k - 1])
  {
    hide Traces, Answers, Inputs, RecordCtxs, Joined, Frontier, ListsOnce, ListsOwn;
    var j := JoinOf(q, m);
    assert RecordedAt(g, q, kept, records[k - 1], k - 1, once);
    var vs, resp :| IsFrontier(g, q.vids, k - 1, vs) && Answers(g, vs, resp) && (once ==> ListsOnce(resp)) &&
      records[k - 1] == RecordOf(resp, k == q.steps, kept);
    RecordIff(g, vs, resp, k == q.steps, kept, j, k, c);
    if c.edge.src in vs {
      InputJoined(g, q, m, k, c.input, c.edge.src);
    }
    if once {
      RecordOnce(g, vs, resp, k == q.steps, kept);
    }
  }

  lemma AllEvaluated(g: Edges, q: Request, kept: Edge -> bool, records: seq<seq<VData>>, once: bool,
                     m: Trace, c: Ctx)
    requires q.steps > 0 && Traces(g, q.vids, q.steps - 1, m) && Recorded(g, q, kept, records, once)
    requires |records| <= q.steps
    requires |records| < q.steps ==> forall k, v :: k >= |records| ==> !Frontier(g, q.vids, k, v)
    ensures c in AllCtxs(JoinOf(q, m), records, First(q) - 1, |records|) <==>
      exists k :: Evaluated(g, q, m, kept, k, c)
  {
    hide Traces, Recorded, AllCtxs, Joined, Frontier, InRecord;
    var j := JoinOf(q, m);
    AllCtxIff(j, records, First(q) - 1, |records|, c);
    if k :| First(q) - 1 < k <= |records| && InRecord(j, records, k, c) {
      InRecordIff(g, q, kept, records, once, m, k, c);
    }
    if k :| Evaluated(g, q, m, kept, k, c) {
      assert k <= |records|;
      InRecordIff(g, q, kept, records, once, m, k, c);
    }
  }

  // ----- how often -----

  /** How often an edge out of v gets the input in record k. */
  function Weight(q: Request, m: Trace, k: nat, input: Option<nat>, v: VertexID): nat {
    multiset(Inputs(JoinOf(q, m), v, k))[input]
  }

  /** A yielded row counts as often as its start is traced as a root of v, and once in the first
      record; without a yielded input every edge counts once. */
  lemma WeightIs(g: Edges, q: Request, m: Trace, k: nat, input: Option<nat>, v: VertexID)
    requires 0 < k <= q.steps && Traces(g, q.vids, q.steps - 1, m) && Frontier(g, q.vids, k - 1, v)
    requires Joined(g, q, m, k, input, v) && Counts(g, q.vids, q.steps - 1, m)
    ensures Weight(q, m, k, input, v) ==
      if q.fromInput && q.joinInput && k > 1 then RootCount(g, q.vids, q.steps - 1, v, q.vids[input.value]) else 1
  {
    hide Traces, RowsOf, Frontier, Range, JoinedRow, RootCount;
    if !q.fromInput {
      NoRows(RootIds(m, v, k));
    } else if q.joinInput {
      assert input.value < |q.vids| && (k == 1 ==> q.vids[input.value] == v) by {
        JoinedRowIs(g, q, k, input.value, v);
      }
      SomesCounts(RowsOf(IndexOf(q.vids), RootIds(m, v, k)), input.value);
      RowsCounts(q.vids, RootIds(m, v, k), input.value);
      RangeCount(m, v, q.vids[input.value]);
      SingleCount(v, q.vids[input.value]);
    } else {
      FirstRowIs(g, q, m, k, v);
    }
  }

  lemma JoinedRowIs(g: Edges, q: Request, k: nat, i: nat, v: VertexID)
    requires JoinedRow(g, q, k, i, v)
    ensures i < |q.vids| && (k == 1 ==> q.vids[i] == v)
  {
  }

  /** How often a pair is evaluated up to step n, when storage lists every edge once. */
  ghost function HowOften(g: Edges, q: Request, m: Trace, kept: Edge -> bool, c: Ctx, n: nat): nat {
    if n == 0 then 0
    else
      HowOften(g, q, m, kept, c, n - 1) +
      if Evaluated(g, q, m, kept, n, c) then Weight(q, m, n, c.input, c.edge.src) else 0
  }

  lemma RecordTimes(g: Edges, q: Request, kept: Edge -> bool, records: seq<seq<VData>>,
                    m: Trace, k: nat, c: Ctx)
    requires q.steps > 0 && Traces(g, q.vids, q.steps - 1, m) && Recorded(g, q, kept, records, true)
    requires First(q) <= k <= |records| <= q.steps
    ensures multiset(RecordCtxs(JoinOf(q, m), records[k - 1], k))[c] ==
      if Evaluated(g, q, m, kept, k, c) then Weight(q, m, k, c.input, c.edge.src) else 0
  {
    hide Traces, Recorded, Joined, Frontier, RecordCtxs, Inputs, ListsOnce, ListsOwn;
    var j := JoinOf(q, m);
    var ctxs := RecordCtxs(j, records[k - 1], k);
    InRecordIff(g, q, kept, records, true, m, k, c);
    RecordCounts(j, records[k - 1], k, c);
    assert c in ctxs <==> c in multiset(ctxs);
  }

  lemma {:induction false} AllTimes(g: Edges, q: Request, kept: Edge -> bool, records: seq<seq<VData>>,
                                    m: Trace, c: Ctx, n: nat)
    requires q.steps > 0 && Traces(g, q.vids, q.steps - 1, m) && Recorded(g, q, kept, records, true)
    requires n <= |records| <= q.steps
    ensures multiset(AllCtxs(JoinOf(q, m), records, First(q) - 1, n))[c] == HowOften(g, q, m, kept, c, n)
  {
    hide Traces, Recorded, Frontier, Joined, RecordCtxs, Weight;
    if n > 0 {
      AllTimes(g, q, kept, records, m, c, n - 1);
      if n >= First(q) {
        RecordTimes(g, q, kept, records, m, n, c);
      }
    }
  }

  lemma {:induction false} TimesBehind(g: Edges, q: Request, m: Trace, kept: Edge -> bool, c: Ctx,
                                       i: nat, n: nat)
    requires i <= n && forall k, v :: k >= i ==> !Frontier(g, q.vids, k, v)
    ensures HowOften(g, q, m, kept, c, n) == HowOften(g, q, m, kept, c, i)
  {
    hide Joined, Frontier, Weight;
    if i < n {
      TimesBehind(g, q, m, kept, c, i, n - 1);
    }
  }

  // ----- the whole query -----

  /** Fails exactly if the filter does on something it is evaluated on, and else returns exactly
      what the filter accepts of it. */
  ghost predicate Returns(g: Edges, q: Request, m: Trace, kept: Edge -> bool, test: Test,
                          out: Outcome)
  {
    match out
    case Failed => exists k, c :: Evaluated(g, q, m, kept, k, c) && test(c) == None
    case Rows(rows) =>
      (forall k, c :: Evaluated(g, q, m, kept, k, c) ==> test(c) != None) &&
      forall c :: c in rows <==> test(c) == Some(true) && exists k :: Evaluated(g, q, m, kept, k, c)
  }

  /** Each as often as it is evaluated. */
  ghost predicate ReturnsTimes(g: Edges, q: Request, m: Trace, kept: Edge -> bool, test: Test,
                               out: Outcome)
  {
    out.Rows? ==>
      forall c :: multiset(out.rows)[c] == if test(c) == Some(true) then HowOften(g, q, m, kept, c, q.steps) else 0
  }

  lemma SelectedReturns(g: Edges, q: Request, m: Trace, kept: Edge -> bool, test: Test,
                        ctxs: seq<Ctx>)
    requires forall c :: c in ctxs <==> exists k :: Evaluated(g, q, m, kept, k, c)
    ensures Returns(g, q, m, kept, test, if Errs(ctxs, test) then Failed else Rows(Accepted(ctxs, test)))
  {
    hide Evaluated, Accepted;
    if i :| 0 <= i < |ctxs| && test(ctxs[i]) == None {
      assert ctxs[i] in ctxs;
    } else {
      forall k, c | Evaluated(g, q, m, kept, k, c)
        ensures test(c) != None
      {
        assert c in ctxs;
      }
      forall c
        ensures c in Accepted(ctxs, test) <==> test(c) == Some(true) && c in ctxs
      {
        AcceptedCounts(ctxs, test, c);
        assert c in multiset(ctxs) <==> c in ctxs;
        assert c in multiset(Accepted(ctxs, test)) <==> c in Accepted(ctxs, test);
      }
    }
  }

  lemma SelectedTimes(g: Edges, q: Request, m: Trace, kept: Edge -> bool, test: Test,
                      records: seq<seq<VData>>)
    requires q.steps > 0 && Traces(g, q.vids, q.steps - 1, m) && Recorded(g, q, kept, records, true)
    requires |records| <= q.steps
    requires |records| < q.steps ==> forall k, v :: k >= |records| ==> !Frontier(g, q.vids, k, v)
    ensures var ctxs := AllCtxs(JoinOf(q, m), records, First(q) - 1, |records|);
      ReturnsTimes(g, q, m, kept, test, if Errs(ctxs, test) then Failed else Rows(Accepted(ctxs, test)))
  {
    hide HowOften, AllCtxs, Accepted, Traces, Recorded, Frontier, Errs;
    var ctxs := AllCtxs(JoinOf(q, m), records, First(q) - 1, |records|);
    forall c
      ensures multiset(Accepted(ctxs, test))[c] ==
        if test(c) == Some(true) then HowOften(g, q, m, kept, c, q.steps) else 0
    {
      AcceptedCounts(ctxs, test, c);
      AllTimes(g, q, kept, records, m, c, |records|);
      if |records| < q.steps {
        TimesBehind(g, q, m, kept, c, |records|, q.steps);
      }
    }
  }

  lemma NothingReached(g: Edges, q: Request, m: Trace, kept: Edge -> bool, test: Test)
    requires q.steps == 0 || forall v :: v !in q.vids
    ensures Returns(g, q, m, kept, test, Rows([])) && ReturnsTimes(g, q, m, kept, test, Rows([]))
  {
    forall k, c
      ensures !Evaluated(g, q, m, kept, k, c)
    {
    }
    hide Evaluated;
    forall c
      ensures HowOften(g, q, m, kept, c, q.steps) == 0
    {
      NothingTimes(g, q, m, kept, c, q.steps);
    }
  }

  lemma {:induction false} NothingTimes(g: Edges, q: Request, m: Trace, kept: Edge -> bool, c: Ctx,
                                        n: nat)
    requires forall k :: !Evaluated(g, q, m, kept, k, c)
    ensures HowOften(g, q, m, kept, c, n) == 0
  {
    hide Evaluated;
    if n > 0 {
      NothingTimes(g, q, m, kept, c, n - 1);
    }
  }

  lemma NotEmpty(starts: seq<VertexID>, vids: seq<VertexID>)
    requires vids != [] && forall v :: v in starts <==> v in vids
    ensures starts != []
  {
    var v: VertexID := vids[0];
    assert v in vids && v in starts;
  }

  lemma NothingRecorded(j: Join, records: seq<seq<VData>>, first: nat, test: Test)
    requires |records| < first
    ensures var ctxs := AllCtxs(j, records, first - 1, |records|); !Errs(ctxs, test) && Accepted(ctxs, test) == []
  {
  }

  lemma ExecRecorded(exec: GoExecutor, q: Request, once: bool)
    requires exec.Complete() && exec.Stepped() && exec.steps == q.steps
    requires once ==> exec.Once()
    requires forall v :: v in exec.from <==> v in q.vids
    ensures Recorded(exec.g, q, exec.kept, exec.records, once)
    ensures forall k, v :: Frontier(exec.g, exec.from, k, v) <==> Frontier(exec.g, q.vids, k, v)
  {
    hide Answers, ListsOnce;
    forall k, v
      ensures Frontier(exec.g, exec.from, k, v) <==> Frontier(exec.g, q.vids, k, v)
    {
    }
    hide Frontier;
    forall k | 0 <= k < |exec.records|
      ensures RecordedAt(exec.g, q, exec.kept, exec.records[k], k, once)
    {
      var vs := exec.frontiers[k];
      var resp := exec.neighbors(k + 1, vs);
      assert IsFrontier(exec.g, q.vids, k, vs);
      assert exec.records[k] == exec.Response(k, vs) == RecordOf(resp, k + 1 == q.steps, exec.kept);
    }
  }

  /** What the executor leaves gives the whole result. */
  lemma ExecReturns(exec: GoExecutor, q: Request, test: Test)
    requires exec.Complete() && exec.Stepped() && exec.steps == q.steps > 0 && |exec.records| <= q.steps
    requires forall v :: v in exec.from <==> v in q.vids
    requires Traces(exec.g, exec.from, q.steps - 1, exec.mapping)
    requires exec.Once() ==> Counts(exec.g, exec.from, q.steps - 1, exec.mapping)
    requires |exec.records| < q.steps ==> forall k, v :: k >= |exec.records| ==> !Frontier(exec.g, exec.from, k, v)
    ensures Traces(exec.g, q.vids, q.steps - 1, exec.mapping)
    ensures var ctxs := AllCtxs(JoinOf(q, exec.mapping), exec.records, First(q) - 1, |exec.records|);
      var out := if Errs(ctxs, test) then Failed else Rows(Accepted(ctxs, test));
      Returns(exec.g, q, exec.mapping, exec.kept, test, out) &&
      (exec.Once() ==>
        Counts(exec.g, q.vids, q.steps - 1, exec.mapping) &&
        ReturnsTimes(exec.g, q, exec.mapping, exec.kept, test, out))
  {
    hide Returns, ReturnsTimes, Answers, Traces, Counts, Accepted, Errs, AllCtxs, Recorded, Evaluated, Frontier;
    hide ListsOnce;
    SameStarts(exec.g, exec.from, q.vids, q.steps - 1, exec.mapping);
    ExecRecorded(exec, q, false);
    var ctxs := AllCtxs(JoinOf(q, exec.mapping), exec.records, First(q) - 1, |exec.records|);
    forall c
      ensures c in ctxs <==> exists k :: Evaluated(exec.g, q, exec.mapping, exec.kept, k, c)
    {
      AllEvaluated(exec.g, q, exec.kept, exec.records, false, exec.mapping, c);
    }
    SelectedReturns(exec.g, q, exec.mapping, exec.kept, test, ctxs);
    if exec.Once() {
      ExecRecorded(exec, q, true);
      SelectedTimes(exec.g, q, exec.mapping, exec.kept, test, exec.records);
    }
  }

  /** Lines 92-131 of GoExecutor.cpp and what follows: neighbors is the storage service, kept what it
      keeps on the last step, and test the filter; m is the trace the executor leaves. */
  method Run(q: Request, neighbors: (nat, seq<VertexID>) -> seq<VData>, kept: Edge -> bool, test: Test, ghost g: Edges)
    returns (out: Outcome, ghost m: Trace)
    requires forall k, vs :: Answers(g, vs, neighbors(k, vs))
    ensures q.steps > 0 && q.vids != [] ==> Traces(g, q.vids, q.steps - 1, m)
    ensures Returns(g, q, m, kept, test, out)
    ensures (forall k, vs :: ListsOnce(neighbors(k, vs))) ==>
      ReturnsTimes(g, q, m, kept, test, out) &&
      (q.steps > 0 && q.vids != [] ==> Counts(g, q.vids, q.steps - 1, m))
  {
    hide Returns, ReturnsTimes, Answers, Traces, Accepted, Errs, AllCtxs, IndexOf, Recorded, ListsOnce, Counts;
    m := [];
    if q.steps == 0 {
      NothingReached(g, q, m, kept, test);
      return Rows([]), m;
    }
    if q.vids == [] {
      NothingReached(g, q, m, kept, test);
      return Rows([]), m;
    }
    var starts := q.vids;
    if q.distinct {
      starts := CopyOut(set v | v in q.vids);
    }
    assert forall v :: v in starts <==> v in q.vids;
    NotEmpty(starts, q.vids);
    var exec := new GoExecutor(q.steps, starts, neighbors, kept, g);
    exec.Execute();
    m := exec.mapping;
    ExecReturns(exec, q, test);
    if exec.curStep < First(q) {
      NothingRecorded(JoinOf(q, m), exec.records, First(q), test);
      return Rows([]), m;
    }
    var index := [];
    if q.fromInput {
      index := BuildIndex(q.vids);
    }
    out := ProcessFinalResult(Join(q.joinInput, index, exec.mapping), exec.records, First(q), test);
  }

  /** When storage drops only edges the filter does not accept, a query that does not fail returns
      exactly the accepted pairs among all that are reached. */
  lemma ReturnsReached(g: Edges, q: Request, m: Trace, kept: Edge -> bool, test: Test, rows: seq<Ctx>)
    requires KeepsAccepted(test, kept) && Returns(g, q, m, kept, test, Rows(rows))
    ensures forall c :: c in rows <==> test(c) == Some(true) && exists k :: Reached(g, q, m, k, c)
  {
    hide Reached;
    forall c
      ensures c in rows <==> test(c) == Some(true) && exists k :: Reached(g, q, m, k, c)
    {
      if k :| test(c) == Some(true) && Reached(g, q, m, k, c) {
        assert Evaluated(g, q, m, kept, k, c);
      }
      if k :| Evaluated(g, q, m, kept, k, c) {
        assert Reached(g, q, m, k, c);
      }
    }
  }

  /** The clause as it stands: a query that does not fail returns exactly the reached pairs on which
      WHERE holds, all of them without one, whatever is pushed down; and it fails only if WHERE does
      on a reached pair. */
  lemma WhereDecides(g: Edges, q: Request, m: Trace, where: Option<Expr>, enabled: bool, forward: bool,
                     graph: Ctx -> Env, storage: Edge -> Env, ops: Operators, out: Outcome)
    requires forall c: Ctx :: Agrees(storage(c.edge), graph(c))
    requires Returns(g, q, m, StorageKeeps(FilterPushdown(enabled, where, true, forward), storage, ops),
                     WhereTest(where, graph, ops), out)
    ensures out.Rows? ==> forall c :: c in out.rows <==>
      (where == None || Holds(Eval(where.value, graph(c), ops))) && exists k :: Reached(g, q, m, k, c)
    ensures out.Failed? ==> exists k, c ::
      Reached(g, q, m, k, c) && where.Some? && Eval(where.value, graph(c), ops) == None
  {
    hide Reached, Eval;
    var test := WhereTest(where, graph, ops);
    var kept := StorageKeeps(FilterPushdown(enabled, where, true, forward), storage, ops);
    StorageKeepsAccepted(where, enabled, true, forward, graph, storage, ops);
    assert forall c :: test(c) == Some(true) <==> where == None || Holds(Eval(where.value, graph(c), ops));
    if out.Rows? {
      ReturnsReached(g, q, m, kept, test, out.rows);
    } else {
      var k, c :| Evaluated(g, q, m, kept, k, c) && test(c) == None;
      assert Reached(g, q, m, k, c);
    }
  }
}
