/** GO from an input of which no column is yielded: the filter sees one row only. */
module GoFirstRow {
  import opened Bytes
  import opened Graph
  import opened Filter
  import opened Go
  import opened GoResult
  import opened GoQuery

  ghost predicate ReturnsEdge(rows: seq<Ctx>, e: Edge) {
    exists c :: c in rows && c.edge == e
  }

  /** The filter holds of e on the first row joined to its source in record k. */
  ghost predicate PassesFirst(g: Edges, q: Request, m: Trace, test: Test, k: int, e: Edge) {
    Leaves(g, q, k, e) && test(Ctx(FirstRow(q, m, e.src, k), e)) == Some(true)
  }

  ghost predicate JoinedAt(g: Edges, q: Request, k: int, i: nat, e: Edge) {
    Leaves(g, q, k, e) && JoinedRow(g, q, k, i, e.src)
  }

  /** The filter holds of e on some row joined to its source in some record. */
  ghost predicate PassesSome(g: Edges, q: Request, test: Test, e: Edge) {
    exists k, i :: JoinedAt(g, q, k, i, e) && test(Ctx(Some(i), e)) == Some(true)
  }

  /** An edge is returned exactly if the filter holds on the first row joined to its source in some
      record. */
  lemma FirstRowDecides(g: Edges, q: Request, m: Trace, kept: Edge -> bool, test: Test,
                        rows: seq<Ctx>, e: Edge)
    requires q.fromInput && !q.joinInput && KeepsAccepted(test, kept) && Returns(g, q, m, kept, test, Rows(rows))
    ensures ReturnsEdge(rows, e) <==> exists k :: PassesFirst(g, q, m, test, k, e)
  {
    hide Frontier, FirstRow, Returns;
    ReturnsReached(g, q, m, kept, test, rows);
    if c :| c in rows && c.edge == e {
      var k :| Reached(g, q, m, k, c);
      assert PassesFirst(g, q, m, test, k, e);
    }
    if k :| PassesFirst(g, q, m, test, k, e) {
      var c := Ctx(FirstRow(q, m, e.src, k), e);
      assert Reached(g, q, m, k, c);
      assert c in rows;
    }
  }

  /** Every row joined to e is the first one in some record. */
  ghost predicate AllFirst(g: Edges, q: Request, m: Trace, e: Edge) {
    forall k, i :: JoinedAt(g, q, k, i, e) ==> IsFirst(g, q, m, i, e)
  }

  ghost predicate IsFirst(g: Edges, q: Request, m: Trace, i: nat, e: Edge) {
    exists k :: Leaves(g, q, k, e) && FirstRow(q, m, e.src, k) == Some(i)
  }

  /** The filter loses e: it holds on a joined row and the query does not look at it. */
  ghost predicate Loses(g: Edges, q: Request, m: Trace, test: Test, e: Edge) {
    PassesSome(g, q, test, e) && forall k :: !PassesFirst(g, q, m, test, k, e)
  }

  lemma FirstJoined(g: Edges, q: Request, m: Trace, test: Test, k: int, e: Edge)
    requires q.steps > 0 && Traces(g, q.vids, q.steps - 1, m) && PassesFirst(g, q, m, test, k, e)
    ensures PassesSome(g, q, test, e)
  {
    hide Traces, FirstRow, JoinedRow, Frontier;
    FirstRowIs(g, q, m, k, e.src);
    var i := FirstRow(q, m, e.src, k).value;
    assert JoinedAt(g, q, k, i, e);
  }

  /** A query returns e exactly if some joined row passes, unless the filter loses it. */
  lemma ReturnedUnlessLost(g: Edges, q: Request, m: Trace, kept: Edge -> bool, test: Test,
                           rows: seq<Ctx>, e: Edge)
    requires q.steps > 0 && Traces(g, q.vids, q.steps - 1, m)
    requires q.fromInput && !q.joinInput && KeepsAccepted(test, kept) && Returns(g, q, m, kept, test, Rows(rows))
    ensures ReturnsEdge(rows, e) <==> PassesSome(g, q, test, e) && !Loses(g, q, m, test, e)
  {
    hide Returns, Traces, PassesSome;
    FirstRowDecides(g, q, m, kept, test, rows, e);
    if k :| PassesFirst(g, q, m, test, k, e) {
      FirstJoined(g, q, m, test, k, e);
    }
  }

  /** No filter loses e exactly if every row joined to it is the first one in some record. */
  lemma NeverLostIff(g: Edges, q: Request, m: Trace, e: Edge)
    ensures AllFirst(g, q, m, e) <==> forall test: Test :: !Loses(g, q, m, test, e)
  {
    hide Frontier, JoinedRow, FirstRow;
    if AllFirst(g, q, m, e) {
      forall test: Test
        ensures !Loses(g, q, m, test, e)
      {
        if k: int, i: nat :| JoinedAt(g, q, k, i, e) && test(Ctx(Some(i), e)) == Some(true) {
          assert IsFirst(g, q, m, i, e);
          var k' :| Leaves(g, q, k', e) && FirstRow(q, m, e.src, k') == Some(i);
          assert PassesFirst(g, q, m, test, k', e);
        }
      }
    } else {
      var k: int, i: nat :| JoinedAt(g, q, k, i, e) && !IsFirst(g, q, m, i, e);
      var test: Test := (c: Ctx) => Some(c.input == Some(i));
      assert test(Ctx(Some(i), e)) == Some(true);
      forall k'
        ensures !PassesFirst(g, q, m, test, k', e)
      {
      }
      assert Loses(g, q, m, test, e);
    }
  }

  /** So it is with one joined row. */
  lemma OneRowFirst(g: Edges, q: Request, m: Trace, e: Edge)
    requires q.steps > 0 && Traces(g, q.vids, q.steps - 1, m)
    requires forall k, k', i, i' :: JoinedAt(g, q, k, i, e) && JoinedAt(g, q, k', i', e) ==> i == i'
    ensures AllFirst(g, q, m, e)
  {
    hide Traces, FirstRow, JoinedRow, Frontier;
    forall k, i | JoinedAt(g, q, k, i, e)
      ensures IsFirst(g, q, m, i, e)
    {
      FirstRowIs(g, q, m, k, e.src);
      assert JoinedAt(g, q, k, FirstRow(q, m, e.src, k).value, e);
    }
  }

  /** In a query of one step: exactly if no two rows start at the source of e. */
  lemma OneStepIff(g: Edges, q: Request, m: Trace, e: Edge)
    requires q.steps == 1 && Traces(g, q.vids, 0, m) && Leaves(g, q, 1, e)
    ensures AllFirst(g, q, m, e) <==>
      forall i, i' :: 0 <= i < i' < |q.vids| ==> !(q.vids[i] == e.src && q.vids[i'] == e.src)
  {
    hide Traces, FirstRow, Frontier;
    FirstRowIs(g, q, m, 1, e.src);
    if AllFirst(g, q, m, e) {
      forall i, i' | 0 <= i < i' < |q.vids|
        ensures !(q.vids[i] == e.src && q.vids[i'] == e.src)
      {
        assert JoinedAt(g, q, 1, i, e) ==> IsFirst(g, q, m, i, e);
        assert JoinedAt(g, q, 1, i', e) ==> IsFirst(g, q, m, i', e);
      }
    } else {
      var k: int, i: nat :| JoinedAt(g, q, k, i, e) && !IsFirst(g, q, m, i, e);
      var first := FirstRow(q, m, e.src, 1).value;
      assert q.vids[first] == e.src && q.vids[i] == e.src && first != i;
    }
  }

  /** And a filter that reads no input or variable property loses nothing. */
  lemma NoInputRead(g: Edges, q: Request, m: Trace, e: Edge, where: Expr, graph: Ctx -> Env,
                    ops: Operators)
    requires q.steps > 0 && Traces(g, q.vids, q.steps - 1, m)
    requires !ReadsInput(where)
    requires forall a, b :: AgreeElsewhere(graph(Ctx(a, e)), graph(Ctx(b, e)))
    ensures !Loses(g, q, m, WhereTest(Some(where), graph, ops), e)
  {
    hide Traces, FirstRow, JoinedRow, Frontier, Eval;
    var test := WhereTest(Some(where), graph, ops);
    if k: int, i: nat :| JoinedAt(g, q, k, i, e) && test(Ctx(Some(i), e)) == Some(true) {
      var first := FirstRow(q, m, e.src, k);
      EvalSame(where, graph(Ctx(Some(i), e)), graph(Ctx(first, e)), ops);
      assert PassesFirst(g, q, m, test, k, e);
    }
  }

  /** An edge that is lost: two rows start at its source, and the filter, an input property, holds on
      the second only. */
  lemma LostEdge(m: Trace, kept: Edge -> bool, graph: Ctx -> Env, ops: Operators, out: Outcome)
    requires var e := Edge(1, 1, 0, 2);
      graph(Ctx(Some(0), e))(InputProp, "x") == Some(BoolVal(false)) &&
      graph(Ctx(Some(1), e))(InputProp, "x") == Some(BoolVal(true))
    requires Returns({Edge(1, 1, 0, 2)}, Request([1, 1], true, 1, 0, false, false), m, kept,
                     WhereTest(Some(Prop(InputProp, "x")), graph, ops), out)
    ensures var e := Edge(1, 1, 0, 2);
      JoinedAt({e}, Request([1, 1], true, 1, 0, false, false), 1, 1, e) &&
      WhereTest(Some(Prop(InputProp, "x")), graph, ops)(Ctx(Some(1), e)) == Some(true) &&
      out == Rows([])
  {
    hide Frontier;
    var e := Edge(1, 1, 0, 2);
    var q := Request([1, 1], true, 1, 0, false, false);
    var test := WhereTest(Some(Prop(InputProp, "x")), graph, ops);
    assert Frontier({e}, q.vids, 0, 1) by {
      var v: VertexID := q.vids[0];
      assert v in q.vids;
      StartsThere({e}, q.vids, v);
    }
    assert FirstRow(q, m, 1, 1) == Some(0) by {
      FirstOfRows(q.vids, [1], 0);
    }
    forall k, c | Evaluated({e}, q, m, kept, k, c)
      ensures test(c) == Some(false)
    {
      assert c == Ctx(Some(0), e);
    }
    NothingAccepted({e}, q, m, kept, test, out);
  }

  lemma NoneIn(rows: seq<Ctx>)
    ensures (forall c :: c !in rows) ==> rows == []
  {
    if |rows| > 0 {
      assert rows[0] in rows;
    }
  }

  lemma NothingAccepted(g: Edges, q: Request, m: Trace, kept: Edge -> bool, test: Test,
                        out: Outcome)
    requires Returns(g, q, m, kept, test, out)
    requires forall k, c :: Evaluated(g, q, m, kept, k, c) ==> test(c) == Some(false)
    ensures out == Rows([])
  {
    hide Evaluated;
    NoneIn(out.rows);
  }

  lemma StartsThere(g: Edges, vids: seq<VertexID>, v: VertexID)
    requires v in vids
    ensures Frontier(g, vids, 0, v)
  {
    ReachesNone(g, v, v);
  }
}
