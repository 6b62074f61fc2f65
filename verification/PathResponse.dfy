/** What the client receives: the answers read as walks, and the rows built from
    the spliced paths. */
module PathResponse {
  import opened Graph
  import opened Multimaps
  import opened PathSpec

  // ----- the answers, read as walks -----

  lemma {:induction false} DistinctOnce<T(!new)>(s: seq<T>, x: T)
    requires Distinct(s) && x in s
    ensures multiset(s)[x] == 1
  {
    var last, front := s[|s| - 1], s[..|s| - 1];
    assert s == front + [last];
    if x == last {
      assert x !in front;
    } else {
      DistinctOnce(front, x);
    }
  }

  /** All-paths mode: every walk of one to `bound` edges is held exactly once, and nothing else. */
  lemma AllPathsExact(q: Query, final: seq<Entry>)
    requires !q.shortest && FinalOk(q, final, q.bound)
    ensures forall w :: Walk(q, w) && |w| <= q.bound ==> multiset(final)[(Target(w), Splice(w))] == 1
    ensures forall c :: c in final ==> exists w :: Walk(q, w) && |w| <= q.bound && c == (Target(w), Splice(w))
  {
    forall w | Walk(q, w) && |w| <= q.bound
      ensures multiset(final)[(Target(w), Splice(w))] == 1
    {
      var c := (Target(w), Splice(w));
      assert Wanted(q, c, q.bound);
      DistinctOnce(final, c);
    }
    forall c | c in final
      ensures exists w :: Walk(q, w) && |w| <= q.bound && c == (Target(w), Splice(w))
    {
      assert Wanted(q, c, q.bound);
    }
  }

  /** No walk to the same target, from any source, is shorter. */
  ghost predicate ShortestWalk(q: Query, w: seq<Edge>) {
    Walk(q, w) && forall v :: Walk(q, v) && Target(v) == Target(w) ==> |w| <= |v|
  }

  lemma MinimalIffShortest(q: Query, w: seq<Edge>)
    requires Walk(q, w)
    ensures Minimal(q, (Target(w), Splice(w))) <==> ShortestWalk(q, w)
  {
    var c := (Target(w), Splice(w));
    if Minimal(q, c) {
      forall v | Walk(q, v) && Target(v) == Target(w) ensures |w| <= |v| {
        assert Answer(q, (Target(v), Splice(v)));
      }
    }
    if ShortestWalk(q, w) {
      forall d | Answer(q, d) && d.0 == c.0 ensures |c.1| <= |d.1| {
        var v :| Walk(q, v) && d == (Target(v), Splice(v));
      }
    }
  }

  /** Shortest mode: for each target exactly the walks of minimum length within the bound, each once. */
  lemma ShortestExact(q: Query, final: seq<Entry>)
    requires q.shortest && FinalOk(q, final, q.bound)
    ensures forall w :: ShortestWalk(q, w) && |w| <= q.bound ==> multiset(final)[(Target(w), Splice(w))] == 1
    ensures forall c :: c in final ==> exists w :: ShortestWalk(q, w) && |w| <= q.bound && c == (Target(w), Splice(w))
  {
    forall w | ShortestWalk(q, w) && |w| <= q.bound
      ensures multiset(final)[(Target(w), Splice(w))] == 1
    {
      var c := (Target(w), Splice(w));
      MinimalIffShortest(q, w);
      assert Wanted(q, c, q.bound);
      DistinctOnce(final, c);
    }
    forall c | c in final
      ensures exists w :: ShortestWalk(q, w) && |w| <= q.bound && c == (Target(w), Splice(w))
    {
      assert Wanted(q, c, q.bound);
      var w :| Walk(q, w) && c == (Target(w), Splice(w));
      MinimalIffShortest(q, w);
    }
  }

  // ----- rows -----

  datatype RowEntry = VertexEntry(id: VertexID) | EdgeEntry(name: string, rank: Ranking)

  ghost predicate Named(w: seq<Edge>, names: map<EdgeType, string>) {
    forall i :: 0 <= i < |w| ==> w[i].etype > 0 && w[i].etype in names
  }

  /** The first n edges of the walk lie in the row, each behind its source vertex. */
  ghost predicate Alternates(w: seq<Edge>, names: map<EdgeType, string>, n: nat, row: seq<RowEntry>)
    requires Named(w, names) && n <= |w|
  {
    2 * n <= |row| &&
    forall i :: 0 <= i < n ==>
      row[2 * i] == VertexEntry(w[i].src) && row[2 * i + 1] == EdgeEntry(names[w[i].etype], w[i].rank)
  }

  /** The row of a walk: its vertices and edges in turn, from its first vertex to its target. */
  ghost predicate IsRow(w: seq<Edge>, names: map<EdgeType, string>, row: seq<RowEntry>)
    requires |w| > 0 && Named(w, names)
  {
    |row| == 2 * |w| + 1 && Alternates(w, names, |w|, row) && row[2 * |w|] == VertexEntry(Target(w))
  }

  lemma PairAppended(w: seq<Edge>, names: map<EdgeType, string>, n: nat, row: seq<RowEntry>)
    requires Named(w, names) && n < |w| && |row| == 2 * n && Alternates(w, names, n, row)
    ensures Alternates(w, names, n + 1, row + [VertexEntry(w[n].src), EdgeEntry(names[w[n].etype], w[n].rank)])
  {
  }

  lemma EdgeAppended(w: seq<Edge>, names: map<EdgeType, string>, n: nat, row: seq<RowEntry>, last: RowEntry)
    requires Named(w, names) && n < |w| && |row| == 2 * n + 1 && Alternates(w, names, n, row)
    requires row[2 * n] == VertexEntry(w[n].src)
    ensures Alternates(w, names, n + 1, row + [EdgeEntry(names[w[n].etype], w[n].rank), last])
  {
  }

  lemma VertexAppended(w: seq<Edge>, names: map<EdgeType, string>, n: nat, row: seq<RowEntry>, last: RowEntry)
    requires Named(w, names) && n <= |w| && Alternates(w, names, n, row)
    ensures Alternates(w, names, n, row + [last])
  {
  }

  /** buildPathRow: the spliced path decodes to the row of its walk. */
  method BuildPathRow(path: Path, names: map<EdgeType, string>, ghost w: seq<Edge>)
    returns (row: seq<RowEntry>)
    requires |w| > 0 && Connected(w) && Named(w, names) && path == Splice(w)
    ensures IsRow(w, names, row)
  {
    hide Alternates, Splice;
    ghost var h := |w| / 2;
    row := [];
    var iter := 0;
    NothingYet(w, names);
    while iter < |path|
      invariant 0 <= iter <= h + 1 && |row| == 2 * iter && Alternates(w, names, iter, row)
    {
      var step := path[iter];
      SpliceStep(w, iter);
      if step.etype < 0 {
        assert iter == h + 1;
        VertexAppended(w, names, iter, row, VertexEntry(step.id));
        row := row + [VertexEntry(step.id)];
        iter := iter + 1;
        break;
      }
      assert step == FwdStep(w[iter]);
      PairAppended(w, names, iter, row);
      ghost var before := row;
      row := row + [VertexEntry(step.id)];
      row := row + [EdgeEntry(names[step.etype], step.rank)];
      assert row == before + [VertexEntry(step.id), EdgeEntry(names[step.etype], step.rank)];
      iter := iter + 1;
    }
    assert iter == h + 2 && row[2 * (h + 1)] == VertexEntry(w[h].dst);
    while iter < |path|
      invariant h + 2 <= iter <= |path| && |row| == 2 * iter - 1 && Alternates(w, names, iter - 1, row)
      invariant row[2 * iter - 2] == VertexEntry(w[iter - 2].dst)
    {
      var step := path[iter];
      SpliceStep(w, iter);
      assert step == BwdStep(w[iter - 1]) && w[iter - 2].dst == w[iter - 1].src;
      EdgeAppended(w, names, iter - 1, row, VertexEntry(step.id));
      ghost var before := row;
      row := row + [EdgeEntry(names[-step.etype], step.rank)];
      row := row + [VertexEntry(step.id)];
      assert row == before + [EdgeEntry(names[-step.etype], step.rank), VertexEntry(step.id)];
      iter := iter + 1;
    }
  }

  lemma SpliceStep(w: seq<Edge>, i: nat)
    requires |w| > 0 && i <= |w|
    ensures Splice(w)[i] == if i <= |w| / 2 then FwdStep(w[i]) else BwdStep(w[i - 1])
  {
  }

  lemma NothingYet(w: seq<Edge>, names: map<EdgeType, string>)
    requires Named(w, names)
    ensures Alternates(w, names, 0, [])
  {
  }

  /** row is that of a walk stored as c. */
  ghost predicate RowOf(q: Query, c: Entry, names: map<EdgeType, string>, row: seq<RowEntry>) {
    exists w :: Walk(q, w) && Named(w, names) && c == (Target(w), Splice(w)) && IsRow(w, names, row)
  }

  lemma StoredWalk(q: Query, final: seq<Entry>, len: nat, i: nat, names: map<EdgeType, string>) returns (w: seq<Edge>)
    requires q.Valid() && FinalOk(q, final, len) && i < |final| && forall t :: t in q.over ==> t in names
    ensures |w| > 0 && Connected(w) && Walk(q, w) && Named(w, names) && final[i] == (Target(w), Splice(w))
  {
    hide Splice, Minimal;
    assert Wanted(q, final[i], len);
    w :| Walk(q, w) && final[i] == (Target(w), Splice(w));
  }

  /** setupResponse: one row per answer, each that of its walk. */
  method SetupResponse(q: Query, final: seq<Entry>, names: map<EdgeType, string>, len: nat)
    returns (rows: seq<seq<RowEntry>>)
    requires q.Valid() && FinalOk(q, final, len) && forall t :: t in q.over ==> t in names
    ensures |rows| == |final|
    ensures forall i :: 0 <= i < |final| ==> RowOf(q, final[i], names, rows[i])
  {
    hide IsRow, Splice, Wanted, Walk, FinalOk;
    rows := [];
    for i := 0 to |final|
      invariant |rows| == i
      invariant forall j :: 0 <= j < i ==> RowOf(q, final[j], names, rows[j])
    {
      ghost var w := StoredWalk(q, final, len, i, names);
      var row := BuildPathRow(final[i].1, names, w);
      assert RowOf(q, final[i], names, row);
      rows := rows + [row];
    }
  }
}
