/** GO: the multi-step frontier, the roots each vertex is traced back to, the join with the
    input rows, and the final filtering. */
module Go {
  import opened Multimaps
  import opened Graph

  /** The edges a traversal may take. */
  type Edges = set<Edge>

  /** A walk from r to v. */
  ghost predicate Leads(g: Edges, w: seq<Edge>, r: VertexID, v: VertexID) {
    Connected(w) && (forall i :: 0 <= i < |w| ==> w[i] in g) &&
    if w == [] then r == v else w[0].src == r && w[|w| - 1].dst == v
  }

  /** Some walk of exactly n edges leads from r to v. */
  ghost predicate Reaches(g: Edges, r: VertexID, v: VertexID, n: nat) {
    exists w :: |w| == n && Leads(g, w, r, v)
  }

  /** Some walk of 1 to n edges does. */
  ghost predicate ReachesWithin(g: Edges, r: VertexID, v: VertexID, n: nat) {
    exists k :: 1 <= k <= n && Reaches(g, r, v, k)
  }

  ghost predicate EdgeBetween(g: Edges, u: VertexID, v: VertexID) {
    exists e :: e in g && e.src == u && e.dst == v
  }

  lemma ReachesSnoc(g: Edges, r: VertexID, u: VertexID, v: VertexID, n: nat)
    requires Reaches(g, r, u, n) && EdgeBetween(g, u, v)
    ensures Reaches(g, r, v, n + 1)
  {
    var w: seq<Edge> :| |w| == n && Leads(g, w, r, u);
    var e :| e in g && e.src == u && e.dst == v;
    assert Leads(g, w + [e], r, v);
  }

  lemma ReachesFront(g: Edges, r: VertexID, v: VertexID, n: nat) returns (u: VertexID)
    requires Reaches(g, r, v, n + 1)
    ensures Reaches(g, r, u, n) && EdgeBetween(g, u, v)
  {
    var w: seq<Edge> :| |w| == n + 1 && Leads(g, w, r, v);
    u := w[n].src;
    assert Leads(g, w[..n], r, u);
    assert w[n] in g && w[n].dst == v;
  }

  lemma ReachesNone(g: Edges, r: VertexID, v: VertexID)
    ensures Reaches(g, r, v, 0) <==> r == v
  {
    if r == v {
      assert Leads(g, [], r, v);
    }
  }

  lemma ReachesPrefix(g: Edges, r: VertexID, v: VertexID, k: nat, n: nat) returns (u: VertexID)
    requires Reaches(g, r, v, k) && n <= k
    ensures Reaches(g, r, u, n)
  {
    var w: seq<Edge> :| |w| == k && Leads(g, w, r, v);
    u := if n == 0 then r else w[n - 1].dst;
    assert Leads(g, w[..n], r, u);
  }

  // ----- the traversal -----

  /** A vertex of a response with the edges out of it. */
  datatype VData = VData(id: VertexID, edges: seq<Edge>)

  /** The response holds exactly the edges out of the requested vertices. */
  ghost predicate Answers(g: Edges, starts: seq<VertexID>, resp: seq<VData>) {
    (forall i, j :: 0 <= i < |resp| && 0 <= j < |resp[i].edges| ==>
      var e := resp[i].edges[j]; e in g && e.src == resp[i].id && e.src in starts) &&
    (forall e: Edge :: e in g && e.src in starts ==> exists i :: Lists(resp, i, e))
  }

  ghost predicate Lists(resp: seq<VData>, i: int, e: Edge) {
    0 <= i < |resp| && resp[i].id == e.src && e in resp[i].edges
  }

  /** The vertices reached by exactly n edges from the start vertices. */
  ghost predicate Frontier(g: Edges, from: seq<VertexID>, n: nat, v: VertexID) {
    exists r :: r in from && Reaches(g, r, v, n)
  }

  ghost predicate IsFrontier(g: Edges, from: seq<VertexID>, n: nat, vs: seq<VertexID>) {
    forall v :: v in vs <==> Frontier(g, from, n, v)
  }

  /** Traced(m, v, r): r is a root of v. After n steps the roots of a vertex are the start
      vertices with some walk of 1 to n edges to it. */
  ghost predicate Traces(g: Edges, from: seq<VertexID>, n: nat, m: Multimap<VertexID, VertexID>) {
    forall v, r :: (v, r) in m <==> r in from && ReachesWithin(g, r, v, n)
  }

  /** The roots one edge out of u adds for its destination. */
  function RootsOf(m: Multimap<VertexID, VertexID>, u: VertexID): (roots: seq<VertexID>)
    ensures forall r :: r in roots <==> if Range(m, u) == [] then r == u else (u, r) in m
  {
    if Range(m, u) == [] then [u] else Range(m, u)
  }

  function Pairs(dst: VertexID, roots: seq<VertexID>): (ps: Multimap<VertexID, VertexID>)
    ensures |ps| == |roots|
    ensures forall p :: p in ps <==> p.0 == dst && p.1 in roots
  {
    if roots == [] then [] else Pairs(dst, roots[..|roots| - 1]) + [(dst, roots[|roots| - 1])]
  }

  ghost predicate HasDst(edges: seq<Edge>, v: VertexID) {
    exists j :: 0 <= j < |edges| && edges[j].dst == v
  }

  ghost predicate IsDst(resp: seq<VData>, v: VertexID) {
    exists i :: 0 <= i < |resp| && HasDst(resp[i].edges, v)
  }

  lemma HasDstSnoc(edges: seq<Edge>, e: Edge)
    ensures forall v :: HasDst(edges + [e], v) <==> HasDst(edges, v) || e.dst == v
  {
    var longer := edges + [e];
    forall v
      ensures HasDst(longer, v) <==> HasDst(edges, v) || e.dst == v
    {
      assert longer[|edges|] == e;
      if HasDst(edges, v) {
        var j :| 0 <= j < |edges| && edges[j].dst == v;
        assert longer[j] == edges[j];
      }
    }
  }

  lemma IsDstSnoc(resp: seq<VData>, vd: VData)
    ensures forall v :: IsDst(resp + [vd], v) <==> IsDst(resp, v) || HasDst(vd.edges, v)
  {
    hide HasDst;
    var longer := resp + [vd];
    forall v
      ensures IsDst(longer, v) <==> IsDst(resp, v) || HasDst(vd.edges, v)
    {
      assert longer[|resp|] == vd;
      if IsDst(resp, v) {
        var i :| 0 <= i < |resp| && HasDst(resp[i].edges, v);
        assert longer[i] == resp[i];
      }
    }
  }

  /** What a list of edges out of u adds to the back trace. */
  function TraceEdges(m: Multimap<VertexID, VertexID>, u: VertexID, edges: seq<Edge>): Multimap<VertexID, VertexID> {
    if edges == [] then []
    else TraceEdges(m, u, edges[..|edges| - 1]) + Pairs(edges[|edges| - 1].dst, RootsOf(m, u))
  }

  function Trace(m: Multimap<VertexID, VertexID>, resp: seq<VData>): Multimap<VertexID, VertexID> {
    if resp == [] then []
    else
      var last := resp[|resp| - 1];
      Trace(m, resp[..|resp| - 1]) + TraceEdges(m, last.id, last.edges)
  }

  lemma {:induction false} TraceEdgesIff(m: Multimap<VertexID, VertexID>, u: VertexID, edges: seq<Edge>,
                                         v: VertexID, r: VertexID)
    ensures (v, r) in TraceEdges(m, u, edges) <==> HasDst(edges, v) && r in RootsOf(m, u)
  {
    hide HasDst, RootsOf;
    if edges == [] {
      NoDst(v);
    } else {
      var front := edges[..|edges| - 1];
      TraceEdgesIff(m, u, front, v, r);
      HasDstSnoc(front, edges[|edges| - 1]);
      assert edges == front + [edges[|edges| - 1]];
    }
  }

  lemma NoDst(v: VertexID)
    ensures !HasDst([], v)
  {
  }

  ghost predicate TracedAt(m: Multimap<VertexID, VertexID>, resp: seq<VData>, i: int, v: VertexID, r: VertexID) {
    0 <= i < |resp| && HasDst(resp[i].edges, v) && r in RootsOf(m, resp[i].id)
  }

  lemma {:induction false} TraceIff(m: Multimap<VertexID, VertexID>, resp: seq<VData>, v: VertexID, r: VertexID)
    ensures (v, r) in Trace(m, resp) <==> exists i :: TracedAt(m, resp, i, v, r)
  {
    hide HasDst, RootsOf, TraceEdges;
    if resp != [] {
      var n := |resp| - 1;
      var front := resp[..n];
      TraceIff(m, front, v, r);
      TraceEdgesIff(m, resp[n].id, resp[n].edges, v, r);
      assert (v, r) in TraceEdges(m, resp[n].id, resp[n].edges) <==> TracedAt(m, resp, n, v, r);
      if exists i :: TracedAt(m, front, i, v, r) {
        var i :| TracedAt(m, front, i, v, r);
        assert TracedAt(m, resp, i, v, r);
      }
      if exists i :: TracedAt(m, resp, i, v, r) {
        var i :| TracedAt(m, resp, i, v, r);
        assert i == n || TracedAt(m, front, i, v, r);
      }
    }
  }

  // ----- one step -----

  /** The roots of a frontier vertex before the step that expands it. */
  lemma RootsBefore(g: Edges, from: seq<VertexID>, n: nat, m: Multimap<VertexID, VertexID>, u: VertexID)
    requires Traces(g, from, n, m) && Frontier(g, from, n, u)
    ensures forall r :: r in RootsOf(m, u) <==>
      r in from && if n == 0 then r == u else ReachesWithin(g, r, u, n)
  {
    var s :| s in from && Reaches(g, s, u, n);
    if n == 0 {
      ReachesNone(g, s, u);
      assert forall r :: (u, r) !in m;
      RangeEmpty(m, u);
    } else {
      assert ReachesWithin(g, s, u, n);
      assert s in Range(m, u);
    }
  }

  lemma RangeEmpty(m: Multimap<VertexID, VertexID>, u: VertexID)
    ensures Range(m, u) == [] || (u, Range(m, u)[0]) in m
  {
    var range := Range(m, u);
    assert range == [] || range[0] in range;
  }

  lemma WithinStep(g: Edges, r: VertexID, u: VertexID, v: VertexID, n: nat)
    requires EdgeBetween(g, u, v) && if n == 0 then r == u else ReachesWithin(g, r, u, n)
    ensures ReachesWithin(g, r, v, n + 1)
  {
    ReachesNone(g, r, u);
    var k :| 0 <= k <= n && Reaches(g, r, u, k);
    ReachesSnoc(g, r, u, v, k);
  }

  /** What a traced pair says: some edge, and a root of its source. */
  lemma TraceGives(g: Edges, starts: seq<VertexID>, resp: seq<VData>, m: Multimap<VertexID, VertexID>,
                   v: VertexID, r: VertexID) returns (u: VertexID)
    requires Answers(g, starts, resp) && (v, r) in Trace(m, resp)
    ensures u in starts && EdgeBetween(g, u, v) && r in RootsOf(m, u)
  {
    TraceIff(m, resp, v, r);
    var i :| TracedAt(m, resp, i, v, r);
    u := resp[i].id;
    var j :| 0 <= j < |resp[i].edges| && resp[i].edges[j].dst == v;
    assert resp[i].edges[j] in g;
  }

  lemma TraceTakes(g: Edges, starts: seq<VertexID>, resp: seq<VData>, m: Multimap<VertexID, VertexID>,
                   u: VertexID, v: VertexID, r: VertexID)
    requires Answers(g, starts, resp) && u in starts && EdgeBetween(g, u, v) && r in RootsOf(m, u)
    ensures (v, r) in Trace(m, resp)
  {
    var e: Edge :| e in g && e.src == u && e.dst == v;
    var i :| Lists(resp, i, e);
    var j :| 0 <= j < |resp[i].edges| && resp[i].edges[j] == e;
    assert TracedAt(m, resp, i, v, r);
    TraceIff(m, resp, v, r);
  }

  lemma TraceStep(g: Edges, from: seq<VertexID>, n: nat, m: Multimap<VertexID, VertexID>,
                  starts: seq<VertexID>, resp: seq<VData>)
    requires Traces(g, from, n, m) && IsFrontier(g, from, n, starts) && Answers(g, starts, resp)
    ensures Traces(g, from, n + 1, m + Trace(m, resp))
  {
    hide Answers, ReachesWithin, Reaches, Trace, RootsOf;
    var m' := m + Trace(m, resp);
    forall v, r
      ensures (v, r) in m' <==> r in from && ReachesWithin(g, r, v, n + 1)
    {
      if (v, r) in Trace(m, resp) {
        var u := TraceGives(g, starts, resp, m, v, r);
        RootsBefore(g, from, n, m, u);
        WithinStep(g, r, u, v, n);
      }
      if (v, r) in m {
        WithinMore(g, r, v, n);
      }
      if r in from && ReachesWithin(g, r, v, n + 1) && (v, r) !in m {
        var u := WithinLast(g, r, v, n);
        assert Frontier(g, from, n, u);
        RootsBefore(g, from, n, m, u);
        TraceTakes(g, starts, resp, m, u, v, r);
      }
    }
  }

  // ----- how often a root is traced -----

  /** Every vertex is listed once, with every edge out of it once. */
  ghost predicate ListsOnce(resp: seq<VData>) {
    (forall i, j :: 0 <= i < j < |resp| ==> resp[i].id != resp[j].id) &&
    forall i :: 0 <= i < |resp| ==> Distinct(resp[i].edges)
  }

  ghost predicate ListsOwn(resp: seq<VData>) {
    forall i, n :: 0 <= i < |resp| && 0 <= n < |resp[i].edges| ==> resp[i].edges[n].src == resp[i].id
  }

  /** The edges to v that step n + 1 goes along. */
  ghost function EdgesInto(g: Edges, from: seq<VertexID>, n: nat, v: VertexID): set<Edge> {
    set e | e in g && e.dst == v && Frontier(g, from, n, e.src)
  }

  /** How often r is traced as a root of v in n steps: every edge to v that a step goes along brings
      the roots its source has by then, and in the first step the source itself. */
  ghost function RootCount(g: Edges, from: seq<VertexID>, n: nat, v: VertexID, r: VertexID): nat
    decreases n, 0
  {
    if n == 0 then 0
    else RootCount(g, from, n - 1, v, r) + RootSum(g, from, n - 1, EdgesInto(g, from, n - 1, v), r)
  }

  ghost function RootSum(g: Edges, from: seq<VertexID>, n: nat, edges: set<Edge>, r: VertexID): nat
    decreases n, 2, |edges|
  {
    if edges == {} then 0
    else
      HasElement(edges);
      var e :| e in edges;
      Brings(g, from, n, e.src, r) + RootSum(g, from, n, edges - {e}, r)
  }

  ghost function Brings(g: Edges, from: seq<VertexID>, n: nat, u: VertexID, r: VertexID): nat
    decreases n, 1
  {
    if n > 0 then RootCount(g, from, n, u, r) else if u == r then 1 else 0
  }

  ghost predicate Counts(g: Edges, from: seq<VertexID>, n: nat, m: Multimap<VertexID, VertexID>) {
    forall v, r :: multiset(m)[(v, r)] == RootCount(g, from, n, v, r)
  }

  lemma {:induction false} RootSumRemove(g: Edges, from: seq<VertexID>, n: nat, edges: set<Edge>, e: Edge, r: VertexID)
    requires e in edges
    ensures RootSum(g, from, n, edges, r) == Brings(g, from, n, e.src, r) + RootSum(g, from, n, edges - {e}, r)
    decreases |edges|
  {
    hide Brings;
    HasElement(edges);
    var d :| d in edges &&
      RootSum(g, from, n, edges, r) == Brings(g, from, n, d.src, r) + RootSum(g, from, n, edges - {d}, r);
    if d != e {
      RootSumRemove(g, from, n, edges - {d}, e, r);
      RootSumRemove(g, from, n, edges - {e}, d, r);
      assert edges - {d} - {e} == edges - {e} - {d};
    }
  }

  /** All the edges of an answer, one after the other. */
  ghost function Listed(resp: seq<VData>): seq<Edge> {
    if resp == [] then [] else Listed(resp[..|resp| - 1]) + resp[|resp| - 1].edges
  }

  /** How often a list of edges adds the root r for v. */
  ghost function ListSum(m: Multimap<VertexID, VertexID>, edges: seq<Edge>, v: VertexID, r: VertexID): nat {
    if edges == [] then 0
    else
      var e := edges[|edges| - 1];
      ListSum(m, edges[..|edges| - 1], v, r) + if e.dst == v then multiset(RootsOf(m, e.src))[r] else 0
  }

  lemma {:induction false} ListSumConcat(m: Multimap<VertexID, VertexID>, a: seq<Edge>, b: seq<Edge>,
                                         v: VertexID, r: VertexID)
    ensures ListSum(m, a + b, v, r) == ListSum(m, a, v, r) + ListSum(m, b, v, r)
  {
    hide RootsOf;
    if b == [] {
      assert a + b == a;
    } else {
      assert (a + b)[..|a + b| - 1] == a + b[..|b| - 1];
      ListSumConcat(m, a, b[..|b| - 1], v, r);
    }
  }

  lemma {:induction false} PairsCount(dst: VertexID, roots: seq<VertexID>, v: VertexID, r: VertexID)
    ensures multiset(Pairs(dst, roots))[(v, r)] == if v == dst then multiset(roots)[r] else 0
  {
    if roots != [] {
      var front, last: VertexID := roots[..|roots| - 1], roots[|roots| - 1];
      PairsCount(dst, front, v, r);
      assert roots == front + [last];
      ConcatCounts(front, [last], r);
      ConcatCounts(Pairs(dst, front), [(dst, last)], (v, r));
    }
  }

  lemma {:induction false} TraceEdgesCount(m: Multimap<VertexID, VertexID>, u: VertexID, edges: seq<Edge>,
                                           v: VertexID, r: VertexID)
    requires forall j :: 0 <= j < |edges| ==> edges[j].src == u
    ensures multiset(TraceEdges(m, u, edges))[(v, r)] == ListSum(m, edges, v, r)
  {
    hide RootsOf, Pairs;
    if edges != [] {
      var front, e := edges[..|edges| - 1], edges[|edges| - 1];
      TraceEdgesCount(m, u, front, v, r);
      PairsCount(e.dst, RootsOf(m, u), v, r);
      ConcatCounts(TraceEdges(m, u, front), Pairs(e.dst, RootsOf(m, u)), (v, r));
    }
  }

  lemma {:induction false} TraceCount(m: Multimap<VertexID, VertexID>, resp: seq<VData>, v: VertexID, r: VertexID)
    requires ListsOwn(resp)
    ensures multiset(Trace(m, resp))[(v, r)] == ListSum(m, Listed(resp), v, r)
  {
    hide TraceEdges, ListSum;
    if resp == [] {
      NothingListed(m, v, r);
    } else {
      var front, last := resp[..|resp| - 1], resp[|resp| - 1];
      TraceCount(m, front, v, r);
      TraceEdgesCount(m, last.id, last.edges, v, r);
      ListSumConcat(m, Listed(front), last.edges, v, r);
      ConcatCounts(Trace(m, front), TraceEdges(m, last.id, last.edges), (v, r));
    }
  }

  lemma NothingListed(m: Multimap<VertexID, VertexID>, v: VertexID, r: VertexID)
    ensures ListSum(m, Listed([]), v, r) == 0
  {
  }

  lemma {:induction false} ListedIff(resp: seq<VData>, e: Edge)
    requires ListsOwn(resp)
    ensures e in Listed(resp) <==> exists i :: Lists(resp, i, e)
  {
    if resp != [] {
      var n := |resp| - 1;
      var front := resp[..n];
      ListedIff(front, e);
      if i :| Lists(front, i, e) {
        assert Lists(resp, i, e);
      }
      if i :| Lists(resp, i, e) {
        assert i == n || Lists(front, i, e);
      }
      if e in resp[n].edges {
        var j :| 0 <= j < |resp[n].edges| && resp[n].edges[j] == e;
        assert Lists(resp, n, e);
      }
    }
  }

  lemma {:induction false} ListedDistinct(resp: seq<VData>)
    requires ListsOnce(resp) && ListsOwn(resp)
    ensures Distinct(Listed(resp))
  {
    if resp != [] {
      var n := |resp| - 1;
      var front := resp[..n];
      ListedDistinct(front);
      forall e | e in resp[n].edges
        ensures e !in Listed(front)
      {
        var j :| 0 <= j < |resp[n].edges| && resp[n].edges[j] == e;
        ListedIff(front, e);
      }
      DistinctConcat(Listed(front), resp[n].edges);
    }
  }

  /** Over a list without duplicates that is the sum over its edges to v. */
  lemma {:induction false} ListIsSet(g: Edges, from: seq<VertexID>, n: nat, m: Multimap<VertexID, VertexID>,
                                     edges: seq<Edge>, v: VertexID, r: VertexID)
    requires Distinct(edges)
    requires forall j :: 0 <= j < |edges| ==>
      multiset(RootsOf(m, edges[j].src))[r] == Brings(g, from, n, edges[j].src, r)
    ensures ListSum(m, edges, v, r) == RootSum(g, from, n, (set e | e in edges && e.dst == v), r)
  {
    hide RootsOf, Brings, RootSum;
    var into := set e | e in edges && e.dst == v;
    if edges == [] {
      assert into == {};
      NothingSummed(g, from, n, r);
    } else {
      var front, last := edges[..|edges| - 1], edges[|edges| - 1];
      ListIsSet(g, from, n, m, front, v, r);
      assert edges == front + [last] && last !in front;
      var before := set e | e in front && e.dst == v;
      if last.dst == v {
        RootSumRemove(g, from, n, into, last, r);
        assert into - {last} == before;
      } else {
        assert into == before;
      }
    }
  }

  lemma NothingSummed(g: Edges, from: seq<VertexID>, n: nat, r: VertexID)
    ensures RootSum(g, from, n, {}, r) == 0
  {
  }

  /** What the edges out of a frontier vertex bring. */
  lemma RootsBring(g: Edges, from: seq<VertexID>, n: nat, m: Multimap<VertexID, VertexID>, u: VertexID, r: VertexID)
    requires Traces(g, from, n, m) && Counts(g, from, n, m) && Frontier(g, from, n, u)
    ensures multiset(RootsOf(m, u))[r] == Brings(g, from, n, u, r)
  {
    hide ReachesWithin, Reaches, RootCount;
    RangeCount(m, u, r);
    var s :| s in from && Reaches(g, s, u, n);
    if n == 0 {
      RangeEmpty(m, u);
      NotWithinNone(g, u);
      assert forall x :: (u, x) !in m;
      assert RootsOf(m, u) == [u];
      SingleCount(u, r);
    } else {
      WithinAt(g, s, u, n);
      assert s in Range(m, u);
    }
  }

  lemma SingleCount(u: VertexID, r: VertexID)
    ensures multiset([u])[r] == if u == r then 1 else 0
  {
  }

  lemma NotWithinNone(g: Edges, u: VertexID)
    ensures forall r :: !ReachesWithin(g, r, u, 0)
  {
  }

  lemma WithinAt(g: Edges, r: VertexID, u: VertexID, n: nat)
    requires Reaches(g, r, u, n) && n > 0
    ensures ReachesWithin(g, r, u, n)
  {
  }

  lemma OwnAnswers(g: Edges, starts: seq<VertexID>, resp: seq<VData>)
    requires Answers(g, starts, resp)
    ensures ListsOwn(resp)
  {
  }

  lemma CountStep(g: Edges, from: seq<VertexID>, n: nat, m: Multimap<VertexID, VertexID>,
                  starts: seq<VertexID>, resp: seq<VData>)
    requires Traces(g, from, n, m) && Counts(g, from, n, m)
    requires IsFrontier(g, from, n, starts) && Answers(g, starts, resp) && ListsOnce(resp)
    ensures Counts(g, from, n + 1, m + Trace(m, resp))
  {
    hide Traces, Trace, RootsOf, ListSum, RootSum, Brings, Frontier, Listed;
    OwnAnswers(g, starts, resp);
    ListedDistinct(resp);
    var edges := Listed(resp);
    forall e
      ensures e in edges <==> e in g && Frontier(g, from, n, e.src)
    {
      ListedAll(g, from, n, starts, resp, e);
    }
    forall v, r
      ensures multiset(m + Trace(m, resp))[(v, r)] == RootCount(g, from, n + 1, v, r)
    {
      forall j | 0 <= j < |edges|
        ensures multiset(RootsOf(m, edges[j].src))[r] == Brings(g, from, n, edges[j].src, r)
      {
        assert edges[j] in edges;
        RootsBring(g, from, n, m, edges[j].src, r);
      }
      TraceCount(m, resp, v, r);
      ListIsSet(g, from, n, m, edges, v, r);
      assert (set e | e in edges && e.dst == v) == EdgesInto(g, from, n, v);
      ConcatCounts(m, Trace(m, resp), (v, r));
    }
  }

  lemma ListedAll(g: Edges, from: seq<VertexID>, n: nat, starts: seq<VertexID>, resp: seq<VData>, e: Edge)
    requires IsFrontier(g, from, n, starts) && Answers(g, starts, resp)
    ensures e in Listed(resp) <==> e in g && Frontier(g, from, n, e.src)
  {
    hide Frontier, Listed;
    OwnAnswers(g, starts, resp);
    ListedIff(resp, e);
    if i :| Lists(resp, i, e) {
      var j :| 0 <= j < |resp[i].edges| && resp[i].edges[j] == e;
    }
  }

  lemma NothingTraced(g: Edges, from: seq<VertexID>)
    ensures Counts(g, from, 0, [])
  {
  }

  /** Behind a dead end nothing more is traced. */
  lemma {:induction false} CountsAll(g: Edges, from: seq<VertexID>, n: nat, m: Multimap<VertexID, VertexID>, more: nat)
    requires Counts(g, from, n, m) && n <= more && forall k, v :: k >= n ==> !Frontier(g, from, k, v)
    ensures Counts(g, from, more, m)
  {
    if n < more {
      CountsAll(g, from, n, m, more - 1);
      forall v, r
        ensures multiset(m)[(v, r)] == RootCount(g, from, more, v, r)
      {
        assert EdgesInto(g, from, more - 1, v) == {};
      }
    }
  }

  lemma WithinMore(g: Edges, r: VertexID, v: VertexID, n: nat)
    requires ReachesWithin(g, r, v, n)
    ensures ReachesWithin(g, r, v, n + 1)
  {
  }

  /** A walk of n + 1 edges, all shorter ones being excluded, comes from a walk of n. */
  lemma WithinLast(g: Edges, r: VertexID, v: VertexID, n: nat) returns (u: VertexID)
    requires ReachesWithin(g, r, v, n + 1) && !ReachesWithin(g, r, v, n)
    ensures Reaches(g, r, u, n) && EdgeBetween(g, u, v)
    ensures if n == 0 then r == u else ReachesWithin(g, r, u, n)
  {
    var k :| 1 <= k <= n + 1 && Reaches(g, r, v, k);
    assert k == n + 1;
    u := ReachesFront(g, r, v, n);
    ReachesNone(g, r, u);
  }

  lemma FrontierStep(g: Edges, from: seq<VertexID>, n: nat, starts: seq<VertexID>, resp: seq<VData>)
    requires IsFrontier(g, from, n, starts) && Answers(g, starts, resp)
    ensures forall v :: IsDst(resp, v) <==> Frontier(g, from, n + 1, v)
  {
    forall v
      ensures IsDst(resp, v) <==> Frontier(g, from, n + 1, v)
    {
      if IsDst(resp, v) {
        var i :| 0 <= i < |resp| && HasDst(resp[i].edges, v);
        var j :| 0 <= j < |resp[i].edges| && resp[i].edges[j].dst == v;
        var u := resp[i].id;
        var r :| r in from && Reaches(g, r, u, n);
        ReachesSnoc(g, r, u, v, n);
      }
      if Frontier(g, from, n + 1, v) {
        var r :| r in from && Reaches(g, r, v, n + 1);
        var u := ReachesFront(g, r, v, n);
        assert Frontier(g, from, n, u);
        var e: Edge :| e in g && e.src == u && e.dst == v;
        var i :| Lists(resp, i, e);
        var j :| 0 <= j < |resp[i].edges| && resp[i].edges[j] == e;
        assert HasDst(resp[i].edges, v);
      }
    }
  }

  lemma Advance(g: Edges, from: seq<VertexID>, n: nat, m: Multimap<VertexID, VertexID>,
                starts: seq<VertexID>, resp: seq<VData>, dsts: seq<VertexID>)
    requires Traces(g, from, n, m) && IsFrontier(g, from, n, starts) && Answers(g, starts, resp)
    requires forall v :: v in dsts <==> IsDst(resp, v)
    ensures IsFrontier(g, from, n + 1, dsts) && Traces(g, from, n + 1, m + Trace(m, resp))
  {
    hide Traces, Answers, Trace, IsDst, Frontier;
    TraceStep(g, from, n, m, starts, resp);
    FrontierStep(g, from, n, starts, resp);
  }

  lemma Initially(g: Edges, from: seq<VertexID>)
    ensures Traces(g, from, 0, []) && IsFrontier(g, from, 0, from)
  {
    forall v
      ensures v in from <==> Frontier(g, from, 0, v)
    {
      ReachesNone(g, v, v);
      if Frontier(g, from, 0, v) {
        var r :| r in from && Reaches(g, r, v, 0);
        ReachesNone(g, r, v);
      }
    }
  }

  lemma NoFrontier(g: Edges, from: seq<VertexID>, n: nat)
    requires IsFrontier(g, from, n, [])
    ensures forall v :: !Frontier(g, from, n, v)
  {
    forall v
      ensures !Frontier(g, from, n, v)
    {
      assert v !in [];
    }
  }

  /** Behind a dead end nothing is reached. */
  lemma DeadEnd(g: Edges, from: seq<VertexID>, n: nat)
    requires forall v :: !Frontier(g, from, n, v)
    ensures forall k, v :: k >= n ==> !Frontier(g, from, k, v)
  {
    forall k, v | k >= n
      ensures !Frontier(g, from, k, v)
    {
      if Frontier(g, from, k, v) {
        var r :| r in from && Reaches(g, r, v, k);
        var u := ReachesPrefix(g, r, v, k, n);
        assert Frontier(g, from, n, u);
      }
    }
  }

  /** So tracing on would add nothing. */
  lemma TracedAll(g: Edges, from: seq<VertexID>, n: nat, m: Multimap<VertexID, VertexID>, more: nat)
    requires Traces(g, from, n, m) && n <= more && forall k, v :: k >= n ==> !Frontier(g, from, k, v)
    ensures Traces(g, from, more, m)
  {
    forall v, r
      ensures (v, r) in m <==> r in from && ReachesWithin(g, r, v, more)
    {
      if (v, r) in m {
        var k :| 1 <= k <= n && Reaches(g, r, v, k);
      }
      if r in from && ReachesWithin(g, r, v, more) {
        var k :| 1 <= k <= more && Reaches(g, r, v, k);
        assert Frontier(g, from, k, v);
      }
    }
  }

  lemma TraceNil(m: Multimap<VertexID, VertexID>)
    ensures Trace(m, []) == [] && forall v :: !IsDst([], v)
  {
  }

  lemma TraceSnoc(m: Multimap<VertexID, VertexID>, resp: seq<VData>, i: nat)
    requires i < |resp|
    ensures Trace(m, resp[..i + 1]) == Trace(m, resp[..i]) + TraceEdges(m, resp[i].id, resp[i].edges)
    ensures forall v :: IsDst(resp[..i + 1], v) <==> IsDst(resp[..i], v) || HasDst(resp[i].edges, v)
  {
    hide IsDst, HasDst, TraceEdges;
    assert resp[..i + 1][..i] == resp[..i];
    assert resp[..i + 1] == resp[..i] + [resp[i]];
    IsDstSnoc(resp[..i], resp[i]);
  }

  // ----- what storage filters out -----

  function Keep(edges: seq<Edge>, kept: Edge -> bool): seq<Edge> {
    if edges == [] then []
    else
      var last := edges[|edges| - 1];
      Keep(edges[..|edges| - 1], kept) + if kept(last) then [last] else []
  }

  function PruneAll(resp: seq<VData>, kept: Edge -> bool): (pruned: seq<VData>)
    ensures |pruned| == |resp|
    ensures forall i :: 0 <= i < |resp| ==> pruned[i] == VData(resp[i].id, Keep(resp[i].edges, kept))
  {
    if resp == [] then []
    else
      var last := resp[|resp| - 1];
      PruneAll(resp[..|resp| - 1], kept) + [VData(last.id, Keep(last.edges, kept))]
  }

  // ----- the executor -----

  class GoExecutor {
    const steps: nat
    /** The storage service: the answer to the request of a step. */
    const neighbors: (nat, seq<VertexID>) -> seq<VData>
    /** What storage keeps of an edge on the last step. */
    const kept: Edge -> bool
    ghost const g: Edges
    ghost const from: seq<VertexID>

    var starts: seq<VertexID>
    var curStep: nat
    var records: seq<seq<VData>>
    var mapping: Multimap<VertexID, VertexID>
    /** The start vertices of each step made. */
    ghost var frontiers: seq<seq<VertexID>>

    ghost predicate Complete()
    {
      forall k, vids :: Answers(g, vids, neighbors(k, vids))
    }

    ghost predicate Once()
    {
      forall k, vids :: ListsOnce(neighbors(k, vids))
    }

    constructor (steps: nat, from: seq<VertexID>, neighbors: (nat, seq<VertexID>) -> seq<VData>,
                 kept: Edge -> bool, ghost g: Edges)
      ensures this.steps == steps && this.from == from && this.neighbors == neighbors
      ensures this.kept == kept && this.g == g
      ensures starts == from && curStep == 1 && records == [] && mapping == [] && frontiers == []
    {
      this.steps, this.from, this.neighbors, this.kept, this.g := steps, from, neighbors, kept, g;
      starts, curStep, records, mapping, frontiers := from, 1, [], [], [];
    }

    /** Lines 529-533 of GoExecutor.cpp: the response of step k + 1. */
    function Response(k: nat, vids: seq<VertexID>): seq<VData> {
      var resp := neighbors(k + 1, vids);
      if k + 1 == steps then PruneAll(resp, kept) else resp
    }

    /** The steps made so far: each from its exact frontier. */
    ghost predicate Stepped()
      reads this
    {
      |frontiers| == |records| &&
      forall k :: 0 <= k < |records| ==>
        IsFrontier(g, from, k, frontiers[k]) && records[k] == Response(k, frontiers[k])
    }

    /** Lines 663-702 of GoExecutor.cpp. */
    method GetDstIdsWithBackTrack(resp: seq<VData>) returns (dsts: seq<VertexID>)
      modifies this`mapping
      ensures Distinct(dsts) && forall v :: v in dsts <==> IsDst(resp, v)
      ensures curStep != steps ==> mapping == old(mapping) + Trace(old(mapping), resp)
      ensures curStep == steps ==> mapping == old(mapping)
    {
      hide Trace, IsDst, HasDst, TraceEdges;
      var backTrace: Multimap<VertexID, VertexID> := [];
      var dstSet: set<VertexID> := {};
      TraceNil(mapping);
      for i := 0 to |resp|
        invariant mapping == old(mapping)
        invariant forall v :: v in dstSet <==> IsDst(resp[..i], v)
        invariant curStep != steps ==> backTrace == Trace(mapping, resp[..i])
      {
        var more, trace := VisitEdges(resp[i]);
        dstSet := dstSet + more;
        if curStep != steps {
          backTrace := backTrace + trace;
        }
        TraceSnoc(mapping, resp, i);
      }
      assert resp[..|resp|] == resp;
      if curStep != steps {
        mapping := mapping + backTrace;
      }
      dsts := CopyOut(dstSet);
    }

    /** Lines 681-694 of GoExecutor.cpp: the edges of one vertex. */
    method VisitEdges(vd: VData) returns (dstSet: set<VertexID>, trace: Multimap<VertexID, VertexID>)
      ensures forall v :: v in dstSet <==> HasDst(vd.edges, v)
      ensures curStep != steps ==> trace == TraceEdges(mapping, vd.id, vd.edges)
    {
      hide HasDst, Pairs, RootsOf;
      dstSet, trace := {}, [];
      forall v ensures !HasDst([], v) { NoDst(v); }
      for j := 0 to |vd.edges|
        invariant forall v :: v in dstSet <==> HasDst(vd.edges[..j], v)
        invariant curStep != steps ==> trace == TraceEdges(mapping, vd.id, vd.edges[..j])
      {
        var dst := vd.edges[j].dst;
        if curStep != steps {
          var pairs := TraceEdge(dst, vd.id);
          trace := trace + pairs;
          assert vd.edges[..j + 1][..j] == vd.edges[..j];
        }
        dstSet := dstSet + {dst};
        HasDstSnoc(vd.edges[..j], vd.edges[j]);
        assert vd.edges[..j + 1] == vd.edges[..j] + [vd.edges[j]];
      }
      assert vd.edges[..|vd.edges|] == vd.edges;
    }

    /** Lines 685-691 of GoExecutor.cpp. */
    method TraceEdge(dst: VertexID, u: VertexID) returns (trace: Multimap<VertexID, VertexID>)
      ensures trace == Pairs(dst, RootsOf(mapping, u))
    {
      var range := Range(mapping, u);
      trace := [];
      if range == [] {
        trace := [(dst, u)];
      }
      for i := 0 to |range|
        invariant range != [] ==> trace == Pairs(dst, range[..i])
        invariant range == [] ==> trace == [(dst, u)]
      {
        trace := trace + [(dst, range[i])];
        assert range[..i + 1][..i] == range[..i];
      }
      assert range[..|range|] == range;
    }

    /** Lines 99-122, 589-605 of GoExecutor.cpp: one response after the other. */
    method Execute()
      requires Complete()
      requires starts == from && curStep == 1 && records == [] && mapping == [] && frontiers == []
      modifies this
      ensures steps == 0 || from == [] ==> records == []
      ensures steps > 0 && from != [] ==> Stepped() && 1 <= |records| == curStep <= steps
      ensures steps > 0 && from != [] ==> Traces(g, from, steps - 1, mapping)
      ensures steps > 0 && from != [] && Once() ==> Counts(g, from, steps - 1, mapping)
      ensures steps > 0 && from != [] && curStep < steps ==>
        forall k, v :: k >= curStep ==> !Frontier(g, from, k, v)
    {
      hide Traces, Frontier, IsFrontier, Answers, Trace, PruneAll, Counts, ListsOnce;
      if steps == 0 || starts == [] {
        return;
      }
      var done := false;
      Initially(g, from);
      NothingTraced(g, from);
      while !done
        invariant Complete() && Stepped()
        invariant !done ==> |records| == curStep - 1 && 1 <= curStep <= steps
        invariant !done ==> IsFrontier(g, from, curStep - 1, starts) && Traces(g, from, curStep - 1, mapping)
        invariant !done && Once() ==> Counts(g, from, curStep - 1, mapping)
        invariant done && Once() ==> Counts(g, from, if curStep == steps then steps - 1 else curStep, mapping)
        invariant done ==> 1 <= |records| == curStep <= steps
        invariant done ==> Traces(g, from, if curStep == steps then steps - 1 else curStep, mapping)
        invariant done && curStep < steps ==> IsFrontier(g, from, curStep, [])
        decreases !done, steps - curStep
      {
        var resp := Response(curStep - 1, starts);
        records := records + [resp];
        frontiers := frontiers + [starts];
        ghost var before := mapping;
        var dsts := GetDstIdsWithBackTrack(resp);
        if curStep == steps {
          done := true;
        } else {
          Advance(g, from, curStep - 1, before, starts, resp, dsts);
          if Once() {
            CountStep(g, from, curStep - 1, before, starts, resp);
          }
          starts := dsts;
          if starts == [] {
            done := true;
          } else {
            curStep := curStep + 1;
          }
        }
      }
      if curStep < steps {
        NoFrontier(g, from, curStep);
        DeadEnd(g, from, curStep);
        TracedAll(g, from, curStep, mapping, steps - 1);
        if Once() {
          CountsAll(g, from, curStep, mapping, steps - 1);
        }
      }
    }
  }
}
