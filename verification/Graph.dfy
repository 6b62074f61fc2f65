/** The edges a graph space stores, seen through their keys. */
module Graph {
  import opened Multimaps

  type VertexID = int
  type EdgeType = int
  type Ranking = int

  datatype Edge = Edge(src: VertexID, etype: EdgeType, rank: Ranking, dst: VertexID)

  /** Every edge is stored twice: out of its source under its type, and out of
      its destination under the negated type. */
  function Mirror(e: Edge): Edge {
    Edge(e.dst, -e.etype, e.rank, e.src)
  }

  ghost predicate Mirrored(store: set<Edge>) {
    forall e :: e in store ==> Mirror(e) in store
  }

  ghost predicate Connected(w: seq<Edge>) {
    forall i :: 0 <= i < |w| - 1 ==> w[i].dst == w[i + 1].src
  }

  /** HasElement at the type of vertex ids, where the generic lemma does not reach. */
  lemma HasVertex(s: set<VertexID>)
    ensures s == {} || exists v :: v in s
  {
    if forall v :: v !in s {
      assert s == {};
    }
  }

  /** Copying an unordered set out to a vector, in some order. */
  method CopyOut(s: set<VertexID>) returns (r: seq<VertexID>)
    ensures Distinct(r) && forall v :: v in r <==> v in s
  {
    r := [];
    var rest := s;
    while rest != {}
      invariant rest <= s && Distinct(r)
      invariant forall v :: v in r <==> v in s && v !in rest
    {
      HasVertex(rest);
      var v :| v in rest;
      r := r + [v];
      rest := rest - {v};
    }
  }
}
