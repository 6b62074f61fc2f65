/** The bidirectional search of FIND PATH: two multimaps of half paths grow one
    edge per round from both ends and are joined at odd and at even lengths. */
module FindPath {
  import opened Graph
  import opened Multimaps
  import opened PathSpec
  import opened PathJoins

  /** Lines 388-415 of FindPathExecutor.cpp. */
  method UpdatePath(src: VertexID, pathToSrc: Multimap<VertexID, Path>, nb: Neighbor,
                    pathToNeighbor: Multimap<VertexID, Path>, forward: bool)
    returns (r: Multimap<VertexID, Path>)
    ensures r == pathToNeighbor + ExtendRow(src, nb, Range(pathToSrc, src), forward)
  {
    var range := Range(pathToSrc, src);
    r := pathToNeighbor;
    for i := 0 to |range|
      invariant r == pathToNeighbor + ExtendRow(src, nb, range, forward)[..i]
    {
      var step := StepOut(src, nb.etype, nb.rank);
      var path := range[i];
      if forward {
        path := path + [step];
      } else {
        path := [step] + path;
      }
      assert (nb.dst, path) == ExtendRow(src, nb, range, forward)[i];
      r := r + [(nb.dst, path)];
    }
  }

  class FindPathExecutor {
    ghost const q: Query
    const recordTo: nat
    const shortest: bool
    var steps: nat
    var currentStep: nat
    var fromVids: seq<VertexID>
    var toVids: seq<VertexID>
    var visitedFrom: set<VertexID>
    var visitedTo: set<VertexID>
    var targetNotFound: set<VertexID>
    var pathFrom: Multimap<VertexID, Path>
    var pathTo: Multimap<VertexID, Path>
    var finalPath: Multimap<VertexID, Path>

    /** In shortest mode: one length per target, and the open targets are those without a path. */
    ghost predicate FoundOk()
      reads this
    {
      shortest ==>
        Uniform(finalPath) &&
        forall t :: t in targetNotFound <==> t in q.to && !HasTarget(finalPath, t)
    }

    /** Lines 317-332 of FindPathExecutor.cpp: offer a path found by the odd join. */
    method RecordOdd(target: VertexID, path: Path)
      requires forall g :: g in finalPath ==> |g.1| <= |path|
      requires FoundOk() && target in q.to
      modifies this`finalPath, this`targetNotFound
      ensures finalPath == old(finalPath) +
        if shortest && HasShorter(old(finalPath), (target, path)) then [] else [(target, path)]
      ensures FoundOk()
    {
      if shortest {
        targetNotFound := targetNotFound - {target};
        if exists f :: f in finalPath && f.0 == target {
          // find() may return any entry of the key
          var pathFound :| pathFound in finalPath && pathFound.0 == target;
          if |pathFound.1| < |path| {
            return;
          }
        }
      }
      finalPath := finalPath + [(target, path)];
    }

    /** Lines 368-383 of FindPathExecutor.cpp: offer a path found by the even join. */
    method RecordEven(target: VertexID, path: Path)
      requires forall g :: g in finalPath ==> |g.1| <= |path|
      requires FoundOk() && target in q.to
      modifies this`finalPath, this`targetNotFound
      ensures finalPath == old(finalPath) +
        if shortest && HasShorter(old(finalPath), (target, path)) then [] else [(target, path)]
      ensures FoundOk()
    {
      if shortest {
        if exists f :: f in finalPath && f.0 == target {
          var pathFound :| pathFound in finalPath && pathFound.0 == target;
          if |pathFound.1| < |path| {
            return;
          }
        }
        targetNotFound := targetNotFound - {target};
      }
      finalPath := finalPath + [(target, path)];
    }

    ghost function Grown(k: nat): Halves
      reads this
    {
      Halves(pathFrom, pathTo, k)
    }

    /** Lines 297-333 of FindPathExecutor.cpp: join one forward half path with the backward ones of dst. `final` and
        `done` name the answers of earlier lengths and this round's joins so far. */
    method MeetOddRow(src: VertexID, nb: Neighbor, pathF: Path, rangeT: seq<Path>,
                      ghost final: seq<Entry>, ghost done: seq<Entry>, ghost k: nat)
      requires |pathF| == k && HalfSize(rangeT, k) && Aimed(q, nb.dst, rangeT)
      requires AtMost(final, 2 * k + 2) && Sized(done, 2 * k + 2) && 2 * k <= recordTo
      requires finalPath == Offer(shortest, final, done) && FoundOk()
      modifies this`finalPath, this`targetNotFound
      ensures finalPath == Offer(shortest, final, done + JoinRow(Across(src, nb), pathF, rangeT, k)) && FoundOk()
    {
      ghost var row := JoinRow(Across(src, nb), pathF, rangeT, k);
      assert done + row[..0] == done;
      for j := 0 to |rangeT|
        invariant finalPath == Offer(shortest, final, done + row[..j]) && FoundOk()
      {
        if |rangeT[j]| + |pathF| > recordTo {
          continue;
        }
        var c := Join(Across(src, nb), pathF, rangeT[j]);
        JoinNext(shortest, q, Across(src, nb), pathF, rangeT, k, final, done, j);
        RecordOdd(c.0, c.1);
      }
      assert row[..|rangeT|] == row;
    }

    /** Lines 292-335 of FindPathExecutor.cpp. */
    method MeetOddPath(src: VertexID, nb: Neighbor,
                       ghost final: seq<Entry>, ghost done: seq<Entry>, ghost k: nat)
      requires Grown(k).Valid() && forall c :: c in pathTo ==> ToPath(q, c.0, c.1)
      requires AtMost(final, 2 * k + 2) && Sized(done, 2 * k + 2) && 2 * k <= recordTo
      requires finalPath == Offer(shortest, final, done) && FoundOk()
      modifies this`finalPath, this`targetNotFound
      ensures finalPath == Offer(shortest, final, done + JoinsAt(Grown(k), Across(src, nb))) && FoundOk()
    {
      hide Offer, AtMost, Sized, Range, ToPath;
      var rangeF := Range(pathFrom, src);
      ghost var T := Range(pathTo, nb.dst);
      ghost var jt := Across(src, nb);
      RangeHalf(pathFrom, src, k);
      RangeHalf(pathTo, nb.dst, k);
      RangeAimed(q, pathTo, nb.dst);
      assert done + Joins(jt, rangeF[..0], T, k) == done;
      for i := 0 to |rangeF|
        invariant finalPath == Offer(shortest, final, done + Joins(jt, rangeF[..i], T, k)) && FoundOk()
      {
        var rangeT := Range(pathTo, nb.dst);
        JoinsNext(jt, rangeF, T, k, i, done);
        MeetOddRow(src, nb, rangeF[i], rangeT, final, done + Joins(jt, rangeF[..i], T, k), k);
      }
      assert rangeF[..|rangeF|] == rangeF;
    }

    /** Lines 342-384 of FindPathExecutor.cpp: join one forward half path with the backward ones at the
        same vertex. */
    method MeetEvenRow(v: VertexID, pathF: Path, rangeT: seq<Path>,
                       ghost final: seq<Entry>, ghost done: seq<Entry>, ghost k: nat)
      requires k > 0 && |pathF| == k && HalfSize(rangeT, k) && Aimed(q, v, rangeT)
      requires AtMost(final, 2 * k + 1) && Sized(done, 2 * k + 1)
      requires finalPath == Offered(2 * k <= recordTo, shortest, final, done) && FoundOk()
      modifies this`finalPath, this`targetNotFound
      ensures finalPath == Offered(2 * k <= recordTo, shortest, final, done + JoinRow(At(v), pathF, rangeT, k))
      ensures FoundOk()
    {
      ghost var row := JoinRow(At(v), pathF, rangeT, k);
      assert done + row[..0] == done;
      for j := 0 to |rangeT|
        invariant finalPath == Offered(2 * k <= recordTo, shortest, final, done + row[..j]) && FoundOk()
      {
        if |rangeT[j]| + |pathF| > recordTo {
          continue;
        }
        var c := Join(At(v), pathF, rangeT[j]);
        JoinNext(shortest, q, At(v), pathF, rangeT, k, final, done, j);
        RecordEven(c.0, c.1);
      }
      assert row[..|rangeT|] == row;
    }

    /** Lines 337-386 of FindPathExecutor.cpp. */
    method MeetEvenPath(v: VertexID, ghost final: seq<Entry>, ghost done: seq<Entry>, ghost k: nat)
      requires Grown(k).Valid() && k > 0 && forall c :: c in pathTo ==> ToPath(q, c.0, c.1)
      requires AtMost(final, 2 * k + 1) && Sized(done, 2 * k + 1)
      requires finalPath == Offered(2 * k <= recordTo, shortest, final, done) && FoundOk()
      modifies this`finalPath, this`targetNotFound
      ensures finalPath == Offered(2 * k <= recordTo, shortest, final, done + JoinsAt(Grown(k), At(v)))
      ensures FoundOk()
    {
      var rangeF, rangeT := Range(pathFrom, v), Range(pathTo, v);
      ghost var jt := At(v);
      RangeHalf(pathFrom, v, k);
      RangeHalf(pathTo, v, k);
      RangeAimed(q, pathTo, v);
      assert done + Joins(jt, rangeF[..0], rangeT, k) == done;
      for i := 0 to |rangeF|
        invariant finalPath ==
          Offered(2 * k <= recordTo, shortest, final, done + Joins(jt, rangeF[..i], rangeT, k))
        invariant FoundOk()
      {
        JoinsNext(jt, rangeF, rangeT, k, i, done);
        MeetEvenRow(v, rangeF[i], rangeT, final, done + Joins(jt, rangeF[..i], rangeT, k), k);
      }
      assert rangeF[..|rangeF|] == rangeF;
    }

    ghost predicate Configured() {
      q.Valid() && q.bound == recordTo && q.shortest == shortest
    }

    /** What the forward sweep relies on. */
    ghost predicate CanSweep(final: seq<Entry>, k: nat)
      reads this
    {
      Grown(k).Valid() && (forall c :: c in pathTo ==> ToPath(q, c.0, c.1)) &&
      visitedTo == Keys(pathTo) && 2 * k <= recordTo && AtMost(final, 2 * k + 2)
    }

    /** What the forward sweep keeps: `es` are the edges visited so far. */
    ghost predicate Swept(pathF: Multimap<VertexID, Path>, final: seq<Entry>, es: seq<Edge>, k: nat)
      requires CanSweep(final, k)
      reads this
    {
      pathF == AllExtensions(pathFrom, es, true) && visitedFrom == Dsts(es) &&
      finalPath == Offer(shortest, final, OddJoins(Grown(k), es)) && FoundOk()
    }

    /** Lines 231-235 of FindPathExecutor.cpp: the odd joins across one edge, if its far end was visited. */
    method MeetAcross(src: VertexID, nb: Neighbor, ghost final: seq<Entry>, ghost es: seq<Edge>, ghost k: nat)
      requires CanSweep(final, k)
      requires finalPath == Offer(shortest, final, OddJoins(Grown(k), es)) && FoundOk()
      modifies this`finalPath, this`targetNotFound
      ensures finalPath == Offer(shortest, final, OddJoins(Grown(k), es + [NeighborEdge(src, nb)])) && FoundOk()
    {
      OddJoinsSnoc(Grown(k), es, NeighborEdge(src, nb));
      if nb.dst in visitedTo {
        MeetOddPath(src, nb, final, OddJoins(Grown(k), es), k);
      } else {
        NoJoinsAt(Grown(k), Across(src, nb));
        assert OddJoins(Grown(k), es) + [] == OddJoins(Grown(k), es);
      }
    }

    /** Lines 228-239 of FindPathExecutor.cpp: one neighbour of one frontier of the forward side. */
    method VisitFrom(src: VertexID, nb: Neighbor, pathF: Multimap<VertexID, Path>,
                     ghost final: seq<Entry>, ghost es: seq<Edge>, ghost k: nat)
      returns (r: Multimap<VertexID, Path>)
      requires CanSweep(final, k) && Swept(pathF, final, es, k)
      modifies this`finalPath, this`targetNotFound, this`visitedFrom
      ensures CanSweep(final, k) && Swept(r, final, es + [NeighborEdge(src, nb)], k)
    {
      MeetAcross(src, nb, final, es, k);
      r := UpdatePath(src, pathFrom, nb, pathF, true);
      AllExtensionsSnoc(pathFrom, es, NeighborEdge(src, nb), true);
      visitedFrom := visitedFrom + {nb.dst};
      DstsSnoc(es, NeighborEdge(src, nb));
    }

    /** Lines 227-240 of FindPathExecutor.cpp. */
    method VisitFrontier(src: VertexID, neighbors: seq<Neighbor>, pathF: Multimap<VertexID, Path>,
                         ghost final: seq<Entry>, ghost es: seq<Edge>, ghost k: nat)
      returns (r: Multimap<VertexID, Path>)
      requires CanSweep(final, k) && Swept(pathF, final, es, k)
      modifies this`finalPath, this`targetNotFound, this`visitedFrom
      ensures CanSweep(final, k) && Swept(r, final, es + NeighborEdges(src, neighbors), k)
    {
      r := pathF;
      ghost var row := NeighborEdges(src, neighbors);
      hide CanSweep, Swept;
      assert es + row[..0] == es;
      for j := 0 to |neighbors|
        invariant CanSweep(final, k) && Swept(r, final, es + row[..j], k)
      {
        r := VisitFrom(src, neighbors[j], r, final, es + row[..j], k);
        assert es + row[..j] + [row[j]] == es + row[..j + 1];
      }
      assert row[..|neighbors|] == row;
    }

    /** Lines 220-241 of FindPathExecutor.cpp. */
    method SweepFrom(fs: Frontiers, ghost final: seq<Entry>, ghost k: nat) returns (pathF: Multimap<VertexID, Path>)
      requires CanSweep(final, k) && finalPath == final && FoundOk()
      modifies this`finalPath, this`targetNotFound, this`visitedFrom
      ensures CanSweep(final, k) && Swept(pathF, final, FrontierEdges(fs), k)
    {
      visitedFrom := {};
      pathF := [];
      for i := 0 to |fs|
        invariant CanSweep(final, k) && Swept(pathF, final, FrontierEdges(fs[..i]), k)
      {
        pathF := VisitFrontier(fs[i].0, fs[i].1, pathF, final, FrontierEdges(fs[..i]), k);
        assert fs[..i + 1][..i] == fs[..i];
      }
      assert fs[..|fs|] == fs;
    }

    lemma ReadyToSweep(k: nat)
      requires Grown(k).Exact(q) && visitedTo == Keys(pathTo) && 2 * k <= recordTo && FinalOk(q, finalPath, 2 * k)
      ensures CanSweep(finalPath, k)
    {
      FinalAtMost(q, finalPath, 2 * k);
    }

    /** Lines 220-246 of FindPathExecutor.cpp: meet at odd lengths while growing the forward side. */
    method ExpandFrom(fs: Frontiers, ghost k: nat)
      requires Configured() && Grown(k).Exact(q) && visitedTo == Keys(pathTo)
      requires Complete(q, fs, fromVids, false) && forall v :: v in fromVids <==> v in Keys(pathFrom)
      requires 2 * k + 1 <= recordTo
      requires FinalOk(q, finalPath, 2 * k) && FoundOk()
      modifies this`finalPath, this`targetNotFound, this`visitedFrom, this`pathFrom, this`fromVids
      ensures visitedFrom == Keys(pathFrom) && forall v :: v in fromVids <==> v in visitedFrom
      ensures FromExact(q, pathFrom, k + 1)
      ensures FinalOk(q, finalPath, 2 * k + 1) && FoundOk()
    {
      ghost var final := finalPath;
      ReadyToSweep(k);
      OddRound(q, Grown(k), FrontierEdges(fs), final);
      hide CanSweep, FinalOk, FromExact, AllExtensions, Offer, OddJoins, FoundOk;
      var pathF := SweepFrom(fs, final, k);
      pathFrom := pathF;
      fromVids := CopyOut(visitedFrom);
    }

    /** What the backward sweep keeps. */
    ghost predicate SweptTo(pathT: Multimap<VertexID, Path>, es: seq<Edge>)
      reads this
    {
      pathT == AllExtensions(pathTo, es, false) && visitedTo == Dsts(es)
    }

    /** Lines 252-255 of FindPathExecutor.cpp. */
    method VisitTo(src: VertexID, nb: Neighbor, pathT: Multimap<VertexID, Path>, ghost es: seq<Edge>)
      returns (r: Multimap<VertexID, Path>)
      requires SweptTo(pathT, es)
      modifies this`visitedTo
      ensures SweptTo(r, es + [NeighborEdge(src, nb)])
    {
      AllExtensionsSnoc(pathTo, es, NeighborEdge(src, nb), false);
      DstsSnoc(es, NeighborEdge(src, nb));
      r := UpdatePath(src, pathTo, nb, pathT, false);
      visitedTo := visitedTo + {nb.dst};
    }

    /** Lines 248-257 of FindPathExecutor.cpp. */
    method SweepTo(fs: Frontiers) returns (pathT: Multimap<VertexID, Path>)
      modifies this`visitedTo
      ensures SweptTo(pathT, FrontierEdges(fs))
    {
      visitedTo := {};
      pathT := [];
      for i := 0 to |fs|
        invariant SweptTo(pathT, FrontierEdges(fs[..i]))
      {
        var src, neighbors := fs[i].0, fs[i].1;
        ghost var es, row := FrontierEdges(fs[..i]), NeighborEdges(src, neighbors);
        hide SweptTo;
        assert es + row[..0] == es;
        for j := 0 to |neighbors|
          invariant SweptTo(pathT, es + row[..j])
        {
          pathT := VisitTo(src, neighbors[j], pathT, es + row[..j]);
          assert es + row[..j] + [row[j]] == es + row[..j + 1];
        }
        assert row[..|neighbors|] == row;
        assert fs[..i + 1][..i] == fs[..i];
      }
      assert fs[..|fs|] == fs;
    }

    /** Lines 248-262 of FindPathExecutor.cpp: grow the backward side. */
    method ExpandTo(fs: Frontiers, ghost k: nat)
      requires q.Valid() && ToExact(q, pathTo, k)
      requires Complete(q, fs, toVids, true) && forall v :: v in toVids <==> v in Keys(pathTo)
      modifies this`visitedTo, this`pathTo, this`toVids
      ensures visitedTo == Keys(pathTo) && forall v :: v in toVids <==> v in visitedTo
      ensures ToExact(q, pathTo, k + 1)
    {
      GrowTo(q, pathTo, FrontierEdges(fs), k);
      hide ToExact, AllExtensions;
      var pathT := SweepTo(fs);
      pathTo := pathT;
      toVids := CopyOut(visitedTo);
    }

    /** What the even joins keep: `vs` are the vertices met so far. */
    ghost predicate MetEven(vs: seq<VertexID>, final: seq<Entry>, k: nat)
      reads this
    {
      k > 0 && Grown(k).Valid() && (forall c :: c in pathTo ==> ToPath(q, c.0, c.1)) &&
      AtMost(final, 2 * k + 1) && FoundOk() &&
      finalPath == Offered(2 * k <= recordTo, shortest, final, EvenJoins(Grown(k), vs))
    }

    method MeetEvenAt(v: VertexID, ghost vs: seq<VertexID>, ghost final: seq<Entry>, ghost k: nat)
      requires MetEven(vs, final, k)
      modifies this`finalPath, this`targetNotFound
      ensures MetEven(vs + [v], final, k)
    {
      EvenJoinsSnoc(Grown(k), vs, v);
      MeetEvenPath(v, final, EvenJoins(Grown(k), vs), k);
    }

    /** Lines 276-278 of FindPathExecutor.cpp: meet at every vertex both sides have reached, in some order. */
    method MeetEvenAll(intersect: set<VertexID>, ghost final: seq<Entry>, ghost k: nat)
      returns (ghost vs: seq<VertexID>)
      requires MetEven([], final, k)
      modifies this`finalPath, this`targetNotFound
      ensures MetEven(vs, final, k) && Distinct(vs) && forall v :: v in vs <==> v in intersect
    {
      hide MetEven;
      vs := [];
      var rest := intersect;
      while rest != {}
        invariant rest <= intersect && Distinct(vs)
        invariant forall v :: v in vs <==> v in intersect && v !in rest
        invariant MetEven(vs, final, k)
      {
        HasVertex(rest);
        var v :| v in rest;
        MeetEvenAt(v, vs, final, k);
        vs := vs + [v];
        rest := rest - {v};
      }
    }

    lemma ReadyToMeet(k: nat)
      requires k > 0 && Grown(k).Exact(q) && FinalOk(q, finalPath, 2 * k - 1) && FoundOk()
      ensures MetEven([], finalPath, k)
    {
      FinalAtMost(q, finalPath, 2 * k - 1);
    }

    method MeetEven(intersect: set<VertexID>, ghost k: nat)
      requires Configured() && k > 0 && Grown(k).Exact(q)
      requires forall v :: v in intersect <==> v in Keys(pathFrom) && v in Keys(pathTo)
      requires 2 * k - 1 <= recordTo && FinalOk(q, finalPath, 2 * k - 1) && FoundOk()
      modifies this`finalPath, this`targetNotFound
      ensures FinalOk(q, finalPath, if 2 * k <= recordTo then 2 * k else recordTo) && FoundOk()
    {
      ghost var final := finalPath;
      ReadyToMeet(k);
      hide FinalOk, FromExact, ToExact;
      ghost var vs := MeetEvenAll(intersect, final, k);
      EvenRound(q, Grown(k), vs, final);
    }

    lemma NothingOpen(len: nat)
      requires Configured() && shortest && FinalOk(q, finalPath, len) && len <= recordTo
      requires FoundOk() && targetNotFound == {}
      ensures FinalOk(q, finalPath, recordTo)
    {
      forall t | t in q.to
        ensures exists f :: f in finalPath && f.0 == t
      {
        assert t !in targetNotFound;
        assert HasTarget(finalPath, t);
      }
      AllFound(q, finalPath, len, recordTo);
    }

    /** Between rounds: half paths of k edges on both sides, answers of up to 2k edges. */
    ghost predicate RoundStart(k: nat)
      reads this
    {
      Configured() && Grown(k).Exact(q) &&
      visitedFrom == Keys(pathFrom) && (forall v :: v in fromVids <==> v in visitedFrom) &&
      visitedTo == Keys(pathTo) && (forall v :: v in toVids <==> v in visitedTo) &&
      FinalOk(q, finalPath, 2 * k) && FoundOk() &&
      steps == recordTo / 2 + recordTo % 2 && currentStep == k + 1 <= steps
    }

    /** Lines 264-279 of FindPathExecutor.cpp: the even half of a round. */
    method JoinEven(ghost k: nat) returns (finished: bool)
      requires Configured() && k > 0 && Grown(k).Exact(q)
      requires (forall v :: v in fromVids <==> v in Keys(pathFrom)) && (forall v :: v in toVids <==> v in Keys(pathTo))
      requires 2 * k - 1 <= recordTo && FinalOk(q, finalPath, 2 * k - 1) && FoundOk()
      modifies this`finalPath, this`targetNotFound
      ensures FoundOk()
      ensures FinalOk(q, finalPath, if finished || 2 * k > recordTo then recordTo else 2 * k)
    {
      var intersect := set v | v in fromVids && v in toVids;
      assert forall v :: v in fromVids && v in toVids <==> v in intersect;
      finished := false;
      if intersect != {} {
        if shortest && targetNotFound == {} {
          NothingOpen(2 * k - 1);
          finished := true;
          return;
        }
        MeetEven(intersect, k);
      } else if 2 * k <= recordTo {
        NoEvenRound(q, Grown(k), finalPath);
      }
    }

    /** Lines 218-290 of FindPathExecutor.cpp: one round. */
    method FindPath(fromFrontiers: Frontiers, toFrontiers: Frontiers, ghost k: nat) returns (finished: bool)
      requires RoundStart(k)
      requires Complete(q, fromFrontiers, fromVids, false)
      requires Complete(q, toFrontiers, toVids, true)
      modifies this
      ensures finished ==> FinalOk(q, finalPath, recordTo) && FoundOk()
      ensures !finished ==> RoundStart(k + 1)
    {
      ExpandFrom(fromFrontiers, k);
      ExpandTo(toFrontiers, k);
      finished := JoinEven(k + 1);
      if finished {
        return;
      }
      ghost var len := if 2 * (k + 1) > recordTo then recordTo else 2 * (k + 1);
      if currentStep == steps || (shortest && targetNotFound == {}) {
        if currentStep != steps {
          NothingOpen(len);
        }
        finished := true;
      } else {
        currentStep := currentStep + 1;
      }
    }

    /** Lines 155-168 of FindPathExecutor.cpp: the state before the first round. */
    constructor (ghost q: Query, from: seq<VertexID>, to: seq<VertexID>, recordTo: nat, shortest: bool)
      requires q.Valid() && q.bound == recordTo && q.shortest == shortest
      requires Distinct(from) && forall v :: v in from <==> v in q.from
      requires Distinct(to) && forall v :: v in to <==> v in q.to
      ensures this.q == q && this.recordTo == recordTo && this.shortest == shortest
      ensures recordTo >= 1 ==> RoundStart(0)
    {
      this.q, this.recordTo, this.shortest := q, recordTo, shortest;
      steps, currentStep := recordTo / 2 + recordTo % 2, 1;
      fromVids, toVids := from, to;
      visitedFrom, visitedTo, targetNotFound := (set v | v in from), (set v | v in to), (set v | v in to);
      var pf := [];
      for i := 0 to |from|
        invariant pf == Starts(from[..i])
      {
        pf := pf + [(from[i], [])];
      }
      var pt := [];
      for i := 0 to |to|
        invariant pt == Starts(to[..i])
      {
        pt := pt + [(to[i], [])];
      }
      pathFrom, pathTo, finalPath := pf, pt, [];
      new;
      assert from[..|from|] == from && to[..|to|] == to;
      StartsExact(q, from, to);
      NoneYet(q);
    }

    /** execute and getNeighborsAndFindPath: with a step bound of at least one the search
        stops within half the bound, rounded up, and holds exactly the wanted paths.
        `getNeighbors` is the storage: any complete answers, cut up in any way. */
    method Execute(getNeighbors: (nat, seq<VertexID>, bool) -> Frontiers) returns (ghost rounds: nat)
      requires RoundStart(0)
      requires forall r, vids, reversely :: Complete(q, getNeighbors(r, vids, reversely), vids, reversely)
      modifies this
      ensures FinalOk(q, finalPath, recordTo)
      ensures rounds <= recordTo / 2 + recordTo % 2
    {
      rounds := 0;
      while true
        invariant RoundStart(rounds)
        decreases recordTo / 2 + recordTo % 2 - rounds
      {
        // We meet the dead end.
        if fromVids == [] || toVids == [] {
          DeadEndFinal(q, Grown(rounds), finalPath);
          return;
        }
        var fromFrontiers := getNeighbors(currentStep, fromVids, false);
        var toFrontiers := getNeighbors(currentStep, toVids, true);
        var finished := FindPath(fromFrontiers, toFrontiers, rounds);
        rounds := rounds + 1;
        if finished {
          return;
        }
      }
    }
  }

  /** The half paths of no edges. */
  function Starts(vs: seq<VertexID>): (m: Multimap<VertexID, Path>)
    ensures |m| == |vs| && forall i :: 0 <= i < |vs| ==> m[i] == (vs[i], [])
  {
    seq(|vs|, i requires 0 <= i < |vs| => (vs[i], []))
  }

  lemma StartsExact(q: Query, from: seq<VertexID>, to: seq<VertexID>)
    requires Distinct(from) && forall v :: v in from <==> v in q.from
    requires Distinct(to) && forall v :: v in to <==> v in q.to
    ensures Halves(Starts(from), Starts(to), 0).Exact(q)
    ensures forall v :: v in Keys(Starts(from)) <==> v in from
    ensures forall v :: v in Keys(Starts(to)) <==> v in to
  {
    forall v ensures v in from <==> (v, []) in Starts(from) {
      if v in from { var i :| 0 <= i < |from| && from[i] == v; assert Starts(from)[i] == (v, []); }
    }
    forall v ensures v in to <==> (v, []) in Starts(to) {
      if v in to { var i :| 0 <= i < |to| && to[i] == v; assert Starts(to)[i] == (v, []); }
    }
  }

  lemma NoneYet(q: Query)
    ensures FinalOk(q, [], 0)
  {
    forall c | Answer(q, c) ensures |c.1| >= 2 {
      AnswerLength(q, c);
    }
  }
}
