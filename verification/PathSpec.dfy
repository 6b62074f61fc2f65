/** What FIND PATH must answer: walks of the stored graph, and the spliced form
    in which the two half-walks of the search are kept together. */
module PathSpec {
  import opened Graph
  import opened Multimaps

  datatype StepOut = StepOut(id: VertexID, etype: EdgeType, rank: Ranking)
  type Path = seq<StepOut>
  /** One entry of the path multimaps: a vertex and a path. */
  type Entry = (VertexID, Path)

  datatype Query = Query(
    store: set<Edge>, over: set<EdgeType>, from: set<VertexID>, to: set<VertexID>,
    bound: nat, shortest: bool)
  {
    /** Edge types are positive and the store is closed under mirroring. */
    ghost predicate Valid() {
      Mirrored(store) && forall t :: t in over ==> t > 0
    }
  }

  ghost predicate HasEdge(q: Query, e: Edge) {
    e in q.store && e.etype in q.over
  }

  // ----- the reference: walks -----

  ghost predicate EdgesOver(q: Query, w: seq<Edge>) {
    forall i :: 0 <= i < |w| ==> HasEdge(q, w[i])
  }

  /** A walk of at least one edge from a source to a target. */
  ghost predicate Walk(q: Query, w: seq<Edge>) {
    |w| > 0 && EdgesOver(q, w) && Connected(w) && w[0].src in q.from && Target(w) in q.to
  }

  function Target(w: seq<Edge>): VertexID
    requires |w| > 0
  {
    w[|w| - 1].dst
  }

  function FwdStep(e: Edge): StepOut {
    StepOut(e.src, e.etype, e.rank)
  }

  function BwdStep(e: Edge): StepOut {
    StepOut(e.dst, -e.etype, e.rank)
  }

  function Fwd(w: seq<Edge>): (p: Path)
    ensures |p| == |w| && forall i :: 0 <= i < |w| ==> p[i] == FwdStep(w[i])
  {
    seq(|w|, i requires 0 <= i < |w| => FwdStep(w[i]))
  }

  function Bwd(w: seq<Edge>): (p: Path)
    ensures |p| == |w| && forall i :: 0 <= i < |w| ==> p[i] == BwdStep(w[i])
  {
    seq(|w|, i requires 0 <= i < |w| => BwdStep(w[i]))
  }

  /** The stored form of a walk: the first half as forward steps, the middle edge
      once forward and once backward, the second half as backward steps. */
  function Splice(w: seq<Edge>): (p: Path)
    requires |w| > 0
    ensures |p| == |w| + 1
  {
    Fwd(w[..|w| / 2 + 1]) + Bwd(w[|w| / 2..])
  }

  ghost predicate Answer(q: Query, c: Entry) {
    exists w :: Walk(q, w) && c == (Target(w), Splice(w))
  }

  /** No answer for the same target is shorter. */
  ghost predicate Minimal(q: Query, c: Entry) {
    forall d :: Answer(q, d) && d.0 == c.0 ==> |c.1| <= |d.1|
  }

  /** What the search must hold once walks of up to `len` edges are dealt with. */
  ghost predicate Wanted(q: Query, c: Entry, len: nat) {
    |c.1| <= len + 1 && Answer(q, c) && (q.shortest ==> Minimal(q, c))
  }

  ghost predicate FinalOk(q: Query, final: seq<Entry>, len: nat) {
    Distinct(final) && forall c :: c in final <==> Wanted(q, c, len)
  }

  // ----- half paths -----

  /** A forward half path ending at v: one step per edge, keyed by its source. */
  ghost predicate FromPath(q: Query, v: VertexID, p: Path)
    decreases |p|
  {
    if p == [] then v in q.from
    else
      var l := p[|p| - 1];
      HasEdge(q, Edge(l.id, l.etype, l.rank, v)) && FromPath(q, l.id, p[..|p| - 1])
  }

  /** A backward half path starting at v: one step per edge, keyed by its destination. */
  ghost predicate ToPath(q: Query, v: VertexID, p: Path)
    decreases |p|
  {
    if p == [] then v in q.to
    else HasEdge(q, Edge(v, -p[0].etype, p[0].rank, p[0].id)) && ToPath(q, p[0].id, p[1..])
  }

  lemma {:induction false} ToPathTarget(q: Query, v: VertexID, p: Path)
    requires ToPath(q, v, p)
    ensures (if p == [] then v else p[|p| - 1].id) in q.to
    decreases |p|
  {
    if p != [] {
      ToPathTarget(q, p[0].id, p[1..]);
    }
  }

  /** A spliced path, recognised from its own entries. */
  ghost predicate Spliced(q: Query, c: Entry) {
    var p := c.1;
    |p| >= 2 &&
    var h := (|p| - 1) / 2;
    FromPath(q, p[h].id, p[..h]) &&
    ToPath(q, p[h].id, p[h + 1..]) &&
    p[h].etype == -p[h + 1].etype && p[h].rank == p[h + 1].rank &&
    c.0 == p[|p| - 1].id
  }

  ghost predicate FromWalk(q: Query, v: VertexID, w: seq<Edge>) {
    EdgesOver(q, w) && Connected(w) &&
    (if w == [] then v in q.from else w[0].src in q.from && Target(w) == v)
  }

  ghost predicate ToWalk(q: Query, v: VertexID, w: seq<Edge>) {
    EdgesOver(q, w) && Connected(w) &&
    (if w == [] then v in q.to else w[0].src == v && Target(w) in q.to)
  }

  lemma {:induction false} FromPathIsWalk(q: Query, v: VertexID, p: Path) returns (w: seq<Edge>)
    requires FromPath(q, v, p)
    ensures FromWalk(q, v, w) && Fwd(w) == p
    decreases |p|
  {
    if p == [] {
      w := [];
    } else {
      var l := p[|p| - 1];
      var front := FromPathIsWalk(q, l.id, p[..|p| - 1]);
      var e := Edge(l.id, l.etype, l.rank, v);
      w := front + [e];
      assert Fwd(w) == Fwd(front) + [FwdStep(e)];
    }
  }

  lemma {:induction false} WalkIsFromPath(q: Query, v: VertexID, w: seq<Edge>)
    requires FromWalk(q, v, w)
    ensures FromPath(q, v, Fwd(w))
    decreases |w|
  {
    if w != [] {
      var e := w[|w| - 1];
      var front := w[..|w| - 1];
      WalkIsFromPath(q, e.src, front);
      assert Fwd(w)[..|w| - 1] == Fwd(front);
      assert Edge(e.src, e.etype, e.rank, v) == e;
    }
  }

  lemma {:induction false} ToPathIsWalk(q: Query, v: VertexID, p: Path) returns (w: seq<Edge>)
    requires ToPath(q, v, p)
    ensures ToWalk(q, v, w) && Bwd(w) == p
    decreases |p|
  {
    if p == [] {
      w := [];
    } else {
      var back := ToPathIsWalk(q, p[0].id, p[1..]);
      var e := Edge(v, -p[0].etype, p[0].rank, p[0].id);
      w := [e] + back;
      assert Bwd(w) == [BwdStep(e)] + Bwd(back);
    }
  }

  lemma {:induction false} WalkIsToPath(q: Query, v: VertexID, w: seq<Edge>)
    requires ToWalk(q, v, w)
    ensures ToPath(q, v, Bwd(w))
    decreases |w|
  {
    if w != [] {
      var e := w[0];
      WalkIsToPath(q, e.dst, w[1..]);
      assert Bwd(w)[1..] == Bwd(w[1..]);
      assert Edge(v, e.etype, e.rank, e.dst) == e;
    }
  }

  /** The entries the search builds are exactly the spliced forms of walks. */
  lemma AnswerIffSpliced(q: Query, c: Entry)
    ensures Answer(q, c) <==> Spliced(q, c)
  {
    if Answer(q, c) {
      var w :| Walk(q, w) && c == (Target(w), Splice(w));
      WalkSplices(q, w);
    }
    if Spliced(q, c) {
      var w := SplicedIsWalk(q, c);
    }
  }

  lemma WalkSplices(q: Query, w: seq<Edge>)
    requires Walk(q, w)
    ensures Spliced(q, (Target(w), Splice(w)))
  {
    var h := |w| / 2;
    var p := Splice(w);
    assert p[..h] == Fwd(w[..h]);
    assert p[h + 1..] == Bwd(w[h..]);
    assert p[h] == FwdStep(w[h]);
    WalkIsFromPath(q, w[h].src, w[..h]);
    WalkIsToPath(q, w[h].src, w[h..]);
  }

  lemma SplicedIsWalk(q: Query, c: Entry) returns (w: seq<Edge>)
    requires Spliced(q, c)
    ensures Walk(q, w) && c == (Target(w), Splice(w))
  {
    var p := c.1;
    var h := (|p| - 1) / 2;
    w := HalvesAreWalk(q, p[h], p[..h], p[h + 1..]);
    assert p == p[..h] + [p[h]] + p[h + 1..];
  }

  lemma HalvesAreWalk(q: Query, a: StepOut, f: Path, t: Path) returns (w: seq<Edge>)
    requires FromPath(q, a.id, f) && ToPath(q, a.id, t)
    requires |t| > 0 && |f| == (|f| + |t|) / 2 && a == StepOut(a.id, -t[0].etype, t[0].rank)
    ensures Walk(q, w) && Splice(w) == f + [a] + t && Target(w) == t[|t| - 1].id
  {
    var front := FromPathIsWalk(q, a.id, f);
    var back := ToPathIsWalk(q, a.id, t);
    w := front + back;
    WalkOfHalves(q, a.id, front, back);
    assert BwdStep(back[0]) == t[0];
    assert FwdStep(back[0]) == a;
  }

  lemma WalkOfHalves(q: Query, v: VertexID, front: seq<Edge>, back: seq<Edge>)
    requires FromWalk(q, v, front) && ToWalk(q, v, back)
    requires |back| > 0 && |front| == (|front| + |back|) / 2
    ensures Walk(q, front + back) && Target(front + back) == Target(back)
    ensures Splice(front + back) == Fwd(front) + [FwdStep(back[0])] + Bwd(back)
  {
    var w, h := front + back, |front|;
    assert w[..h + 1] == front + [back[0]];
    assert w[h..] == back;
    assert Fwd(w[..h + 1]) == Fwd(front) + [FwdStep(back[0])];
  }

  /** A walk is determined by its entry, so answers are counted once per walk. */
  lemma SpliceInjective(v: seq<Edge>, w: seq<Edge>)
    requires |v| > 0 && |w| > 0 && Connected(v) && Connected(w)
    requires Splice(v) == Splice(w) && Target(v) == Target(w)
    ensures v == w
  {
    var p := Splice(v);
    var h := |v| / 2;
    assert |v| == |w|;
    forall i | 0 <= i < |v|
      ensures v[i] == w[i]
    {
      if i < h {
        assert p[i] == FwdStep(v[i]) == FwdStep(w[i]);
        assert p[i + 1] == FwdStep(v[i + 1]) == FwdStep(w[i + 1]);
      } else {
        assert p[i + 1] == BwdStep(v[i]) == BwdStep(w[i]);
        if i == h {
          assert p[i] == FwdStep(v[i]) == FwdStep(w[i]);
        } else {
          assert p[i] == BwdStep(v[i - 1]) == BwdStep(w[i - 1]);
        }
      }
    }
  }

  // ----- bookkeeping of the answers by length -----

  ghost predicate HasShorter(final: seq<Entry>, c: Entry) {
    exists f :: f in final && f.0 == c.0 && |f.1| < |c.1|
  }

  lemma MinimalExists(q: Query, c: Entry) returns (d: Entry)
    requires Answer(q, c)
    ensures Answer(q, d) && d.0 == c.0 && |d.1| <= |c.1| && Minimal(q, d)
    decreases |c.1|
  {
    if Minimal(q, c) {
      d := c;
    } else {
      var e :| Answer(q, e) && e.0 == c.0 && |e.1| < |c.1|;
      d := MinimalExists(q, e);
    }
  }

  lemma AnswerLength(q: Query, c: Entry)
    requires Answer(q, c)
    ensures |c.1| >= 2 && c.0 in q.to && c.0 == c.1[|c.1| - 1].id
  {
    AnswerIffSpliced(q, c);
  }

  lemma ShorterIffNotMinimal(q: Query, final: seq<Entry>, c: Entry, len: nat)
    requires q.shortest && FinalOk(q, final, len) && Answer(q, c) && |c.1| == len + 2
    ensures HasShorter(final, c) <==> !Minimal(q, c)
  {
    if HasShorter(final, c) {
      var f :| f in final && f.0 == c.0 && |f.1| < |c.1|;
    }
    if !Minimal(q, c) {
      var d :| Answer(q, d) && d.0 == c.0 && |d.1| < |c.1|;
      var m := MinimalExists(q, d);
      assert Wanted(q, m, len);
    }
  }

  /** The answers one join adds. */
  ghost predicate Added(q: Query, final: seq<Entry>, c: Entry, len: nat) {
    |c.1| == len + 1 && Answer(q, c) && (q.shortest ==> !HasShorter(final, c))
  }

  /** Offering every join of the next length extends the final answers by that length. */
  lemma JoinExtends(q: Query, final: seq<Entry>, extended: seq<Entry>, len: nat)
    requires FinalOk(q, final, len) && Distinct(extended)
    requires forall c :: c in extended <==> c in final || Added(q, final, c, len + 1)
    ensures FinalOk(q, extended, len + 1)
  {
    forall c
      ensures c in extended <==> Wanted(q, c, len + 1)
    {
      if Answer(q, c) && |c.1| == len + 2 && q.shortest {
        ShorterIffNotMinimal(q, final, c, len);
      }
    }
  }

  // ----- why stopping early loses nothing -----

  lemma {:induction false} FromPrefix(q: Query, v: VertexID, p: Path, k: nat) returns (u: VertexID)
    requires FromPath(q, v, p) && k <= |p|
    ensures FromPath(q, u, p[..k])
    decreases |p|
  {
    if k == |p| {
      assert p[..k] == p;
      u := v;
    } else {
      u := FromPrefix(q, p[|p| - 1].id, p[..|p| - 1], k);
      assert p[..|p| - 1][..k] == p[..k];
    }
  }

  lemma {:induction false} ToSuffix(q: Query, v: VertexID, p: Path, k: nat) returns (u: VertexID)
    requires ToPath(q, v, p) && k <= |p|
    ensures ToPath(q, u, p[|p| - k..])
    decreases |p|
  {
    if k == |p| {
      assert p[|p| - k..] == p;
      u := v;
    } else {
      u := ToSuffix(q, p[0].id, p[1..], k);
      assert p[1..][|p| - 1 - k..] == p[|p| - k..];
    }
  }

  ghost predicate NoFromPath(q: Query, k: nat) {
    forall v, p :: FromPath(q, v, p) ==> |p| != k
  }

  ghost predicate NoToPath(q: Query, k: nat) {
    forall v, p :: ToPath(q, v, p) ==> |p| != k
  }

  /** With no half path of k edges on one side there is no walk of more than 2k edges. */
  lemma DeadEnd(q: Query, c: Entry, k: nat)
    requires Answer(q, c)
    requires NoFromPath(q, k) || NoToPath(q, k)
    ensures |c.1| <= 2 * k + 1
  {
    AnswerIffSpliced(q, c);
    if |c.1| > 2 * k + 1 {
      LongHalves(q, c, k);
    }
  }

  lemma LongHalves(q: Query, c: Entry, k: nat)
    requires Spliced(q, c) && |c.1| > 2 * k + 1
    ensures !NoFromPath(q, k) && !NoToPath(q, k)
  {
    var p := c.1;
    var h := (|p| - 1) / 2;
    var front, back := p[..h], p[h + 1..];
    var u := FromPrefix(q, p[h].id, front, k);
    assert FromPath(q, u, front[..k]) && |front[..k]| == k;
    var t := ToSuffix(q, p[h].id, back, k);
    assert ToPath(q, t, back[|back| - k..]) && |back[|back| - k..]| == k;
  }

  /** When every target has an answer, longer walks are not wanted in shortest mode. */
  lemma AllFound(q: Query, final: seq<Entry>, len: nat, more: nat)
    requires q.shortest && FinalOk(q, final, len) && len <= more
    requires forall t :: t in q.to ==> exists f :: f in final && f.0 == t
    ensures FinalOk(q, final, more)
  {
    forall c
      ensures c in final <==> Wanted(q, c, more)
    {
      if Wanted(q, c, more) {
        AnswerLength(q, c);
        var f :| f in final && f.0 == c.0;
        assert Wanted(q, f, len);
      }
    }
  }

  lemma NothingLonger(q: Query, final: seq<Entry>, len: nat, more: nat)
    requires FinalOk(q, final, len) && len <= more
    requires forall c :: Answer(q, c) ==> |c.1| <= len + 1
    ensures FinalOk(q, final, more)
  {
  }
}
