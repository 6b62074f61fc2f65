/** The joins and extensions one round of FIND PATH makes, as sequences in the
    order of its loops, and what they are in terms of walks. */
module PathJoins {
  import opened Graph
  import opened Multimaps
  import opened PathSpec

  datatype Neighbor = Neighbor(dst: VertexID, etype: EdgeType, rank: Ranking)
  type Frontiers = seq<(VertexID, seq<Neighbor>)>

  function NeighborEdge(src: VertexID, nb: Neighbor): Edge {
    Edge(src, nb.etype, nb.rank, nb.dst)
  }

  function NeighborEdges(src: VertexID, ns: seq<Neighbor>): (es: seq<Edge>)
    ensures |es| == |ns| && forall i :: 0 <= i < |ns| ==> es[i] == NeighborEdge(src, ns[i])
  {
    seq(|ns|, i requires 0 <= i < |ns| => NeighborEdge(src, ns[i]))
  }

  function FrontierEdges(fs: Frontiers): seq<Edge> {
    if fs == [] then []
    else FrontierEdges(fs[..|fs| - 1]) + NeighborEdges(fs[|fs| - 1].0, fs[|fs| - 1].1)
  }

  /** A complete storage answer: every stored edge out of the asked vertices over
      the asked types, each once, however it is cut into frontiers. */
  ghost predicate Complete(q: Query, fs: Frontiers, vids: seq<VertexID>, reversely: bool) {
    Distinct(FrontierEdges(fs)) &&
    forall e :: e in FrontierEdges(fs) <==> e in q.store && e.src in vids && Asked(q, e, reversely)
  }

  ghost predicate Asked(q: Query, e: Edge, reversely: bool) {
    if reversely then -e.etype in q.over else e.etype in q.over
  }

  ghost predicate Uniform(final: seq<Entry>) {
    forall f, g :: f in final && g in final && f.0 == g.0 ==> |f.1| == |g.1|
  }

  ghost predicate HasTarget(final: seq<Entry>, t: VertexID) {
    exists f :: f in final && f.0 == t
  }

  /** All entries carry paths of k steps. */
  ghost predicate Sized(m: seq<Entry>, k: nat) {
    forall c :: c in m ==> |c.1| == k
  }

  lemma RangeHalf(m: seq<Entry>, v: VertexID, k: nat)
    requires Sized(m, k)
    ensures HalfSize(Range(m, v), k)
    ensures forall i :: 0 <= i < |Range(m, v)| ==> (v, Range(m, v)[i]) in m
  {
    forall i | 0 <= i < |Range(m, v)|
      ensures (v, Range(m, v)[i]) in m
    {
      assert Range(m, v)[i] in Range(m, v);
    }
  }

  // ----- the joins -----

  /** Where two half paths meet: across an edge (odd) or at a vertex (even). */
  datatype Joint = Across(src: VertexID, nb: Neighbor) | At(v: VertexID)

  function Left(jt: Joint): VertexID {
    match jt case Across(src, _) => src case At(v) => v
  }

  function Right(jt: Joint): VertexID {
    match jt case Across(_, nb) => nb.dst case At(v) => v
  }

  /** The steps put between two half paths. */
  function Joiner(jt: Joint, f: Path, t: Path): (p: Path)
    ensures |p| == match jt case Across(_, _) => 2 case At(_) => if f == [] && t == [] then 0 else 1
  {
    match jt
    case Across(src, nb) => [StepOut(src, nb.etype, nb.rank), StepOut(nb.dst, -nb.etype, nb.rank)]
    case At(v) =>
      if |t| > 0 then [StepOut(v, -t[0].etype, t[0].rank)]
      else if |f| > 0 then [StepOut(v, f[|f| - 1].etype, f[|f| - 1].rank)]
      else []
  }

  function Join(jt: Joint, f: Path, t: Path): (c: Entry)
    requires jt.At? ==> f != [] || t != []
  {
    var path := f + Joiner(jt, f, t) + t;
    (path[|path| - 1].id, path)
  }

  /** The length of a join of two half paths of k steps. */
  function JoinSize(jt: Joint, k: nat): nat {
    match jt case Across(_, _) => 2 * k + 2 case At(_) => 2 * k + 1
  }

  ghost predicate HalfSize(ps: seq<Path>, k: nat) {
    forall i :: 0 <= i < |ps| ==> |ps[i]| == k
  }

  ghost predicate Joinable(jt: Joint, F: seq<Path>, T: seq<Path>, k: nat) {
    (jt.At? ==> k > 0) && HalfSize(F, k) && HalfSize(T, k)
  }

  /** The joins of f with each path of T, in order. */
  ghost function JoinRow(jt: Joint, f: Path, T: seq<Path>, k: nat): (cs: seq<Entry>)
    requires (jt.At? ==> k > 0) && |f| == k && HalfSize(T, k)
    ensures |cs| == |T| && forall j :: 0 <= j < |T| ==> cs[j] == Join(jt, f, T[j])
  {
    seq(|T|, j requires 0 <= j < |T| => Join(jt, f, T[j]))
  }

  /** The joins of each path of F with each path of T, in order. */
  ghost function Joins(jt: Joint, F: seq<Path>, T: seq<Path>, k: nat): seq<Entry>
    requires Joinable(jt, F, T, k)
  {
    if F == [] then []
    else Joins(jt, F[..|F| - 1], T, k) + JoinRow(jt, F[|F| - 1], T, k)
  }

  /** c is a join, told from its own steps. */
  ghost predicate Joined(jt: Joint, c: Entry, F: seq<Path>, T: seq<Path>, k: nat)
    requires jt.At? ==> k > 0
  {
    |c.1| == JoinSize(jt, k) &&
    var f, t := c.1[..k], c.1[|c.1| - k..];
    f in F && t in T && c == Join(jt, f, t)
  }

  lemma JoinParts(jt: Joint, f: Path, t: Path, k: nat)
    requires |f| == k && |t| == k && (jt.At? ==> k > 0)
    ensures var c := Join(jt, f, t);
      |c.1| == JoinSize(jt, k) && c.1[..k] == f && c.1[|c.1| - k..] == t
  {
  }

  lemma JoinRowDistinct(jt: Joint, f: Path, T: seq<Path>, k: nat)
    requires Joinable(jt, [f], T, k) && Distinct(T) && |f| == k
    ensures Distinct(JoinRow(jt, f, T, k))
  {
    var row := JoinRow(jt, f, T, k);
    forall i, j | 0 <= i < j < |row|
      ensures row[i] != row[j]
    {
      JoinParts(jt, f, T[i], k);
      JoinParts(jt, f, T[j], k);
    }
  }

  /** Every backward half path from v ends at a target. */
  ghost predicate Aimed(q: Query, v: VertexID, T: seq<Path>) {
    forall j :: 0 <= j < |T| ==> (if T[j] == [] then v else T[j][|T[j]| - 1].id) in q.to
  }

  lemma RangeAimed(q: Query, m: seq<Entry>, v: VertexID)
    requires forall c :: c in m ==> ToPath(q, c.0, c.1)
    ensures Aimed(q, v, Range(m, v))
  {
    var T: seq<Path> := Range(m, v);
    forall j | 0 <= j < |T|
      ensures (if T[j] == [] then v else T[j][|T[j]| - 1].id) in q.to
    {
      assert T[j] in T;
      ToPathTarget(q, v, T[j]);
    }
  }

  lemma JoinRowSized(jt: Joint, f: Path, T: seq<Path>, k: nat)
    requires (jt.At? ==> k > 0) && HalfSize(T, k) && |f| == k
    ensures Sized(JoinRow(jt, f, T, k), JoinSize(jt, k))
  {
    forall j | 0 <= j < |T| ensures |Join(jt, f, T[j]).1| == JoinSize(jt, k) {
      JoinParts(jt, f, T[j], k);
    }
  }

  lemma {:induction false} JoinsSized(jt: Joint, F: seq<Path>, T: seq<Path>, k: nat)
    requires Joinable(jt, F, T, k)
    ensures Sized(Joins(jt, F, T, k), JoinSize(jt, k))
  {
    if F != [] {
      JoinsSized(jt, F[..|F| - 1], T, k);
      JoinRowSized(jt, F[|F| - 1], T, k);
    }
  }

  lemma JoinIsJoined(jt: Joint, f: Path, t: Path, F: seq<Path>, T: seq<Path>, k: nat)
    requires |f| == k && |t| == k && (jt.At? ==> k > 0) && f in F && t in T
    ensures Joined(jt, Join(jt, f, t), F, T, k)
  {
    JoinParts(jt, f, t, k);
  }

  lemma JoinRowMember(jt: Joint, f: Path, T: seq<Path>, k: nat, c: Entry)
    requires (jt.At? ==> k > 0) && HalfSize(T, k) && |f| == k
    ensures c in JoinRow(jt, f, T, k) <==> Joined(jt, c, [f], T, k)
  {
    hide Join;
    var row := JoinRow(jt, f, T, k);
    if c in row {
      var j :| 0 <= j < |row| && row[j] == c;
      JoinIsJoined(jt, f, T[j], [f], T, k);
    }
    if Joined(jt, c, [f], T, k) {
      var t := c.1[|c.1| - k..];
      var j :| 0 <= j < |T| && T[j] == t;
      assert row[j] == Join(jt, f, t);
    }
  }

  /** The nested join loops produce every join exactly once. */
  lemma {:induction false} JoinsExact(jt: Joint, F: seq<Path>, T: seq<Path>, k: nat)
    requires Joinable(jt, F, T, k) && Distinct(F) && Distinct(T)
    ensures Distinct(Joins(jt, F, T, k))
    ensures forall c :: c in Joins(jt, F, T, k) <==> Joined(jt, c, F, T, k)
  {
    if F != [] {
      var f, rest := F[|F| - 1], F[..|F| - 1];
      assert F == rest + [f];
      JoinsExact(jt, rest, T, k);
      JoinRowDistinct(jt, f, T, k);
      assert f !in rest;
      forall c
        ensures c in JoinRow(jt, f, T, k) <==> Joined(jt, c, [f], T, k)
      {
        JoinRowMember(jt, f, T, k, c);
      }
      DistinctConcat(Joins(jt, rest, T, k), JoinRow(jt, f, T, k));
    }
  }

  /** The answers held after offering joins to those of earlier lengths: in
      shortest mode a join is dropped when its target has a shorter answer. */
  ghost function Offer(shortest: bool, final: seq<Entry>, cs: seq<Entry>): seq<Entry> {
    if cs == [] then final
    else
      var c := cs[|cs| - 1];
      Offer(shortest, final, cs[..|cs| - 1]) + if shortest && HasShorter(final, c) then [] else [c]
  }

  ghost predicate AtMost(m: seq<Entry>, n: nat) {
    forall c :: c in m ==> |c.1| <= n
  }

  lemma {:induction false} OfferExact(shortest: bool, final: seq<Entry>, cs: seq<Entry>, n: nat)
    requires Distinct(final) && Distinct(cs) && Sized(cs, n + 1) && AtMost(final, n)
    ensures Distinct(Offer(shortest, final, cs))
    ensures forall c :: c in Offer(shortest, final, cs) <==>
      c in final || (c in cs && !(shortest && HasShorter(final, c)))
  {
    if cs != [] {
      var c, rest := cs[|cs| - 1], cs[..|cs| - 1];
      assert cs == rest + [c];
      OfferExact(shortest, final, rest, n);
      assert c !in rest && c !in final;
    }
  }

  lemma {:induction false} OfferBound(shortest: bool, final: seq<Entry>, cs: seq<Entry>, n: nat)
    requires Sized(cs, n) && AtMost(final, n)
    ensures AtMost(Offer(shortest, final, cs), n)
    ensures forall c: Entry :: |c.1| <= n ==> (HasShorter(Offer(shortest, final, cs), c) <==> HasShorter(final, c))
  {
    if cs != [] {
      var c, rest := cs[|cs| - 1], cs[..|cs| - 1];
      assert cs == rest + [c];
      OfferBound(shortest, final, rest, n);
      var held, now := Offer(shortest, final, rest), Offer(shortest, final, cs);
      forall d: Entry | |d.1| <= n
        ensures HasShorter(now, d) <==> HasShorter(held, d)
      {
        assert |c.1| == n;
      }
    }
  }

  /** Offering one more join of the same length. */
  lemma OfferNext(shortest: bool, final: seq<Entry>, cs: seq<Entry>, c: Entry)
    requires Sized(cs, |c.1|) && AtMost(final, |c.1|)
    ensures var now := Offer(shortest, final, cs);
      AtMost(now, |c.1|) &&
      Offer(shortest, final, cs + [c]) == now + if shortest && HasShorter(now, c) then [] else [c]
  {
    OfferBound(shortest, final, cs, |c.1|);
    assert (cs + [c])[..|cs|] == cs;
  }

  /** As `Offer`, when the length is within the step bound. */
  ghost function Offered(within: bool, shortest: bool, final: seq<Entry>, cs: seq<Entry>): seq<Entry> {
    if within then Offer(shortest, final, cs) else final
  }

  /** One iteration of the inner join loop. */
  lemma JoinNext(shortest: bool, q: Query, jt: Joint, f: Path, T: seq<Path>, k: nat,
                 final: seq<Entry>, done: seq<Entry>, j: nat)
    requires (jt.At? ==> k > 0) && |f| == k && HalfSize(T, k) && Aimed(q, Right(jt), T) && j < |T|
    requires AtMost(final, JoinSize(jt, k)) && Sized(done, JoinSize(jt, k))
    ensures
      var row := JoinRow(jt, f, T, k);
      var c := Join(jt, f, T[j]);
      var now := Offer(shortest, final, done + row[..j]);
      c.0 in q.to && AtMost(now, |c.1|) &&
      Offer(shortest, final, done + row[..j + 1]) == now + if shortest && HasShorter(now, c) then [] else [c]
  {
    hide Offer, JoinSize;
    var row := JoinRow(jt, f, T, k);
    JoinRowSized(jt, f, T, k);
    assert row[j] in row;
    OfferNext(shortest, final, done + row[..j], row[j]);
    assert done + row[..j + 1] == done + row[..j] + [row[j]];
  }

  /** One iteration of the outer join loop. */
  lemma JoinsNext(jt: Joint, F: seq<Path>, T: seq<Path>, k: nat, i: nat, done: seq<Entry>)
    requires Joinable(jt, F, T, k) && i < |F| && Sized(done, JoinSize(jt, k))
    ensures Sized(done + Joins(jt, F[..i], T, k), JoinSize(jt, k))
    ensures done + Joins(jt, F[..i + 1], T, k) == done + Joins(jt, F[..i], T, k) + JoinRow(jt, F[i], T, k)
  {
    JoinsSized(jt, F[..i], T, k);
    assert F[..i + 1][..i] == F[..i];
  }

  lemma {:induction false} JoinsNothing(jt: Joint, F: seq<Path>, k: nat)
    requires Joinable(jt, F, [], k)
    ensures Joins(jt, F, [], k) == []
  {
    if F != [] {
      JoinsNothing(jt, F[..|F| - 1], k);
    }
  }

  // ----- all joins of one round -----

  /** The half paths of k steps on both sides. */
  datatype Halves = Halves(from: Multimap<VertexID, Path>, to: Multimap<VertexID, Path>, k: nat) {
    ghost predicate Valid() {
      Distinct(from) && Distinct(to) && Sized(from, k) && Sized(to, k)
    }

    ghost predicate Exact(q: Query) {
      FromExact(q, from, k) && ToExact(q, to, k)
    }
  }

  /** All forward half paths of k edges, each once. */
  ghost predicate FromExact(q: Query, m: Multimap<VertexID, Path>, k: nat) {
    Distinct(m) && forall c :: c in m <==> |c.1| == k && FromPath(q, c.0, c.1)
  }

  /** All backward half paths of k edges, each once. */
  ghost predicate ToExact(q: Query, m: Multimap<VertexID, Path>, k: nat) {
    Distinct(m) && forall c :: c in m <==> |c.1| == k && ToPath(q, c.0, c.1)
  }

  ghost function JoinsAt(hs: Halves, jt: Joint): seq<Entry>
    requires hs.Valid() && (jt.At? ==> hs.k > 0)
  {
    RangeHalf(hs.from, Left(jt), hs.k);
    RangeHalf(hs.to, Right(jt), hs.k);
    Joins(jt, Range(hs.from, Left(jt)), Range(hs.to, Right(jt)), hs.k)
  }

  ghost predicate SameKind(joints: seq<Joint>, odd: bool) {
    forall i :: 0 <= i < |joints| ==> joints[i].Across? == odd
  }

  ghost function AllJoins(hs: Halves, joints: seq<Joint>, odd: bool): seq<Entry>
    requires hs.Valid() && SameKind(joints, odd) && (!odd ==> hs.k > 0)
  {
    if joints == [] then []
    else AllJoins(hs, joints[..|joints| - 1], odd) + JoinsAt(hs, joints[|joints| - 1])
  }

  /** The joint a path of the given kind was built at. */
  function JointOf(c: Entry, odd: bool, k: nat): Joint
    requires |c.1| == if odd then 2 * k + 2 else 2 * k + 1
  {
    var a := c.1[k];
    if odd then Across(a.id, Neighbor(c.1[k + 1].id, a.etype, a.rank)) else At(a.id)
  }

  /** c is a join of halves at its own joint. */
  ghost predicate JoinOf(hs: Halves, c: Entry, odd: bool)
    requires !odd ==> hs.k > 0
  {
    |c.1| == (if odd then 2 * hs.k + 2 else 2 * hs.k + 1) &&
    var jt := JointOf(c, odd, hs.k);
    Joined(jt, c, Range(hs.from, Left(jt)), Range(hs.to, Right(jt)), hs.k)
  }

  lemma JoinsAtExact(hs: Halves, jt: Joint)
    requires hs.Valid() && (jt.At? ==> hs.k > 0)
    ensures Distinct(JoinsAt(hs, jt)) && Sized(JoinsAt(hs, jt), JoinSize(jt, hs.k))
    ensures forall c :: c in JoinsAt(hs, jt) <==>
      JoinOf(hs, c, jt.Across?) && JointOf(c, jt.Across?, hs.k) == jt
  {
    var F, T := Range(hs.from, Left(jt)), Range(hs.to, Right(jt));
    RangeHalf(hs.from, Left(jt), hs.k);
    RangeHalf(hs.to, Right(jt), hs.k);
    RangeDistinct(hs.from, Left(jt));
    RangeDistinct(hs.to, Right(jt));
    JoinsExact(jt, F, T, hs.k);
    JoinsSized(jt, F, T, hs.k);
    forall c | Joined(jt, c, F, T, hs.k)
      ensures JointOf(c, jt.Across?, hs.k) == jt
    {
      JoinedJoint(jt, c, F, T, hs.k);
    }
  }

  lemma JoinedJoint(jt: Joint, c: Entry, F: seq<Path>, T: seq<Path>, k: nat)
    requires (jt.At? ==> k > 0) && Joined(jt, c, F, T, k)
    ensures JointOf(c, jt.Across?, k) == jt
  {
  }

  /** A round's joins over distinct joints are exactly the joins at those joints, each once. */
  lemma {:induction false} AllJoinsExact(hs: Halves, joints: seq<Joint>, odd: bool)
    requires hs.Valid() && SameKind(joints, odd) && (!odd ==> hs.k > 0) && Distinct(joints)
    ensures Distinct(AllJoins(hs, joints, odd))
    ensures Sized(AllJoins(hs, joints, odd), if odd then 2 * hs.k + 2 else 2 * hs.k + 1)
    ensures forall c :: c in AllJoins(hs, joints, odd) <==>
      JoinOf(hs, c, odd) && JointOf(c, odd, hs.k) in joints
  {
    if joints != [] {
      var jt, rest := joints[|joints| - 1], joints[..|joints| - 1];
      assert joints == rest + [jt];
      AllJoinsExact(hs, rest, odd);
      JoinsAtExact(hs, jt);
      assert jt !in rest;
      DistinctConcat(AllJoins(hs, rest, odd), JoinsAt(hs, jt));
    }
  }

  // ----- growing the half paths -----

  /** A half path extended by the edge to nb: at its end going forward, at its front going backward. */
  function Extend(src: VertexID, nb: Neighbor, p: Path, forward: bool): Entry {
    var step := StepOut(src, nb.etype, nb.rank);
    (nb.dst, if forward then p + [step] else [step] + p)
  }

  function ExtendRow(src: VertexID, nb: Neighbor, ps: seq<Path>, forward: bool): (cs: seq<Entry>)
    ensures |cs| == |ps| && forall i :: 0 <= i < |ps| ==> cs[i] == Extend(src, nb, ps[i], forward)
  {
    seq(|ps|, i requires 0 <= i < |ps| => Extend(src, nb, ps[i], forward))
  }

  function EdgeNeighbor(e: Edge): Neighbor {
    Neighbor(e.dst, e.etype, e.rank)
  }

  function AllExtensions(m: Multimap<VertexID, Path>, es: seq<Edge>, forward: bool): seq<Entry> {
    if es == [] then []
    else
      var e := es[|es| - 1];
      AllExtensions(m, es[..|es| - 1], forward) + ExtendRow(e.src, EdgeNeighbor(e), Range(m, e.src), forward)
  }

  /** The step last put on an extended path, and what it was put on. */
  function NewStep(c: Entry, forward: bool): StepOut
    requires |c.1| > 0
  {
    if forward then c.1[|c.1| - 1] else c.1[0]
  }

  function OldSteps(c: Entry, forward: bool): Path
    requires |c.1| > 0
  {
    if forward then c.1[..|c.1| - 1] else c.1[1..]
  }

  function NewEdge(c: Entry, forward: bool): Edge
    requires |c.1| > 0
  {
    var s := NewStep(c, forward);
    Edge(s.id, s.etype, s.rank, c.0)
  }

  ghost predicate Extends(m: Multimap<VertexID, Path>, c: Entry, forward: bool) {
    |c.1| > 0 && (NewStep(c, forward).id, OldSteps(c, forward)) in m
  }

  lemma ExtendParts(src: VertexID, nb: Neighbor, p: Path, forward: bool)
    ensures var c := Extend(src, nb, p, forward);
      |c.1| == |p| + 1 && NewEdge(c, forward) == NeighborEdge(src, nb) && OldSteps(c, forward) == p
  {
  }

  lemma ExtendRowDistinct(m: Multimap<VertexID, Path>, e: Edge, forward: bool)
    requires Distinct(m)
    ensures Distinct(ExtendRow(e.src, EdgeNeighbor(e), Range(m, e.src), forward))
  {
    var ps := Range(m, e.src);
    RangeDistinct(m, e.src);
    var row := ExtendRow(e.src, EdgeNeighbor(e), ps, forward);
    forall i, j | 0 <= i < j < |row|
      ensures row[i] != row[j]
    {
      ExtendParts(e.src, EdgeNeighbor(e), ps[i], forward);
      ExtendParts(e.src, EdgeNeighbor(e), ps[j], forward);
    }
  }

  lemma ExtendRowMember(m: Multimap<VertexID, Path>, e: Edge, forward: bool, c: Entry)
    ensures c in ExtendRow(e.src, EdgeNeighbor(e), Range(m, e.src), forward) <==>
      Extends(m, c, forward) && NewEdge(c, forward) == e
  {
    var ps := Range(m, e.src);
    var row := ExtendRow(e.src, EdgeNeighbor(e), ps, forward);
    if c in row {
      var i :| 0 <= i < |row| && row[i] == c;
      ExtendParts(e.src, EdgeNeighbor(e), ps[i], forward);
      assert ps[i] in ps;
    }
    if Extends(m, c, forward) && NewEdge(c, forward) == e {
      ExtendWhole(c, forward);
      var base := OldSteps(c, forward);
      assert base in ps;
      var i :| 0 <= i < |ps| && ps[i] == base;
      assert row[i] == Extend(e.src, EdgeNeighbor(e), base, forward);
    }
  }

  lemma ExtendWhole(c: Entry, forward: bool)
    requires |c.1| > 0
    ensures var e := NewEdge(c, forward);
      c == Extend(e.src, EdgeNeighbor(e), OldSteps(c, forward), forward)
  {
    if forward {
      assert c.1 == c.1[..|c.1| - 1] + [c.1[|c.1| - 1]];
    } else {
      assert c.1 == [c.1[0]] + c.1[1..];
    }
  }

  /** Growing every half path over distinct edges gives each extension exactly once. */
  lemma {:induction false} AllExtensionsExact(m: Multimap<VertexID, Path>, es: seq<Edge>, forward: bool)
    requires Distinct(m) && Distinct(es)
    ensures Distinct(AllExtensions(m, es, forward))
    ensures forall c :: c in AllExtensions(m, es, forward) <==> Extends(m, c, forward) && NewEdge(c, forward) in es
  {
    if es != [] {
      var e, rest := es[|es| - 1], es[..|es| - 1];
      assert es == rest + [e];
      assert e !in rest;
      AllExtensionsExact(m, rest, forward);
      ExtendRowDistinct(m, e, forward);
      forall c
        ensures c in ExtendRow(e.src, EdgeNeighbor(e), Range(m, e.src), forward) <==>
          Extends(m, c, forward) && NewEdge(c, forward) == e
      {
        ExtendRowMember(m, e, forward, c);
      }
      DistinctConcat(AllExtensions(m, rest, forward),
                     ExtendRow(e.src, EdgeNeighbor(e), Range(m, e.src), forward));
    }
  }

  // ----- what a round knows about the graph -----

  function EdgeJoint(e: Edge): Joint {
    Across(e.src, EdgeNeighbor(e))
  }

  function EdgeJoints(es: seq<Edge>): (js: seq<Joint>)
    ensures |js| == |es| && forall i :: 0 <= i < |es| ==> js[i] == EdgeJoint(es[i])
  {
    seq(|es|, i requires 0 <= i < |es| => EdgeJoint(es[i]))
  }

  /** The edge an odd path crosses in its middle. */
  function MiddleEdge(c: Entry, k: nat): Edge
    requires |c.1| == 2 * k + 2
  {
    Edge(c.1[k].id, c.1[k].etype, c.1[k].rank, c.1[k + 1].id)
  }

  /** Joining exact halves across a stored edge is splicing, at odd lengths. */
  lemma OddJoinIffSpliced(q: Query, hs: Halves, c: Entry)
    requires hs.Exact(q)
    ensures JoinOf(hs, c, true) && HasEdge(q, MiddleEdge(c, hs.k)) <==>
      |c.1| == 2 * hs.k + 2 && Spliced(q, c)
  {
    var k := hs.k;
    if |c.1| == 2 * k + 2 {
      var p := c.1;
      assert (2 * k + 1) / 2 == k;
      assert p[k + 1..][1..] == p[k + 2..];
      assert p == p[..k] + [p[k], p[k + 1]] + p[k + 2..];
    }
  }

  lemma JoinAtIff(c: Entry, k: nat)
    requires |c.1| == 2 * k + 1 && k > 0
    ensures var p := c.1;
      c == Join(At(p[k].id), p[..k], p[k + 1..]) <==>
        p[k].etype == -p[k + 1].etype && p[k].rank == p[k + 1].rank && c.0 == p[2 * k].id
  {
    var p := c.1;
    assert p == p[..k] + [p[k]] + p[k + 1..];
    var d := Join(At(p[k].id), p[..k], p[k + 1..]);
    assert d.1 == p[..k] + [d.1[k]] + p[k + 1..];
    assert d.1[k] == StepOut(p[k].id, -p[k + 1].etype, p[k + 1].rank);
  }

  /** Joining exact halves at a vertex is splicing, at even lengths. */
  lemma EvenJoinIffSpliced(q: Query, hs: Halves, c: Entry)
    requires hs.Exact(q) && hs.k > 0
    ensures JoinOf(hs, c, false) <==> |c.1| == 2 * hs.k + 1 && Spliced(q, c)
  {
    if |c.1| == 2 * hs.k + 1 {
      JoinAtIff(c, hs.k);
      assert (|c.1| - 1) / 2 == hs.k;
    }
  }

  lemma {:induction false} AllJoinsSized(hs: Halves, joints: seq<Joint>, odd: bool)
    requires hs.Valid() && SameKind(joints, odd) && (!odd ==> hs.k > 0)
    ensures Sized(AllJoins(hs, joints, odd), if odd then 2 * hs.k + 2 else 2 * hs.k + 1)
  {
    if joints != [] {
      var jt, rest := joints[|joints| - 1], joints[..|joints| - 1];
      AllJoinsSized(hs, rest, odd);
      JoinsAtExact(hs, jt);
    }
  }

  lemma AllJoinsSnoc(hs: Halves, joints: seq<Joint>, jt: Joint, odd: bool)
    requires hs.Valid() && SameKind(joints, odd) && (!odd ==> hs.k > 0) && jt.Across? == odd
    ensures AllJoins(hs, joints + [jt], odd) == AllJoins(hs, joints, odd) + JoinsAt(hs, jt)
  {
    assert (joints + [jt])[..|joints|] == joints;
  }

  lemma NoJoinsAt(hs: Halves, jt: Joint)
    requires hs.Valid() && (jt.At? ==> hs.k > 0) && Right(jt) !in Keys(hs.to)
    ensures JoinsAt(hs, jt) == []
  {
    RangeMissing(hs.to, Right(jt));
    RangeHalf(hs.from, Left(jt), hs.k);
    JoinsNothing(jt, Range(hs.from, Left(jt)), hs.k);
  }

  lemma AllExtensionsSnoc(m: Multimap<VertexID, Path>, es: seq<Edge>, e: Edge, forward: bool)
    ensures AllExtensions(m, es + [e], forward) ==
      AllExtensions(m, es, forward) + ExtendRow(e.src, EdgeNeighbor(e), Range(m, e.src), forward)
  {
    assert (es + [e])[..|es|] == es;
  }

  lemma EdgeJointsSnoc(es: seq<Edge>, e: Edge)
    ensures EdgeJoints(es + [e]) == EdgeJoints(es) + [EdgeJoint(e)]
  {
  }

  /** All odd joins over the given edges. */
  ghost function OddJoins(hs: Halves, es: seq<Edge>): seq<Entry>
    requires hs.Valid()
  {
    AllJoins(hs, EdgeJoints(es), true)
  }

  lemma OddJoinsSnoc(hs: Halves, es: seq<Edge>, e: Edge)
    requires hs.Valid()
    ensures Sized(OddJoins(hs, es), 2 * hs.k + 2)
    ensures OddJoins(hs, es + [e]) == OddJoins(hs, es) + JoinsAt(hs, EdgeJoint(e))
  {
    AllJoinsSized(hs, EdgeJoints(es), true);
    AllJoinsSnoc(hs, EdgeJoints(es), EdgeJoint(e), true);
    EdgeJointsSnoc(es, e);
  }

  lemma DstsSnoc(es: seq<Edge>, e: Edge)
    ensures Dsts(es + [e]) == Dsts(es) + {e.dst}
  {
  }

  function Dsts(es: seq<Edge>): set<VertexID> {
    set e | e in es :: e.dst
  }

  // ----- one round against the specification -----

  lemma OddJoinsExact(q: Query, hs: Halves, es: seq<Edge>)
    requires hs.Exact(q) && Distinct(es)
    requires forall e :: e in es <==> e in q.store && e.src in Keys(hs.from) && Asked(q, e, false)
    ensures Distinct(OddJoins(hs, es)) && Sized(OddJoins(hs, es), 2 * hs.k + 2)
    ensures forall c :: c in OddJoins(hs, es) <==> |c.1| == 2 * hs.k + 2 && Answer(q, c)
  {
    hide Spliced, Answer, Join, Joins, AllJoins;
    var joints := EdgeJoints(es);
    AllJoinsExact(hs, joints, true);
    forall c
      ensures c in OddJoins(hs, es) <==> |c.1| == 2 * hs.k + 2 && Answer(q, c)
    {
      AnswerIffSpliced(q, c);
      OddJoinIffSpliced(q, hs, c);
      if |c.1| == 2 * hs.k + 2 {
        JointInEdges(es, MiddleEdge(c, hs.k));
        MiddleReached(hs, c);
      }
    }
  }

  /** The middle edge of an odd join leaves a vertex that the forward halves reach. */
  lemma MiddleReached(hs: Halves, c: Entry)
    requires |c.1| == 2 * hs.k + 2
    ensures JointOf(c, true, hs.k) == EdgeJoint(MiddleEdge(c, hs.k))
    ensures JoinOf(hs, c, true) ==> MiddleEdge(c, hs.k).src in Keys(hs.from)
  {
    if JoinOf(hs, c, true) {
      assert (c.1[hs.k].id, c.1[..hs.k]) in hs.from;
    }
  }

  lemma JointInEdges(es: seq<Edge>, e: Edge)
    ensures EdgeJoint(e) in EdgeJoints(es) <==> e in es
  {
    if e in es {
      var i :| 0 <= i < |es| && es[i] == e;
      assert EdgeJoints(es)[i] == EdgeJoint(e);
    }
    if EdgeJoint(e) in EdgeJoints(es) {
      var i :| 0 <= i < |es| && EdgeJoints(es)[i] == EdgeJoint(e);
      assert es[i] == e;
    }
  }

  function Ats(vs: seq<VertexID>): (js: seq<Joint>)
    ensures |js| == |vs| && forall i :: 0 <= i < |vs| ==> js[i] == At(vs[i])
  {
    seq(|vs|, i requires 0 <= i < |vs| => At(vs[i]))
  }

  /** All even joins at the given vertices. */
  ghost function EvenJoins(hs: Halves, vs: seq<VertexID>): seq<Entry>
    requires hs.Valid() && hs.k > 0
  {
    AllJoins(hs, Ats(vs), false)
  }

  lemma EvenJoinsSnoc(hs: Halves, vs: seq<VertexID>, v: VertexID)
    requires hs.Valid() && hs.k > 0
    ensures Sized(EvenJoins(hs, vs), 2 * hs.k + 1)
    ensures EvenJoins(hs, vs + [v]) == EvenJoins(hs, vs) + JoinsAt(hs, At(v))
  {
    AllJoinsSized(hs, Ats(vs), false);
    AllJoinsSnoc(hs, Ats(vs), At(v), false);
    assert Ats(vs + [v]) == Ats(vs) + [At(v)];
  }

  lemma AtInAts(vs: seq<VertexID>, v: VertexID)
    ensures At(v) in Ats(vs) <==> v in vs
  {
    if v in vs {
      var i :| 0 <= i < |vs| && vs[i] == v;
      assert Ats(vs)[i] == At(v);
    }
    if At(v) in Ats(vs) {
      var i :| 0 <= i < |vs| && Ats(vs)[i] == At(v);
      assert vs[i] == v;
    }
  }

  lemma EvenJointReached(hs: Halves, c: Entry)
    requires hs.k > 0 && JoinOf(hs, c, false)
    ensures c.1[hs.k].id in Keys(hs.from) && c.1[hs.k].id in Keys(hs.to)
  {
    var v := c.1[hs.k].id;
    assert (v, c.1[..hs.k]) in hs.from;
    assert (v, c.1[|c.1| - hs.k..]) in hs.to;
  }

  lemma EvenJoinsExact(q: Query, hs: Halves, vs: seq<VertexID>)
    requires hs.Exact(q) && hs.k > 0 && Distinct(vs)
    requires forall v :: v in vs <==> v in Keys(hs.from) && v in Keys(hs.to)
    ensures Distinct(EvenJoins(hs, vs)) && Sized(EvenJoins(hs, vs), 2 * hs.k + 1)
    ensures forall c :: c in EvenJoins(hs, vs) <==> |c.1| == 2 * hs.k + 1 && Answer(q, c)
  {
    AllJoinsExact(hs, Ats(vs), false);
    forall c
      ensures c in EvenJoins(hs, vs) <==> |c.1| == 2 * hs.k + 1 && Answer(q, c)
    {
      AnswerIffSpliced(q, c);
      EvenJoinIffSpliced(q, hs, c);
      if JoinOf(hs, c, false) {
        EvenJointReached(hs, c);
        AtInAts(vs, c.1[hs.k].id);
      }
    }
  }

  /** Offering all answers of the next length. */
  lemma OfferAll(q: Query, final: seq<Entry>, cs: seq<Entry>, len: nat)
    requires FinalOk(q, final, len) && Distinct(cs)
    requires forall c :: c in cs <==> |c.1| == len + 2 && Answer(q, c)
    ensures FinalOk(q, Offer(q.shortest, final, cs), len + 1)
  {
    OfferExact(q.shortest, final, cs, len + 1);
    JoinExtends(q, final, Offer(q.shortest, final, cs), len);
  }

  lemma GrowFrom(q: Query, hs: Halves, es: seq<Edge>)
    requires hs.Exact(q) && Distinct(es)
    requires forall e :: e in es <==> e in q.store && e.src in Keys(hs.from) && Asked(q, e, false)
    ensures var ext := AllExtensions(hs.from, es, true);
      FromExact(q, ext, hs.k + 1) && Keys(ext) == Dsts(es)
  {
    var ext := AllExtensions(hs.from, es, true);
    AllExtensionsExact(hs.from, es, true);
    forall c
      ensures c in ext <==> |c.1| == hs.k + 1 && FromPath(q, c.0, c.1)
    {
      if |c.1| > 0 && Extends(hs.from, c, true) {
        assert NewStep(c, true).id in Keys(hs.from);
      }
    }
    GrownKeys(hs.from, es, true);
  }

  lemma GrowTo(q: Query, m: Multimap<VertexID, Path>, es: seq<Edge>, k: nat)
    requires q.Valid() && ToExact(q, m, k) && Distinct(es)
    requires forall e :: e in es <==> e in q.store && e.src in Keys(m) && Asked(q, e, true)
    ensures var ext := AllExtensions(m, es, false);
      ToExact(q, ext, k + 1) && Keys(ext) == Dsts(es)
  {
    var ext := AllExtensions(m, es, false);
    AllExtensionsExact(m, es, false);
    forall c
      ensures c in ext <==> |c.1| == k + 1 && ToPath(q, c.0, c.1)
    {
      if |c.1| > 0 {
        var e := NewEdge(c, false);
        assert Mirror(e) == Edge(c.0, -c.1[0].etype, c.1[0].rank, c.1[0].id);
        assert Mirror(Mirror(e)) == e;
        if Extends(m, c, false) {
          assert c.1[0].id in Keys(m);
        }
      }
    }
    GrownKeys(m, es, false);
  }

  /** A vertex is reached exactly when some edge leads to it. */
  lemma GrownKeys(m: Multimap<VertexID, Path>, es: seq<Edge>, forward: bool)
    requires Distinct(m) && Distinct(es) && forall e :: e in es ==> e.src in Keys(m)
    ensures Keys(AllExtensions(m, es, forward)) == Dsts(es)
  {
    var ext := AllExtensions(m, es, forward);
    AllExtensionsExact(m, es, forward);
    forall v | v in Dsts(es)
      ensures v in Keys(ext)
    {
      var e :| e in es && e.dst == v;
      var c :| c in m && c.0 == e.src;
      var d := Extend(e.src, EdgeNeighbor(e), c.1, forward);
      ExtendParts(e.src, EdgeNeighbor(e), c.1, forward);
      assert d in ext;
    }
    forall v | v in Keys(ext)
      ensures v in Dsts(es)
    {
      var d :| d in ext && d.0 == v;
      assert NewEdge(d, forward) in es;
    }
  }

  /** The forward sweep over a complete answer finds all answers of the next odd length. */
  lemma OddRound(q: Query, hs: Halves, es: seq<Edge>, final: seq<Entry>)
    requires hs.Exact(q) && Distinct(es) && FinalOk(q, final, 2 * hs.k)
    requires forall e :: e in es <==> e in q.store && e.src in Keys(hs.from) && Asked(q, e, false)
    ensures FinalOk(q, Offer(q.shortest, final, OddJoins(hs, es)), 2 * hs.k + 1)
    ensures var ext := AllExtensions(hs.from, es, true);
      FromExact(q, ext, hs.k + 1) && Keys(ext) == Dsts(es)
  {
    OddJoinsExact(q, hs, es);
    OfferAll(q, final, OddJoins(hs, es), 2 * hs.k);
    GrowFrom(q, hs, es);
  }

  lemma FinalAtMost(q: Query, final: seq<Entry>, len: nat)
    requires FinalOk(q, final, len)
    ensures AtMost(final, len + 1)
  {
  }

  /** The even joins at all common vertices find all answers of the next even length. */
  lemma EvenRound(q: Query, hs: Halves, vs: seq<VertexID>, final: seq<Entry>)
    requires hs.Exact(q) && hs.k > 0 && Distinct(vs) && FinalOk(q, final, 2 * hs.k - 1)
    requires forall v :: v in vs <==> v in Keys(hs.from) && v in Keys(hs.to)
    ensures FinalOk(q, Offer(q.shortest, final, EvenJoins(hs, vs)), 2 * hs.k)
  {
    EvenJoinsExact(q, hs, vs);
    OfferAll(q, final, EvenJoins(hs, vs), 2 * hs.k - 1);
  }

  lemma NoEvenRound(q: Query, hs: Halves, final: seq<Entry>)
    requires hs.Exact(q) && hs.k > 0 && FinalOk(q, final, 2 * hs.k - 1)
    requires forall v :: v in Keys(hs.from) ==> v !in Keys(hs.to)
    ensures FinalOk(q, final, 2 * hs.k)
  {
    EvenRound(q, hs, [], final);
  }

  /** A side with no half paths left ends the search without losing an answer. */
  lemma DeadEndFinal(q: Query, hs: Halves, final: seq<Entry>)
    requires hs.Exact(q) && FinalOk(q, final, 2 * hs.k) && 2 * hs.k <= q.bound
    requires Keys(hs.from) == {} || Keys(hs.to) == {}
    ensures FinalOk(q, final, q.bound)
  {
    forall v, p | FromPath(q, v, p) && |p| == hs.k
      ensures v in Keys(hs.from)
    {
      assert (v, p) in hs.from;
    }
    forall v, p | ToPath(q, v, p) && |p| == hs.k
      ensures v in Keys(hs.to)
    {
      assert (v, p) in hs.to;
    }
    assert NoFromPath(q, hs.k) || NoToPath(q, hs.k);
    forall c | Answer(q, c) ensures |c.1| <= 2 * hs.k + 1 {
      DeadEnd(q, c, hs.k);
    }
    NothingLonger(q, final, 2 * hs.k, q.bound);
  }
}
