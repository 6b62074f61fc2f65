/** Edge mirroring: the statements that change edges, over a store that keeps every edge under
    its own key and under the mirrored key. */
module EdgeStore {
  import opened Bytes
  import opened Graph
  import opened Go

  type Props = seq<byte>
  type Store = map<Edge, Props>

  function Lookup(m: Store, e: Edge): Option<Props> {
    if e in m then Some(m[e]) else None
  }

  /** Both directions of an edge hold the same properties. */
  ghost predicate SameProps(m: Store) {
    forall e :: e in m && Mirror(e) in m ==> m[e] == m[Mirror(e)]
  }

  /** One of the types, in either direction. */
  predicate OneOf(types: seq<EdgeType>, t: EdgeType) {
    t in types || -t in types
  }

  /** Stored edge types are those of the space. */
  ghost predicate Typed(m: Store, types: seq<EdgeType>) {
    forall e :: e in m ==> OneOf(types, e.etype)
  }

  // ----- insertion -----

  datatype Row = Row(src: VertexID, dst: VertexID, rank: Ranking, props: Props)

  function OutKey(row: Row, etype: EdgeType): Edge {
    Edge(row.src, etype, row.rank, row.dst)
  }

  /** Insertion of the rows one after the other, each under both keys. */
  function Inserted(m: Store, rows: seq<Row>, etype: EdgeType): Store {
    if rows == [] then m
    else
      var row := rows[|rows| - 1];
      var key := OutKey(row, etype);
      Inserted(m, rows[..|rows| - 1], etype)[key := row.props][Mirror(key) := row.props]
  }

  function EdgePairs(rows: seq<Row>, etype: EdgeType): (pairs: seq<(Edge, Props)>)
    ensures |pairs| == |rows| + |rows|
  {
    if rows == [] then []
    else
      var row := rows[|rows| - 1];
      var key := OutKey(row, etype);
      EdgePairs(rows[..|rows| - 1], etype) + [(key, row.props), (Mirror(key), row.props)]
  }

  function PutAll(m: Store, pairs: seq<(Edge, Props)>): Store {
    if pairs == [] then m
    else PutAll(m, pairs[..|pairs| - 1])[pairs[|pairs| - 1].0 := pairs[|pairs| - 1].1]
  }

  lemma {:induction false} PutPairs(m: Store, rows: seq<Row>, etype: EdgeType)
    ensures PutAll(m, EdgePairs(rows, etype)) == Inserted(m, rows, etype)
  {
    if rows != [] {
      PutPairs(m, rows[..|rows| - 1], etype);
      var pairs := EdgePairs(rows, etype);
      var n := |pairs| - 2;
      assert pairs[..n + 1][..n] == pairs[..n] == EdgePairs(rows[..|rows| - 1], etype);
    }
  }

  ghost predicate Names(row: Row, etype: EdgeType, e: Edge) {
    e == Edge(row.src, etype, row.rank, row.dst) || e == Edge(row.dst, -etype, row.rank, row.src)
  }

  /** The last row that names an edge in one of the two directions, or -1. */
  ghost function LastNaming(rows: seq<Row>, etype: EdgeType, e: Edge): (i: int)
    ensures -1 <= i < |rows| && (i >= 0 ==> Names(rows[i], etype, e))
    ensures forall j :: i < j < |rows| ==> !Names(rows[j], etype, e)
  {
    if rows == [] then -1
    else if Names(rows[|rows| - 1], etype, e) then |rows| - 1
    else LastNaming(rows[..|rows| - 1], etype, e)
  }

  /** After an insertion an edge is there exactly if it was, or some row names it in one of the
      two directions; the last such row gives its properties, and all others keep theirs. */
  lemma {:induction false} InsertedLookup(m: Store, rows: seq<Row>, etype: EdgeType, e: Edge)
    ensures var i := LastNaming(rows, etype, e);
      Lookup(Inserted(m, rows, etype), e) == if i < 0 then Lookup(m, e) else Some(rows[i].props)
  {
    if rows != [] && !Names(rows[|rows| - 1], etype, e) {
      InsertedLookup(m, rows[..|rows| - 1], etype, e);
    }
  }

  lemma {:induction false} InsertedKeeps(m: Store, rows: seq<Row>, etype: EdgeType, types: seq<EdgeType>)
    requires etype in types
    ensures Mirrored(m.Keys) ==> Mirrored(Inserted(m, rows, etype).Keys)
    ensures SameProps(m) ==> SameProps(Inserted(m, rows, etype))
    ensures Typed(m, types) ==> Typed(Inserted(m, rows, etype), types)
  {
    if rows != [] {
      InsertedKeeps(m, rows[..|rows| - 1], etype, types);
    }
  }

  // ----- deletion -----

  function BothKeys(keys: seq<Edge>): (both: seq<Edge>)
    ensures |both| == 2 * |keys|
  {
    if keys == [] then [] else BothKeys(keys[..|keys| - 1]) + [keys[|keys| - 1], Mirror(keys[|keys| - 1])]
  }

  lemma {:induction false} BothKeysIff(keys: seq<Edge>, e: Edge)
    ensures e in BothKeys(keys) <==> e in keys || Mirror(e) in keys
  {
    if keys != [] {
      var front, last := keys[..|keys| - 1], keys[|keys| - 1];
      BothKeysIff(front, e);
      assert keys == front + [last];
      assert e == Mirror(last) <==> Mirror(e) == last;
    }
  }

  function Without(m: Store, keys: seq<Edge>): Store {
    map e | e in m && e !in keys :: m[e]
  }

  lemma WithoutLookup(m: Store, keys: seq<Edge>)
    ensures forall e ::
      Lookup(Without(m, BothKeys(keys)), e) == if e in keys || Mirror(e) in keys then None else Lookup(m, e)
  {
    forall e: Edge ensures e in BothKeys(keys) <==> e in keys || Mirror(e) in keys { BothKeysIff(keys, e); }
  }

  lemma WithoutKeeps(m: Store, keys: seq<Edge>, types: seq<EdgeType>)
    ensures Mirrored(m.Keys) ==> Mirrored(Without(m, BothKeys(keys)).Keys)
    ensures SameProps(m) ==> SameProps(Without(m, BothKeys(keys)))
    ensures Typed(m, types) ==> Typed(Without(m, BothKeys(keys)), types)
  {
    forall e: Edge
      ensures e in BothKeys(keys) <==> Mirror(e) in BothKeys(keys)
    {
      BothKeysIff(keys, e);
      BothKeysIff(keys, Mirror(e));
      assert Mirror(Mirror(e)) == e;
    }
  }

  /** Deleting vertices: what goes is every edge out of them and its mirrored key. */
  function WithoutVertices(m: Store, vids: seq<VertexID>): Store {
    map e | e in m && e.src !in vids && !(e.dst in vids && Mirror(e) in m) :: m[e]
  }

  /** In a mirrored store nothing that touches a deleted vertex stays, and the rest is as it was. */
  lemma WithoutVerticesKeeps(m: Store, vids: seq<VertexID>, types: seq<EdgeType>)
    requires Mirrored(m.Keys)
    ensures var m' := WithoutVertices(m, vids);
      Mirrored(m'.Keys) && (SameProps(m) ==> SameProps(m')) && (Typed(m, types) ==> Typed(m', types)) &&
      forall e :: Lookup(m', e) == if e.src in vids || e.dst in vids then None else Lookup(m, e)
  {
    forall e | e in m
      ensures Mirror(e) in m
    {
      assert e in m.Keys;
    }
    hide Mirrored;
    RestMirrored(m, vids);
  }

  lemma RestMirrored(m: Store, vids: seq<VertexID>)
    requires forall e :: e in m ==> Mirror(e) in m
    ensures Mirrored(WithoutVertices(m, vids).Keys)
  {
    var m' := WithoutVertices(m, vids);
    forall e | e in m'.Keys
      ensures Mirror(e) in m'.Keys
    {
      assert Mirror(Mirror(e)) == e && e in m && Mirror(e) in m;
    }
  }

  /** In any store: some edge still touches a deleted vertex exactly if some edge led to one
      from elsewhere without being stored in the other direction. */
  lemma LeftBehind(m: Store, vids: seq<VertexID>)
    ensures (exists e :: e in WithoutVertices(m, vids) && (e.src in vids || e.dst in vids)) <==>
      (exists e :: e in m && e.src !in vids && e.dst in vids && Mirror(e) !in m)
  {
    var m' := WithoutVertices(m, vids);
    if e :| e in m && e.src !in vids && e.dst in vids && Mirror(e) !in m {
      assert e in m';
    }
    if e :| e in m' && (e.src in vids || e.dst in vids) {
      assert e in m && e.src !in vids && e.dst in vids && Mirror(e) !in m;
    }
  }

  // ----- update -----

  /** An UPDATE or UPSERT as storage sees it. The filter and the new properties may depend on
      properties of the source vertex of the key they are evaluated on; None is an error. */
  datatype Update = Update(accept: (VertexID, Props) -> Option<bool>,
                           apply: (VertexID, Option<Props>) -> Option<Props>,
                           insertable: bool)

  datatype Code = SUCCEEDED | FILTER_OUT | FAILED

  /** One request to storage; an upsert of a missing edge is not filtered. */
  function UpdateOne(m: Store, e: Edge, u: Update, filtered: bool): (Store, Code) {
    var old' := Lookup(m, e);
    if old' == None && !u.insertable then (m, FAILED)
    else if filtered && old'.Some? && u.accept(e.src, old'.value) == None then (m, FAILED)
    else if filtered && old'.Some? && u.accept(e.src, old'.value) == Some(false) then (m, FILTER_OUT)
    else
      match u.apply(e.src, old')
      case None => (m, FAILED)
      case Some(props) => (m[e := props], SUCCEEDED)
  }

  /** Both requests: the second, for the mirrored key and without the filter, follows the
      first only if that succeeded. */
  function UpdateBoth(m: Store, e: Edge, u: Update): (Store, Code) {
    var (m1, code) := UpdateOne(m, e, u, true);
    if code != SUCCEEDED then (m1, code)
    else UpdateOne(m1, Mirror(e), u, false)
  }

  /** The filter lets the update of e through: a stored edge must pass it, a missing one is upserted. */
  predicate Admitted(m: Store, e: Edge, u: Update) {
    if e in m then u.accept(e.src, m[e]) == Some(true) else u.insertable
  }

  /** The request for e succeeds, the filter left aside. */
  predicate Applies(m: Store, e: Edge, u: Update) {
    (e in m || u.insertable) && u.apply(e.src, Lookup(m, e)).Some?
  }

  /** A filter that evaluates is true or false. */
  lemma Accepts(m: Store, e: Edge, u: Update)
    requires e in m
    ensures var a := u.accept(e.src, m[e]); a == None || a == Some(true) || a == Some(false)
  {
    var a := u.accept(e.src, m[e]);
    if a.Some? {
      var b: bool := a.value;
      assert a == Some(b);
    }
  }

  /** What an update answers, told from the store before it. */
  lemma UpdateCodes(m: Store, e: Edge, u: Update)
    requires e.etype != 0
    ensures UpdateBoth(m, e, u).1 == FILTER_OUT <==> e in m && u.accept(e.src, m[e]) == Some(false)
    ensures UpdateBoth(m, e, u).1 == SUCCEEDED <==>
      Admitted(m, e, u) && Applies(m, e, u) && Applies(m, Mirror(e), u)
  {
    assert Mirror(e) != e;
    if e in m {
      Accepts(m, e, u);
    }
  }

  /** And what it stores: each direction gets what is computed at its own source, the first one if the
      request for it succeeds and the second if both do; no other key is touched. */
  lemma UpdateLookup(m: Store, e: Edge, u: Update, k: Edge)
    requires e.etype != 0
    ensures Lookup(UpdateBoth(m, e, u).0, k) ==
      if k == e && Admitted(m, e, u) && Applies(m, e, u) then u.apply(e.src, Lookup(m, e))
      else if k == Mirror(e) && UpdateBoth(m, e, u).1 == SUCCEEDED then u.apply(e.dst, Lookup(m, Mirror(e)))
      else Lookup(m, k)
  {
    assert Mirror(e) != e;
    if e in m {
      Accepts(m, e, u);
    }
  }

  /** An upsert of a new edge whose properties can be computed at its source and not at its
      destination. */
  predicate HalfUpsert(m: Store, e: Edge, u: Update) {
    e !in m && u.insertable && u.apply(e.src, None).Some? && u.apply(e.dst, None).None?
  }

  /** An update keeps the store mirrored exactly unless it is such an upsert. */
  lemma UpdateMirrors(m: Store, e: Edge, u: Update)
    requires Mirrored(m.Keys) && e.etype != 0
    ensures Mirrored(UpdateBoth(m, e, u).0.Keys) <==> !HalfUpsert(m, e, u)
  {
    assert Mirror(Mirror(e)) == e && Mirror(e) != e;
    assert e in m.Keys <==> Mirror(e) in m.Keys;
    var m' := UpdateBoth(m, e, u).0;
    if HalfUpsert(m, e, u) {
      assert e in m'.Keys && Mirror(e) !in m'.Keys;
    } else {
      assert e in m'.Keys <==> Mirror(e) in m'.Keys;
      forall f | f in m'.Keys
        ensures Mirror(f) in m'.Keys
      {
        if f != e && f != Mirror(e) {
          assert f in m.Keys;
        }
      }
    }
  }

  lemma HalfUpsertExample()
    ensures exists m: Store, e, u ::
      Mirrored(m.Keys) && HalfUpsert(m, e, u) && !Mirrored(UpdateBoth(m, e, u).0.Keys)
  {
    var e := Edge(1, 1, 0, 2);
    var u := Update((v, p) => Some(true), (v, p) => if v == 1 then Some([]) else None, true);
    var m: Store := map[];
    UpdateMirrors(m, e, u);
    assert HalfUpsert(m, e, u);
  }

  /** An update of a stored edge that fails at its destination has changed one direction, and the
      two still agree exactly if the new properties are the old ones. */
  lemma HalfUpdateProps(m: Store, e: Edge, u: Update)
    requires Mirrored(m.Keys) && SameProps(m) && e.etype != 0 && e in m
    requires u.accept(e.src, m[e]) == Some(true) && u.apply(e.src, Some(m[e])).Some?
    requires u.apply(e.dst, Some(m[e])).None?
    ensures UpdateBoth(m, e, u) == (m[e := u.apply(e.src, Some(m[e])).value], FAILED)
    ensures SameProps(UpdateBoth(m, e, u).0) <==> u.apply(e.src, Some(m[e])) == Some(m[e])
  {
    var f := Mirror(e);
    assert Mirror(f) == e && f != e;
    assert e in m.Keys && f in m.Keys;
    var m' := UpdateBoth(m, e, u).0;
    assert m'[f] == m[e];
    if m'[e] == m'[f] {
      assert m' == m;
    }
  }

  /** After a completed update both directions agree exactly if the new properties come out the
      same whichever end is taken as the source vertex. */
  lemma UpdateProps(m: Store, e: Edge, u: Update)
    requires Mirrored(m.Keys) && SameProps(m) && e.etype != 0 && UpdateBoth(m, e, u).1 == SUCCEEDED
    ensures SameProps(UpdateBoth(m, e, u).0) <==>
      u.apply(e.src, Lookup(m, e)) == u.apply(e.dst, Lookup(m, e))
  {
    var f := Mirror(e);
    assert Mirror(f) == e && f != e;
    assert e in m.Keys <==> f in m.Keys;
    var m' := UpdateBoth(m, e, u).0;
    assert Lookup(m, f) == Lookup(m, e);
    assert m'[e] == u.apply(e.src, Lookup(m, e)).value && m'[f] == u.apply(e.dst, Lookup(m, e)).value;
    if m'[e] == m'[f] {
      forall k | k in m' && Mirror(k) in m'
        ensures m'[k] == m'[Mirror(k)]
      {
        assert Mirror(Mirror(k)) == k;
      }
    }
  }

  /** So an update from a property of the source vertex makes the directions differ. */
  lemma SourcePropsDiverge()
    ensures exists m: Store, e, u ::
      Mirrored(m.Keys) && SameProps(m) && UpdateBoth(m, e, u).1 == SUCCEEDED && !SameProps(UpdateBoth(m, e, u).0)
  {
    var e := Edge(1, 1, 0, 2);
    var m: Store := map[e := [], Mirror(e) := []];
    var u := Update((v, p) => Some(true), (v, p) => Some([v % 256]), false);
    assert UpdateBoth(m, e, u).1 == SUCCEEDED;
    UpdateProps(m, e, u);
  }

  /** In a mirrored store: the answer and the new store, told from the store before. */
  lemma UpdateOutcome(m: Store, e: Edge, u: Update)
    requires e.etype != 0 && Mirrored(m.Keys)
    ensures var (m', code) := UpdateBoth(m, e, u);
      (code == FILTER_OUT <==> e in m && u.accept(e.src, m[e]) == Some(false)) && (code == FILTER_OUT ==> m' == m) &&
      (e in m && u.accept(e.src, m[e]) == None ==> code == FAILED && m' == m) &&
      (e !in m && !u.insertable ==> code == FAILED && m' == m) &&
      (HalfUpsert(m, e, u) ==> code == FAILED) &&
      (code == SUCCEEDED <==>
        Admitted(m, e, u) && u.apply(e.src, Lookup(m, e)).Some? && u.apply(e.dst, Lookup(m, Mirror(e))).Some?) &&
      (code == SUCCEEDED ==>
        Lookup(m', e) == u.apply(e.src, Lookup(m, e)) &&
        Lookup(m', Mirror(e)) == u.apply(e.dst, Lookup(m, Mirror(e)))) &&
      forall k :: k != e && k != Mirror(e) ==> Lookup(m', k) == Lookup(m, k)
  {
    assert Mirror(Mirror(e)) == e && Mirror(e) != e;
    assert e in m.Keys <==> Mirror(e) in m.Keys;
    UpdateCodes(m, e, u);
  }

  lemma BothRequests(m: Store, e: Edge, u: Update)
    ensures var (m1, code) := UpdateOne(m, e, u, true);
      UpdateBoth(m, e, u) == if code != SUCCEEDED then (m1, code)
                             else UpdateOne(m1, Edge(e.dst, -e.etype, e.rank, e.src), u, false)
  {
  }

  lemma StillTyped(m: Store, e: Edge, u: Update, types: seq<EdgeType>)
    requires Typed(m, types) && e.etype in types
    ensures Typed(UpdateBoth(m, e, u).0, types)
  {
  }

  // ----- the executors -----

  class Space {
    var edges: Store
    var vertices: set<VertexID>
    const types: seq<EdgeType>

    /** What every completed statement keeps. */
    ghost predicate Valid()
      reads this
    {
      Mirrored(edges.Keys) && Typed(edges, types)
    }

    constructor (types: seq<EdgeType>)
      ensures Valid() && edges == map[] && vertices == {} && this.types == types
    {
      this.types, edges, vertices := types, map[], {};
    }

    /** INSERT EDGE: lines 95-251 of InsertEdgeExecutor.cpp; storage puts the edges in order. The flag goes
        with the request, and storage puts an edge whatever it says. */
    method InsertEdges(rows: seq<Row>, etype: EdgeType, overwritable: bool)
      requires Valid() && etype in types
      modifies this`edges
      ensures Valid() && edges == Execute(old(edges), Statement.InsertEdge(rows, etype)).0
      ensures forall e :: var i := LastNaming(rows, etype, e);
        Lookup(edges, e) == if i < 0 then Lookup(old(edges), e) else Some(rows[i].props)
      ensures old(SameProps(edges)) ==> SameProps(edges)
    {
      var pairs := PrepareEdges(rows, etype);
      InsertedKeeps(edges, rows, etype, types);
      PutPairs(edges, rows, etype);
      ghost var before := edges;
      for i := 0 to |pairs|
        invariant edges == PutAll(before, pairs[..i])
      {
        edges := edges[pairs[i].0 := pairs[i].1];
        assert pairs[..i + 1][..i] == pairs[..i];
      }
      assert pairs[..|pairs|] == pairs;
      forall e
        ensures var i := LastNaming(rows, etype, e);
          Lookup(edges, e) == if i < 0 then Lookup(before, e) else Some(rows[i].props)
      {
        InsertedLookup(before, rows, etype, e);
      }
    }

    /** Lines 102-228 of InsertEdgeExecutor.cpp: an out-edge and an in-edge for each row. */
    method PrepareEdges(rows: seq<Row>, etype: EdgeType) returns (edges: seq<(Edge, Props)>)
      ensures edges == EdgePairs(rows, etype)
    {
      edges := [];
      for i := 0 to |rows|
        invariant edges == EdgePairs(rows[..i], etype)
      {
        var row := rows[i];
        edges := edges + [(Edge(row.src, etype, row.rank, row.dst), row.props)];
        edges := edges + [(Edge(row.dst, -etype, row.rank, row.src), row.props)];
        assert rows[..i + 1][..i] == rows[..i];
      }
      assert rows[..|rows|] == rows;
    }

    /** DELETE EDGE: lines 81-132 of DeleteEdgesExecutor.cpp. */
    method DeleteEdges(keys: seq<Edge>)
      requires Valid()
      modifies this`edges
      ensures Valid() && edges == Execute(old(edges), Statement.DeleteEdge(keys)).0
      ensures forall e ::
        Lookup(edges, e) == if e in keys || Mirror(e) in keys then None else Lookup(old(edges), e)
      ensures old(SameProps(edges)) ==> SameProps(edges)
    {
      hide Mirrored, SameProps, Typed, Without, Lookup;
      var edgeKeys := [];
      for i := 0 to |keys|
        invariant edgeKeys == BothKeys(keys[..i])
      {
        var key := keys[i];
        edgeKeys := edgeKeys + [key];
        edgeKeys := edgeKeys + [Edge(key.dst, -key.etype, key.rank, key.src)];
        assert keys[..i + 1][..i] == keys[..i];
      }
      assert keys[..|keys|] == keys;
      WithoutKeeps(edges, keys, types);
      WithoutLookup(edges, keys);
      edges := Without(edges, edgeKeys);
    }

    /** UPDATE and UPSERT EDGE: lines 205-266 of UpdateEdgeExecutor.cpp. */
    method UpdateEdge(key: Edge, u: Update) returns (code: Code)
      requires Valid() && key.etype in types && key.etype != 0
      modifies this`edges
      ensures (edges, code) == UpdateBoth(old(edges), key, u)
      ensures (edges, code != FAILED) == Execute(old(edges), Statement.UpdateEdge(key, u))
      ensures key in old(edges) && u.accept(key.src, old(edges)[key]) == Some(false) ==>
        code == FILTER_OUT && edges == old(edges)
      ensures key in old(edges) && u.accept(key.src, old(edges)[key]) == None ==> code == FAILED && edges == old(edges)
      ensures key !in old(edges) && !u.insertable ==> code == FAILED && edges == old(edges)
      ensures code == SUCCEEDED <==>
        Admitted(old(edges), key, u) && u.apply(key.src, Lookup(old(edges), key)).Some? &&
        u.apply(key.dst, Lookup(old(edges), Mirror(key))).Some?
      ensures code == SUCCEEDED ==>
        Lookup(edges, key) == u.apply(key.src, Lookup(old(edges), key)) &&
        Lookup(edges, Mirror(key)) == u.apply(key.dst, Lookup(old(edges), Mirror(key)))
      ensures forall k :: k != key && k != Mirror(key) ==> Lookup(edges, k) == Lookup(old(edges), k)
      ensures Valid() <==> !HalfUpsert(old(edges), key, u)
      ensures code != FAILED ==> Valid()
      ensures code == SUCCEEDED && old(SameProps(edges)) ==>
        (SameProps(edges) <==> u.apply(key.src, Lookup(old(edges), key)) == u.apply(key.dst, Lookup(old(edges), key)))
    {
      hide UpdateOne, UpdateBoth, SameProps, Typed;
      StillTyped(edges, key, u, types);
      UpdateMirrors(edges, key, u);
      UpdateOutcome(edges, key, u);
      BothRequests(edges, key, u);
      if SameProps(edges) && UpdateBoth(edges, key, u).1 == SUCCEEDED {
        UpdateProps(edges, key, u);
      }
      var edge := key;
      var r := UpdateOne(edges, edge, u, true);
      edges, code := r.0, r.1;
      if code == SUCCEEDED {
        edge := Edge(edge.dst, -edge.etype, edge.rank, edge.src);
        r := UpdateOne(edges, edge, u, false);
        edges, code := r.0, r.1;
      }
    }

    /** Lines 62-91 of DeleteVerticesExecutor.cpp: every edge type of the space, in both directions. */
    method BothTypes() returns (edgeTypes: seq<EdgeType>)
      ensures forall t: EdgeType :: t in edgeTypes <==> OneOf(types, t)
    {
      edgeTypes := [];
      for i := 0 to |types|
        invariant forall t: EdgeType :: t in edgeTypes <==> OneOf(types[..i], t)
      {
        edgeTypes := edgeTypes + [types[i]];
        edgeTypes := edgeTypes + [-1 * types[i]];
        TypesSnoc(types, i);
      }
      assert types[..|types|] == types;
    }

    /** Lines 109-171 of DeleteVerticesExecutor.cpp: the keys of all edges found, and their mirrored keys. */
    method CollectEdges(resp: seq<VData>) returns (allEdges: seq<Edge>)
      ensures forall e :: e in allEdges <==> Found(resp, e) || Found(resp, Mirror(e))
    {
      allEdges := [];
      for i := 0 to |resp|
        invariant forall e :: e in allEdges <==> Found(resp[..i], e) || Found(resp[..i], Mirror(e))
      {
        ghost var before := allEdges;
        var edges := resp[i].edges;
        for j := 0 to |edges|
          invariant forall e :: e in allEdges <==> e in before || e in edges[..j] || Mirror(e) in edges[..j]
        {
          var key := edges[j];
          allEdges := allEdges + [key];
          allEdges := allEdges + [Edge(key.dst, -1 * key.etype, key.rank, key.src)];
          MirrorOf(key);
          assert edges[..j + 1] == edges[..j] + [key];
        }
        assert edges[..|edges|] == edges;
        FoundSnoc(resp, i);
      }
      assert resp[..|resp|] == resp;
    }

    /** DELETE VERTEX: lines 44-231 of DeleteVerticesExecutor.cpp. neighbors is the storage service. */
    method DeleteVertices(vids: seq<VertexID>, neighbors: (seq<VertexID>, seq<EdgeType>) -> seq<VData>)
      requires Valid()
      requires forall vs, ts :: Answers(OfTypes(edges, ts), vs, neighbors(vs, ts))
      modifies this`edges, this`vertices
      ensures Valid() && vertices == old(vertices) - set v | v in vids
      ensures edges == Execute(old(edges), Statement.DeleteVertex(vids)).0
      ensures forall e ::
        Lookup(edges, e) == if e.src in vids || e.dst in vids then None else Lookup(old(edges), e)
      ensures old(SameProps(edges)) ==> SameProps(edges)
    {
      hide Without, WithoutVertices, Mirrored, SameProps, Typed, Answers, OfTypes, Lookup, Found;
      var edgeTypes := BothTypes();
      var resp := neighbors(vids, edgeTypes);
      var allEdges := CollectEdges(resp);
      WithoutVerticesKeeps(edges, vids, types);
      FoundAll(edges, types, edgeTypes, vids, resp);
      Collected(edges, vids, resp, allEdges);
      if |allEdges| > 0 {
        edges := Without(edges, allEdges);
      }
      vertices := vertices - set v | v in vids;
    }
  }

  lemma TypesSnoc(types: seq<EdgeType>, i: nat)
    requires i < |types|
    ensures forall t: EdgeType :: OneOf(types[..i + 1], t) <==> OneOf(types[..i], t) || t == types[i] || t == -types[i]
  {
    var longer, front := types[..i + 1], types[..i];
    assert longer == front + [types[i]];
    forall t: EdgeType
      ensures OneOf(longer, t) <==> OneOf(front, t) || t == types[i] || t == -types[i]
    {
      assert t in longer <==> t in front || t == types[i];
      assert -t in longer <==> -t in front || -t == types[i];
    }
  }

  lemma MirrorOf(key: Edge)
    ensures Mirror(key) == Edge(key.dst, -1 * key.etype, key.rank, key.src)
    ensures forall e :: e == Mirror(key) <==> Mirror(e) == key
  {
    assert Mirror(Mirror(key)) == key;
    forall e | Mirror(e) == key
      ensures e == Mirror(key)
    {
      assert Mirror(Mirror(e)) == e;
    }
  }

  function OfTypes(m: Store, types: seq<EdgeType>): Edges {
    set e | e in m && e.etype in types
  }

  ghost predicate Found(resp: seq<VData>, e: Edge) {
    exists i :: 0 <= i < |resp| && e in resp[i].edges
  }

  lemma FoundSnoc(resp: seq<VData>, i: nat)
    requires i < |resp|
    ensures forall e :: Found(resp[..i + 1], e) <==> Found(resp[..i], e) || e in resp[i].edges
  {
    var longer := resp[..i + 1];
    forall e: Edge
      ensures Found(longer, e) <==> Found(resp[..i], e) || e in resp[i].edges
    {
      assert longer[i] == resp[i];
      if Found(resp[..i], e) {
        var k :| 0 <= k < i && e in resp[..i][k].edges;
        assert longer[k] == resp[..i][k];
      }
    }
  }

  /** The answer for all types lists exactly the stored edges out of the vertices. */
  lemma FoundAll(m: Store, types: seq<EdgeType>, edgeTypes: seq<EdgeType>, vids: seq<VertexID>, resp: seq<VData>)
    requires Typed(m, types) && (forall t: EdgeType :: t in edgeTypes <==> OneOf(types, t))
    requires Answers(OfTypes(m, edgeTypes), vids, resp)
    ensures forall e :: Found(resp, e) <==> e in m && e.src in vids
  {
    forall e: Edge
      ensures Found(resp, e) <==> e in m && e.src in vids
    {
      if e in m && e.src in vids {
        assert e in OfTypes(m, edgeTypes);
        var i :| Lists(resp, i, e);
      }
      if Found(resp, e) {
        var i :| 0 <= i < |resp| && e in resp[i].edges;
        var j :| 0 <= j < |resp[i].edges| && resp[i].edges[j] == e;
      }
    }
  }

  lemma Collected(m: Store, vids: seq<VertexID>, resp: seq<VData>, allEdges: seq<Edge>)
    requires forall e :: Found(resp, e) <==> e in m && e.src in vids
    requires forall e :: e in allEdges <==> Found(resp, e) || Found(resp, Mirror(e))
    ensures Without(m, allEdges) == WithoutVertices(m, vids)
    ensures allEdges == [] ==> Without(m, allEdges) == m
  {
    hide Found;
    forall e | e in m
      ensures e in allEdges <==> e.src in vids || (e.dst in vids && Mirror(e) in m)
    {
      assert Mirror(e).src == e.dst;
    }
  }

  // ----- runs -----

  datatype Statement =
    | InsertEdge(rows: seq<Row>, etype: EdgeType)
    | DeleteEdge(keys: seq<Edge>)
    | UpdateEdge(key: Edge, update: Update)
    | DeleteVertex(vids: seq<VertexID>)

  /** The store after a statement and whether the statement completed. */
  function Execute(m: Store, s: Statement): (Store, bool) {
    match s
    case InsertEdge(rows, etype) => (Inserted(m, rows, etype), true)
    case DeleteEdge(keys) => (Without(m, BothKeys(keys)), true)
    case UpdateEdge(key, update) => (UpdateBoth(m, key, update).0, UpdateBoth(m, key, update).1 != FAILED)
    case DeleteVertex(vids) => (WithoutVertices(m, vids), true)
  }

  function Run(statements: seq<Statement>): (Store, bool) {
    if statements == [] then (map[], true)
    else
      var (m, done) := Run(statements[..|statements| - 1]);
      var (m', done') := Execute(m, statements[|statements| - 1]);
      (m', done && done')
  }

  /** The statement names the edge, in either direction, or one of its ends. */
  ghost predicate Touches(s: Statement, e: Edge) {
    match s
    case InsertEdge(rows, etype) => exists i :: 0 <= i < |rows| && Names(rows[i], etype, e)
    case DeleteEdge(keys) => e in keys || Mirror(e) in keys
    case UpdateEdge(key, _) => e == key || e == Mirror(key)
    case DeleteVertex(vids) => e.src in vids || e.dst in vids
  }

  lemma UntouchedKeeps(m: Store, s: Statement, e: Edge)
    requires !Touches(s, e) && TypesNonzero(s)
    ensures Lookup(Execute(m, s).0, e) == Lookup(m, e)
  {
    match s
    case InsertEdge(rows, etype) => InsertedLookup(m, rows, etype, e);
    case DeleteEdge(keys) => WithoutLookup(m, keys);
    case UpdateEdge(key, u) => UpdateLookup(m, key, u, e);
    case DeleteVertex(vids) =>
  }

  /** What a completed statement makes of an edge it touches. */
  ghost predicate Leaves(m: Store, s: Statement, e: Edge, now: Option<Props>) {
    match s
    case InsertEdge(rows, etype) =>
      var i := LastNaming(rows, etype, e); i >= 0 && now == Some(rows[i].props)
    case DeleteEdge(_) => now == None
    case UpdateEdge(key, u) =>
      now == if Admitted(m, key, u) then u.apply(e.src, Lookup(m, e)) else Lookup(m, e)
    case DeleteVertex(_) => now == None
  }

  lemma TouchedLeaves(m: Store, s: Statement, e: Edge)
    requires Touches(s, e) && TypesNonzero(s) && Mirrored(m.Keys) && Execute(m, s).1
    ensures Leaves(m, s, e, Lookup(Execute(m, s).0, e))
  {
    match s
    case InsertEdge(rows, etype) => InsertedLookup(m, rows, etype, e);
    case DeleteEdge(keys) => WithoutLookup(m, keys);
    case UpdateEdge(key, u) =>
      UpdateCodes(m, key, u);
      UpdateOutcome(m, key, u);
      UpdateLookup(m, key, u, e);
    case DeleteVertex(vids) => WithoutVerticesKeeps(m, vids, []);
  }

  /** A completed run was completed all along, and what its later statements do not touch stays. */
  lemma {:induction false} RunPrefix(statements: seq<Statement>, n: nat, e: Edge)
    requires n <= |statements| && Run(statements).1
    requires forall i :: 0 <= i < |statements| ==> TypesNonzero(statements[i])
    requires forall i :: n <= i < |statements| ==> !Touches(statements[i], e)
    ensures Run(statements[..n]).1 && Lookup(Run(statements).0, e) == Lookup(Run(statements[..n]).0, e)
    decreases |statements|
  {
    hide Execute, Touches, TypesNonzero;
    if n == |statements| {
      assert statements[..n] == statements;
    } else {
      var front := statements[..|statements| - 1];
      RunPrefix(front, n, e);
      assert front[..n] == statements[..n];
      UntouchedKeeps(Run(front).0, statements[|statements| - 1], e);
    }
  }

  /** After every completed run an edge is what the last statement that touched it made of it, and
      absent if there was none. */
  lemma RunLookup(statements: seq<Statement>, n: nat, e: Edge)
    requires Run(statements).1 && n <= |statements|
    requires forall i :: 0 <= i < |statements| ==> TypesNonzero(statements[i])
    requires forall i :: n <= i < |statements| ==> !Touches(statements[i], e)
    ensures n == 0 ==> Lookup(Run(statements).0, e) == None
    ensures n > 0 && Touches(statements[n - 1], e) ==>
      Leaves(Run(statements[..n - 1]).0, statements[n - 1], e, Lookup(Run(statements).0, e))
  {
    hide Execute, Touches, TypesNonzero, Leaves, Mirrored;
    RunPrefix(statements, n, e);
    if n > 0 && Touches(statements[n - 1], e) {
      var some, before, s := statements[..n], statements[..n - 1], statements[n - 1];
      assert some[..n - 1] == before && some[n - 1] == s;
      RunMirrored(before);
      TouchedLeaves(Run(before).0, s, e);
    }
  }

  predicate TypesNonzero(s: Statement) {
    match s
    case InsertEdge(_, etype) => etype != 0
    case UpdateEdge(key, _) => key.etype != 0
    case _ => true
  }

  /** An update that does not look at the source vertex. */
  ghost predicate Symmetric(s: Statement) {
    s.UpdateEdge? ==> forall u, v, p :: s.update.apply(u, p) == s.update.apply(v, p)
  }

  /** Over every run of completed statements the store is mirrored, and both directions of an
      edge agree if no update depends on the source vertex. */
  lemma {:induction false} RunMirrored(statements: seq<Statement>)
    requires Run(statements).1
    requires forall i :: 0 <= i < |statements| ==> TypesNonzero(statements[i])
    ensures Mirrored(Run(statements).0.Keys)
    ensures (forall i :: 0 <= i < |statements| ==> Symmetric(statements[i])) ==> SameProps(Run(statements).0)
  {
    if statements != [] {
      var front, s := statements[..|statements| - 1], statements[|statements| - 1];
      RunMirrored(front);
      var m := Run(front).0;
      match s
      case InsertEdge(rows, etype) => InsertedKeeps(m, rows, etype, [etype]);
      case DeleteEdge(keys) => WithoutKeeps(m, keys, []);
      case UpdateEdge(key, update) =>
        UpdateMirrors(m, key, update);
        if SameProps(m) && Symmetric(s) {
          SymmetricUpdate(m, s);
        }
      case DeleteVertex(vids) => WithoutVerticesKeeps(m, vids, []);
    }
  }

  lemma SymmetricUpdate(m: Store, s: Statement)
    requires s.UpdateEdge? && Symmetric(s) && TypesNonzero(s) && Execute(m, s).1
    requires Mirrored(m.Keys) && SameProps(m)
    ensures SameProps(Execute(m, s).0)
  {
    if UpdateBoth(m, s.key, s.update).1 == SUCCEEDED {
      UpdateProps(m, s.key, s.update);
    }
  }
}
