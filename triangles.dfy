/** The triangle mesh of TriangleMesh.cpp: its element table, the edge
    table `collect_edges` derives from it, and the vertex->triangle lists of
    `find_vertex_trangle_connection`. */
module Triangles {
  import opened Tables
  import opened Discovery
  import opened Incidence


  /** Capacity of one vertex's edge bucket (`max_nedge_each_vertex`). */
  const MaxEdgesPerVertex: nat := 100

  /** The sorted vertex pair `(start, end)` of an edge. */
  type EdgeKey = (nat, nat)

  /** The tuple `collect_edges` keeps per edge: its key, the first triangle
      that met it and the last later one (`nTriangle + 1` when none did). */
  datatype EdgeRecord = EdgeRecord(start: nat, end: nat, owner: nat, neighbour: nat)

  /** Slot `j` of triangle `i` joins corners `j` and `(j + 1) % 3`; its key
      is that vertex pair, smaller vertex first. */
  function EdgeKeyOf(tri: seq<seq<nat>>, n: nat, i: nat, j: nat): (k: EdgeKey)
    requires Columns(tri, 3, n) && i < n && j < 3
    ensures k.0 <= k.1
    ensures k == (tri[j][i], tri[(j + 1) % 3][i]) || k == (tri[(j + 1) % 3][i], tri[j][i])
  {
    var a, b := tri[j][i], tri[(j + 1) % 3][i];
    (if a > b then b else a, if a < b then b else a)
  }

  /** The keys of the three slots of triangle `i`, slot 0 first. */
  function SlotKeys(tri: seq<seq<nat>>, n: nat, i: nat): seq<EdgeKey>
    requires Columns(tri, 3, n) && i < n
  {
    [EdgeKeyOf(tri, n, i, 0), EdgeKeyOf(tri, n, i, 1), EdgeKeyOf(tri, n, i, 2)]
  }

  /** The keys of every slot of triangles `0 .. m-1`, in the order the
      builder meets them: triangle by triangle, slots 0, 1, 2. */
  function EdgeKeys(tri: seq<seq<nat>>, n: nat, m: nat): (ks: seq<EdgeKey>)
    requires Columns(tri, 3, n) && m <= n
    ensures |ks| == 3 * m
  {
    if m == 0 then [] else EdgeKeys(tri, n, m - 1) + SlotKeys(tri, n, m - 1)
  }

  /** Slot `3 * i + j` of the run is slot `j` of triangle `i`. */
  lemma {:induction false} EdgeKeysAt(tri: seq<seq<nat>>, n: nat, m: nat, i: nat, j: nat)
    requires Columns(tri, 3, n) && i < m <= n && j < 3
    ensures EdgeKeys(tri, n, m)[3 * i + j] == EdgeKeyOf(tri, n, i, j)
    decreases m
  {
    if i < m - 1 {
      EdgeKeysAt(tri, n, m - 1, i, j);
    }
  }

  /** The record the builder holds for key `k` once the slots `ks` are met. */
  function RecordOf(ks: seq<EdgeKey>, k: EdgeKey, n: nat): EdgeRecord
    requires k in ks
  {
    EdgeRecord(k.0, k.1, Owner(ks, k, 3), Neighbour(ks, k, 3, n + 1))
  }

  /** Numbers of the keys in `d` whose smaller vertex is `v`, in increasing
      order: the contents of the bucket `localedge[0 .. nlocaledge[v]-1][v]`. */
  function BucketOf(d: seq<EdgeKey>, v: nat): seq<nat>
    decreases |d|
  {
    if d == [] then []
    else BucketOf(d[..|d| - 1], v) + (if d[|d| - 1].0 == v then [|d| - 1] else [])
  }

  /** A bucket lists exactly the numbers of the keys starting at its vertex. */
  lemma {:induction false} BucketMembers(d: seq<EdgeKey>, v: nat)
    ensures forall e: nat :: e in BucketOf(d, v) <==> e < |d| && d[e].0 == v
    decreases |d|
  {
    if d != [] {
      BucketMembers(d[..|d| - 1], v);
    }
  }

  /** Every vertex below `nVertex` is the smaller end of fewer than
      `MaxEdgesPerVertex` of the keys in `d`. */
  ghost predicate Fits(d: seq<EdgeKey>, nVertex: nat)
  {
    forall v :: 0 <= v < nVertex ==> |BucketOf(d, v)| < MaxEdgesPerVertex
  }

  /** No bucket of the whole run reaches capacity: exactly when the
      capacity assertion never fires. */
  ghost predicate BucketsFit(tri: seq<seq<nat>>, n: nat, nVertex: nat)
    requires Columns(tri, 3, n)
  {
    Fits(Distinct(EdgeKeys(tri, n, n)), nVertex)
  }

  /** The edge records after the slots `seen` are met. */
  ghost predicate Recorded(seen: seq<EdgeKey>, edges: seq<EdgeRecord>, n: nat)
  {
    && |edges| == |Distinct(seen)|
    && forall e {:trigger RecordOf(seen, Distinct(seen)[e], n)} :: 0 <= e < |edges| ==>
         edges[e] == RecordOf(seen, Distinct(seen)[e], n)
  }

  lemma {:induction false} RecordedAt(seen: seq<EdgeKey>, edges: seq<EdgeRecord>, n: nat, e: nat)
    requires Recorded(seen, edges, n) && e < |edges|
    ensures edges[e] == RecordOf(seen, Distinct(seen)[e], n)
  {
  }

  /** Slot `j` of triangle `i` is mapped to the edge whose key is its own. */
  ghost predicate SlotMapped(tri: seq<seq<nat>>, n: nat, conn: seq<seq<nat>>, edges: seq<EdgeRecord>, i: nat, j: nat)
    requires Columns(tri, 3, n) && Columns(conn, 3, n) && i < n && j < 3
  {
    conn[j][i] < |edges| && (edges[conn[j][i]].start, edges[conn[j][i]].end) == EdgeKeyOf(tri, n, i, j)
  }

  /** Every slot met before slot `j` of triangle `i` is mapped. */
  ghost predicate MappedBefore(tri: seq<seq<nat>>, n: nat, conn: seq<seq<nat>>, edges: seq<EdgeRecord>, i: nat, j: nat)
    requires Columns(tri, 3, n) && Columns(conn, 3, n)
  {
    forall i', j' :: 0 <= i' < n && 0 <= j' < 3 && (i' < i || (i' == i && j' < j)) ==>
      SlotMapped(tri, n, conn, edges, i', j')
  }

  /** Registering slot `j` of triangle `i` keeps the earlier slots mapped. */
  lemma {:induction false} MappedStep(tri: seq<seq<nat>>, n: nat, conn: seq<seq<nat>>, edges: seq<EdgeRecord>,
                   conn': seq<seq<nat>>, edges': seq<EdgeRecord>, i: nat, j: nat)
    requires Columns(tri, 3, n) && Columns(conn, 3, n) && Columns(conn', 3, n) && i < n && j < 3
    requires MappedBefore(tri, n, conn, edges, i, j)
    requires |edges| <= |edges'|
    requires forall c :: 0 <= c < |edges| ==> edges'[c].start == edges[c].start && edges'[c].end == edges[c].end
    requires forall i', j' :: 0 <= i' < n && 0 <= j' < 3 && (i' != i || j' != j) ==> conn'[j'][i'] == conn[j'][i']
    requires SlotMapped(tri, n, conn', edges', i, j)
    ensures MappedBefore(tri, n, conn', edges', i, j + 1)
    ensures j == 2 ==> MappedBefore(tri, n, conn', edges', i + 1, 0)
  {
    forall i', j' | 0 <= i' < n && 0 <= j' < 3 && (i' < i || (i' == i && j' < j))
      ensures SlotMapped(tri, n, conn', edges', i', j')
    {
      assert SlotMapped(tri, n, conn, edges, i', j');
    }
  }

  /** What the first pass (TriangleMesh.cpp:146-170) leaves: one record per
      distinct key in order of first discovery, and every slot of every
      triangle mapped to the edge carrying its key. */
  ghost predicate EdgeTable(tri: seq<seq<nat>>, n: nat, edges: seq<EdgeRecord>, conn: seq<seq<nat>>)
    requires Columns(tri, 3, n)
  {
    && Recorded(EdgeKeys(tri, n, n), edges, n)
    && Columns(conn, 3, n)
    && forall i, j :: 0 <= i < n && 0 <= j < 3 ==> SlotMapped(tri, n, conn, edges, i, j)
  }

  /** The buckets (`localedge[..][v]`, with `nlocaledge[v]` entries) list,
      per vertex, the numbers of the keys of `d` whose smaller vertex it is,
      and stay below capacity. */
  ghost predicate BucketsHold(d: seq<EdgeKey>, localEdge: seq<seq<nat>>, nVertex: nat)
  {
    && |localEdge| == nVertex
    && (forall v {:trigger BucketOf(d, v)} :: 0 <= v < nVertex ==> localEdge[v] == BucketOf(d, v))
    && Fits(d, nVertex)
  }

  lemma {:induction false} BucketAt(d: seq<EdgeKey>, localEdge: seq<seq<nat>>, nVertex: nat, v: nat)
    requires BucketsHold(d, localEdge, nVertex) && v < nVertex
    ensures localEdge[v] == BucketOf(d, v) && |localEdge[v]| < MaxEdgesPerVertex
  {
  }

  lemma {:induction false} BucketSnoc(d: seq<EdgeKey>, k: EdgeKey, v: nat)
    ensures BucketOf(d + [k], v) == BucketOf(d, v) + (if k.0 == v then [|d|] else [])
  {
    assert (d + [k])[..|d|] == d;
  }

  /** Buckets other than the new key's keep their sizes. */
  lemma {:induction false} FitsSnoc(d: seq<EdgeKey>, k: EdgeKey, nVertex: nat)
    requires Fits(d, nVertex) && |BucketOf(d + [k], k.0)| < MaxEdgesPerVertex
    ensures Fits(d + [k], nVertex)
  {
    forall v | 0 <= v < nVertex
      ensures |BucketOf(d + [k], v)| < MaxEdgesPerVertex
    {
      BucketSnoc(d, k, v);
    }
  }

  lemma {:induction false} EdgeKeysPrefix(tri: seq<seq<nat>>, n: nat, m: nat, m': nat)
    requires Columns(tri, 3, n) && m <= m' <= n
    ensures EdgeKeys(tri, n, m) <= EdgeKeys(tri, n, m')
    decreases m' - m
  {
    if m < m' {
      EdgeKeysPrefix(tri, n, m, m' - 1);
    }
  }

  lemma {:induction false} SlotKeysStep(tri: seq<seq<nat>>, n: nat, i: nat, j: nat)
    requires Columns(tri, 3, n) && i < n && j < 3
    ensures SlotKeys(tri, n, i)[..j + 1] == SlotKeys(tri, n, i)[..j] + [EdgeKeyOf(tri, n, i, j)]
  {
  }

  /** The slots met up to and including slot `j` of triangle `i` are a
      prefix of all slots. */
  lemma {:induction false} SlotsMetPrefix(tri: seq<seq<nat>>, n: nat, i: nat, j: nat)
    requires Columns(tri, 3, n) && i < n && j < 3
    ensures var all := EdgeKeys(tri, n, n);
      var met := EdgeKeys(tri, n, i) + SlotKeys(tri, n, i)[..j] + [EdgeKeyOf(tri, n, i, j)];
      |met| <= |all| && all[..|met|] == met
  {
    var met := EdgeKeys(tri, n, i) + SlotKeys(tri, n, i)[..j] + [EdgeKeyOf(tri, n, i, j)];
    EdgeKeysPrefix(tri, n, i + 1, n);
    SlotKeysStep(tri, n, i, j);
    assert EdgeKeys(tri, n, i + 1) == EdgeKeys(tri, n, i) + SlotKeys(tri, n, i);
    assert met <= EdgeKeys(tri, n, i + 1);
  }

  lemma {:induction false} BucketPrefix(d0: seq<EdgeKey>, d: seq<EdgeKey>, v: nat)
    requires d0 <= d
    ensures |BucketOf(d0, v)| <= |BucketOf(d, v)|
    decreases |d|
  {
    if |d0| < |d| {
      assert d0 <= d[..|d| - 1];
      BucketPrefix(d0, d[..|d| - 1], v);
    } else {
      assert d0 == d;
    }
  }

  /** A slot whose key was met before: the records keep their numbers and
      the matched edge's neighbour becomes the current triangle. */
  lemma {:induction false} FoundStep(seen: seq<EdgeKey>, edges: seq<EdgeRecord>, n: nat, id: nat, i: nat)
    requires Recorded(seen, edges, n) && id < |edges| && i == |seen| / 3
    ensures Distinct(seen + [Distinct(seen)[id]]) == Distinct(seen)
    ensures Recorded(seen + [Distinct(seen)[id]], edges[id := edges[id].(neighbour := i)], n)
  {
    var d := Distinct(seen);
    var k := d[id];
    DistinctSnoc(seen, k);
    forall e | 0 <= e < |edges|
      ensures edges[id := edges[id].(neighbour := i)][e] == RecordOf(seen + [k], d[e], n)
    {
      RecordedAt(seen, edges, n, e);
      FirstIndexSnoc(seen, k, d[e]);
      LastIndexSnoc(seen, k, d[e]);
      if e != id {
        assert d[e] != k;
      }
    }
  }

  /** A slot whose key is new: it gets the next number, the current triangle
      as owner and the sentinel as neighbour. */
  lemma {:induction false} NewStep(seen: seq<EdgeKey>, edges: seq<EdgeRecord>, n: nat, k: EdgeKey, i: nat)
    requires Recorded(seen, edges, n) && k !in seen && i == |seen| / 3
    ensures Distinct(seen + [k]) == Distinct(seen) + [k]
    ensures Recorded(seen + [k], edges + [EdgeRecord(k.0, k.1, i, n + 1)], n)
  {
    var d := Distinct(seen);
    DistinctSnoc(seen, k);
    forall e | 0 <= e < |edges| + 1
      ensures (edges + [EdgeRecord(k.0, k.1, i, n + 1)])[e] == RecordOf(seen + [k], (d + [k])[e], n)
    {
      if e < |edges| {
        RecordedAt(seen, edges, n, e);
        FirstIndexSnoc(seen, k, d[e]);
        LastIndexSnoc(seen, k, d[e]);
      } else {
        assert (seen + [k])[|seen|] == k;
        LastIndexSnoc(seen, k, k);
      }
    }
  }

  /** The bucket scan of TriangleMesh.cpp:152-159: the first position `k`
      in `bucket` (the edges whose smaller vertex is `start`) whose edge
      ends at `end`, or the bucket's size when none does. */
  method FindEdge(edges: seq<EdgeRecord>, bucket: seq<nat>, end: nat) returns (k: nat)
    requires forall x :: 0 <= x < |bucket| ==> bucket[x] < |edges|
    ensures k <= |bucket|
    ensures k < |bucket| ==> edges[bucket[k]].end == end
    ensures forall x :: 0 <= x < k ==> edges[bucket[x]].end != end
  {
    k := 0;
    while k < |bucket|
      invariant k <= |bucket|
      invariant forall x :: 0 <= x < k ==> edges[bucket[x]].end != end
    {
      if edges[bucket[k]].end == end {
        return;
      }
      k := k + 1;
    }
  }

  /** What registering slot `j` of triangle `i` leaves: the records of the
      slots met so far plus this one, the earlier edges keeping their keys,
      this slot mapped and no other slot touched, and the buckets either
      up to date or (`full`) the bucket of the slot's smaller vertex at
      capacity. */
  ghost predicate SlotRegistered(tri: seq<seq<nat>>, n: nat, nVertex: nat, i: nat, j: nat, seen: seq<EdgeKey>,
                                 edges: seq<EdgeRecord>, conn: seq<seq<nat>>,
                                 full: bool, edges': seq<EdgeRecord>, conn': seq<seq<nat>>, localEdge': seq<seq<nat>>)
    requires Columns(tri, 3, n) && Columns(conn, 3, n) && i < n && j < 3
  {
    var key := EdgeKeyOf(tri, n, i, j);
    && Recorded(seen + [key], edges', n)
    && |edges| <= |edges'|
    && (forall c :: 0 <= c < |edges| ==> edges'[c].start == edges[c].start && edges'[c].end == edges[c].end)
    && Columns(conn', 3, n)
    && SlotMapped(tri, n, conn', edges', i, j)
    && (forall i', j' :: 0 <= i' < n && 0 <= j' < 3 && (i' != i || j' != j) ==> conn'[j'][i'] == conn[j'][i'])
    && (!full ==> BucketsHold(Distinct(seen + [key]), localEdge', nVertex))
    && (full ==> |BucketOf(Distinct(seen + [key]), key.0)| >= MaxEdgesPerVertex)
  }

  /** The slot's key is the one of edge `id`: that edge takes triangle `i`
      as its neighbour and the slot is mapped to it. */
  lemma {:induction false} MatchedSlot(tri: seq<seq<nat>>, n: nat, nVertex: nat, i: nat, j: nat, seen: seq<EdgeKey>,
                    edges: seq<EdgeRecord>, conn: seq<seq<nat>>, localEdge: seq<seq<nat>>, id: nat)
    requires Columns(tri, 3, n) && Columns(conn, 3, n) && i < n && j < 3 && |seen| == 3 * i + j
    requires Recorded(seen, edges, n) && BucketsHold(Distinct(seen), localEdge, nVertex)
    requires id < |edges| && edges[id].start == EdgeKeyOf(tri, n, i, j).0 && edges[id].end == EdgeKeyOf(tri, n, i, j).1
    ensures var row: seq<nat> := conn[j][i := id];
      SlotRegistered(tri, n, nVertex, i, j, seen, edges, conn,
                     false, edges[id := edges[id].(neighbour := i)], conn[j := row], localEdge)
  {
    RecordedAt(seen, edges, n, id);
    FoundStep(seen, edges, n, id, i);
    ColumnsUpdate(conn, 3, n, j, i, id);
  }

  /** A key whose bucket holds no edge with its larger vertex was not met. */
  lemma {:induction false} KeyIsNew(seen: seq<EdgeKey>, edges: seq<EdgeRecord>, n: nat, localEdge: seq<seq<nat>>, nVertex: nat, key: EdgeKey)
    requires Recorded(seen, edges, n) && BucketsHold(Distinct(seen), localEdge, nVertex) && key.0 < nVertex
    requires forall x :: 0 <= x < |localEdge[key.0]| ==>
      localEdge[key.0][x] < |edges| && edges[localEdge[key.0][x]].end != key.1
    ensures key !in seen
  {
    var d := Distinct(seen);
    if key in seen {
      DistinctCovers(seen, key);
      var e :| 0 <= e < |d| && d[e] == key;
      BucketMembers(d, key.0);
      var x :| 0 <= x < |localEdge[key.0]| && localEdge[key.0][x] == e;
      RecordedAt(seen, edges, n, e);
    }
  }

  /** A new key joins the bucket of its smaller vertex, as the next number;
      either every bucket stays below capacity or that one reaches it. */
  lemma {:induction false} AppendedBuckets(seen: seq<EdgeKey>, localEdge: seq<seq<nat>>, nVertex: nat, key: EdgeKey)
    requires BucketsHold(Distinct(seen), localEdge, nVertex) && key !in seen && key.0 < nVertex
    ensures var entry: seq<nat> := [|Distinct(seen)|];
      var localEdge' := localEdge[key.0 := localEdge[key.0] + entry];
      var full := |localEdge'[key.0]| >= MaxEdgesPerVertex;
      && (!full ==> BucketsHold(Distinct(seen + [key]), localEdge', nVertex))
      && (full ==> |BucketOf(Distinct(seen + [key]), key.0)| >= MaxEdgesPerVertex)
  {
    var d := Distinct(seen);
    DistinctSnoc(seen, key);
    var entry: seq<nat> := [|d|];
    var localEdge' := localEdge[key.0 := localEdge[key.0] + entry];
    forall v | 0 <= v < nVertex
      ensures localEdge'[v] == BucketOf(d + [key], v)
    {
      BucketAt(d, localEdge, nVertex, v);
      BucketSnoc(d, key, v);
    }
    if |localEdge'[key.0]| < MaxEdgesPerVertex {
      FitsSnoc(d, key, nVertex);
    }
  }

  /** No edge in the bucket of the slot's smaller vertex has its larger
      vertex: the key is new, becomes edge `|edges|` owned by triangle `i`,
      and joins that bucket. */
  lemma {:induction false} AppendedSlot(tri: seq<seq<nat>>, n: nat, nVertex: nat, i: nat, j: nat, seen: seq<EdgeKey>,
                     edges: seq<EdgeRecord>, conn: seq<seq<nat>>, localEdge: seq<seq<nat>>)
    requires Columns(tri, 3, n) && Columns(conn, 3, n) && i < n && j < 3 && |seen| == 3 * i + j
    requires Recorded(seen, edges, n) && BucketsHold(Distinct(seen), localEdge, nVertex)
    requires EdgeKeyOf(tri, n, i, j) !in seen && EdgeKeyOf(tri, n, i, j).0 < nVertex
    ensures var key := EdgeKeyOf(tri, n, i, j);
      var entry: seq<nat> := [|edges|];
      var localEdge' := localEdge[key.0 := localEdge[key.0] + entry];
      var row: seq<nat> := conn[j][i := |edges|];
      SlotRegistered(tri, n, nVertex, i, j, seen, edges, conn,
                     |localEdge'[key.0]| >= MaxEdgesPerVertex, edges + [EdgeRecord(key.0, key.1, i, n + 1)],
                     conn[j := row], localEdge')
  {
    var key := EdgeKeyOf(tri, n, i, j);
    NewStep(seen, edges, n, key, i);
    AppendedBuckets(seen, localEdge, nVertex, key);
    ColumnsUpdate(conn, 3, n, j, i, |edges|);
  }

  /** One slot of the first pass (TriangleMesh.cpp:148-168): slot `j` of
      triangle `i` is looked up in the bucket of its smaller vertex and
      either matched to a known edge, which takes `i` as neighbour, or
      appended as a new edge owned by `i`. `full` reports that the bucket
      reached its capacity, where the assertion at line 167 aborts. */
  method RegisterSlot(tri: seq<seq<nat>>, nTriangle: nat, nVertex: nat, i: nat, j: nat, ghost seen: seq<EdgeKey>,
                      edges: seq<EdgeRecord>, conn: seq<seq<nat>>, nEdge: nat, localEdge: seq<seq<nat>>)
    returns (full: bool, edges': seq<EdgeRecord>, conn': seq<seq<nat>>, nEdge': nat, localEdge': seq<seq<nat>>)
    requires Columns(tri, 3, nTriangle) && i < nTriangle && j < 3 && |seen| == 3 * i + j
    requires tri[j][i] < nVertex && tri[(j + 1) % 3][i] < nVertex
    requires Recorded(seen, edges, nTriangle) && nEdge == |edges| && Columns(conn, 3, nTriangle)
    requires BucketsHold(Distinct(seen), localEdge, nVertex)
    ensures SlotRegistered(tri, nTriangle, nVertex, i, j, seen, edges, conn, full, edges', conn', localEdge')
    ensures nEdge' == |edges'|
  {
    var a, b := tri[j][i], tri[(j + 1) % 3][i];
    var start := if a > b then b else a;
    var end := if a < b then b else a;
    assert (start, end) == EdgeKeyOf(tri, nTriangle, i, j);
    BucketMembers(Distinct(seen), start);
    assert forall x :: 0 <= x < |localEdge[start]| ==> localEdge[start][x] in BucketOf(Distinct(seen), start);
    var k := FindEdge(edges, localEdge[start], end);
    if k < |localEdge[start]| {
      // the edge exists: the current triangle becomes its neighbour
      var id := localEdge[start][k];
      RecordedAt(seen, edges, nTriangle, id);
      MatchedSlot(tri, nTriangle, nVertex, i, j, seen, edges, conn, localEdge, id);
      full := false;
      edges' := edges[id := edges[id].(neighbour := i)];
      conn' := conn[j := conn[j][i := id]];
      nEdge', localEdge' := nEdge, localEdge;
    } else {
      // the edge is new
      KeyIsNew(seen, edges, nTriangle, localEdge, nVertex, (start, end));
      AppendedSlot(tri, nTriangle, nVertex, i, j, seen, edges, conn, localEdge);
      edges' := edges + [EdgeRecord(start, end, i, nTriangle + 1)];
      localEdge' := localEdge[start := localEdge[start] + [nEdge]];
      conn' := conn[j := conn[j][i := localEdge'[start][k]]];
      nEdge' := nEdge + 1;
      full := |localEdge'[start]| >= MaxEdgesPerVertex;
    }
  }

  /** A bucket that reaches capacity while the slots up to slot `j` of
      triangle `i` are met stays at or above it for the whole run. */
  lemma {:induction false} Overflow(tri: seq<seq<nat>>, n: nat, nVertex: nat, i: nat, j: nat)
    requires Columns(tri, 3, n) && i < n && j < 3 && EdgeKeyOf(tri, n, i, j).0 < nVertex
    requires var met := EdgeKeys(tri, n, i) + SlotKeys(tri, n, i)[..j] + [EdgeKeyOf(tri, n, i, j)];
      |BucketOf(Distinct(met), EdgeKeyOf(tri, n, i, j).0)| >= MaxEdgesPerVertex
    ensures !BucketsFit(tri, n, nVertex)
  {
    var all := EdgeKeys(tri, n, n);
    var met := EdgeKeys(tri, n, i) + SlotKeys(tri, n, i)[..j] + [EdgeKeyOf(tri, n, i, j)];
    SlotsMetPrefix(tri, n, i, j);
    DistinctPrefix(all, |met|);
    BucketPrefix(Distinct(met), Distinct(all), EdgeKeyOf(tri, n, i, j).0);
  }

  /** The three slots of triangle `i` (the inner loop at
      TriangleMesh.cpp:148-169), stopping at the first slot that fills a
      bucket. */
  method RegisterTriangle(tri: seq<seq<nat>>, nTriangle: nat, nVertex: nat, i: nat, ghost seen: seq<EdgeKey>,
                          edges: seq<EdgeRecord>, conn: seq<seq<nat>>, nEdge: nat, localEdge: seq<seq<nat>>)
    returns (full: bool, edges': seq<EdgeRecord>, conn': seq<seq<nat>>, nEdge': nat, localEdge': seq<seq<nat>>)
    requires Columns(tri, 3, nTriangle) && i < nTriangle
    requires forall j :: 0 <= j < 3 ==> tri[j][i] < nVertex
    requires seen == EdgeKeys(tri, nTriangle, i)
    requires Recorded(seen, edges, nTriangle) && nEdge == |edges| && Columns(conn, 3, nTriangle)
    requires MappedBefore(tri, nTriangle, conn, edges, i, 0)
    requires BucketsHold(Distinct(seen), localEdge, nVertex)
    ensures full ==> !BucketsFit(tri, nTriangle, nVertex)
    ensures !full ==> && Recorded(EdgeKeys(tri, nTriangle, i + 1), edges', nTriangle) && nEdge' == |edges'|
                      && Columns(conn', 3, nTriangle) && MappedBefore(tri, nTriangle, conn', edges', i + 1, 0)
                      && BucketsHold(Distinct(EdgeKeys(tri, nTriangle, i + 1)), localEdge', nVertex)
  {
    edges', conn', nEdge', localEdge' := edges, conn, nEdge, localEdge;
    ghost var met := seen;
    full := false;
    var j := 0;
    while j < 3
      invariant j <= 3 && !full
      invariant met == EdgeKeys(tri, nTriangle, i) + SlotKeys(tri, nTriangle, i)[..j]
      invariant Recorded(met, edges', nTriangle) && nEdge' == |edges'| && Columns(conn', 3, nTriangle)
      invariant MappedBefore(tri, nTriangle, conn', edges', i, j)
      invariant j == 3 ==> MappedBefore(tri, nTriangle, conn', edges', i + 1, 0)
      invariant BucketsHold(Distinct(met), localEdge', nVertex)
    {
      var edges'', conn'';
      full, edges'', conn'', nEdge', localEdge' := RegisterSlot(tri, nTriangle, nVertex, i, j, met,
                                                               edges', conn', nEdge', localEdge');
      MappedStep(tri, nTriangle, conn', edges', conn'', edges'', i, j);
      if full {
        // the capacity assertion at line 167 fires
        Overflow(tri, nTriangle, nVertex, i, j);
        return;
      }
      edges', conn' := edges'', conn'';
      SlotKeysStep(tri, nTriangle, i, j);
      met := met + [EdgeKeyOf(tri, nTriangle, i, j)];
      j := j + 1;
    }
    assert SlotKeys(tri, nTriangle, i)[..3] == SlotKeys(tri, nTriangle, i);
    assert met == EdgeKeys(tri, nTriangle, i + 1);
  }

  /** The first pass of `collect_edges` (TriangleMesh.cpp:129-170): every
      slot of every triangle is looked up in the bucket of its smaller vertex
      and either matched to a known edge or appended as a new one. It fails
      (`ok == false`, the assertion at line 167 aborting) exactly when some
      vertex is the smaller end of `MaxEdgesPerVertex` distinct edges. */
  method DiscoverEdges(tri: seq<seq<nat>>, nTriangle: nat, nVertex: nat)
    returns (ok: bool, edges: seq<EdgeRecord>, conn: seq<seq<nat>>)
    requires Columns(tri, 3, nTriangle)
    requires forall j, i :: 0 <= j < 3 && 0 <= i < nTriangle ==> tri[j][i] < nVertex
    ensures ok == BucketsFit(tri, nTriangle, nVertex)
    ensures ok ==> EdgeTable(tri, nTriangle, edges, conn)
  {
    var localEdge: seq<seq<nat>> := seq(nVertex, _ => []);
    var nEdge := 0;
    edges := [];
    conn := [seq(nTriangle, _ => 0), seq(nTriangle, _ => 0), seq(nTriangle, _ => 0)];
    var i := 0;
    while i < nTriangle
      invariant i <= nTriangle
      invariant Recorded(EdgeKeys(tri, nTriangle, i), edges, nTriangle) && nEdge == |edges|
      invariant Columns(conn, 3, nTriangle) && MappedBefore(tri, nTriangle, conn, edges, i, 0)
      invariant BucketsHold(Distinct(EdgeKeys(tri, nTriangle, i)), localEdge, nVertex)
    {
      var full;
      full, edges, conn, nEdge, localEdge := RegisterTriangle(tri, nTriangle, nVertex, i, EdgeKeys(tri, nTriangle, i),
                                                              edges, conn, nEdge, localEdge);
      if full {
        return false, edges, conn;
      }
      i := i + 1;
    }
    ok := true;
  }

  /** The second pass of `collect_edges` (TriangleMesh.cpp:188-198): both
      rows start at 3; row 0 of edge `e` becomes the last slot of its owner
      (`table[2][e]`) mapped to `e`, row 1 the last slot of its neighbour
      (`table[3][e]`) mapped to `e`. A boundary edge's neighbour is the
      sentinel `nTriangle + 1`, which the source reads past the end of
      `tri_edge_conn_`; here row 1 is only updated for a neighbour below
      `nTriangle`, so it keeps 3. */
  method OrderEdges(conn: seq<seq<nat>>, nTriangle: nat, table: seq<seq<nat>>, nEdge: nat)
    returns (order: seq<seq<nat>>)
    requires Columns(conn, 3, nTriangle) && Columns(table, 4, nEdge)
    requires forall e :: 0 <= e < nEdge ==> table[2][e] < nTriangle
    ensures Columns(order, 2, nEdge)
    ensures forall e :: 0 <= e < nEdge ==> LastSlotOf(conn, table[2][e], e, 3, order[0][e])
    ensures forall e :: 0 <= e < nEdge ==>
      if table[3][e] < nTriangle then LastSlotOf(conn, table[3][e], e, 3, order[1][e]) else order[1][e] == 3
  {
    var first: seq<nat> := seq(nEdge, _ => 3);
    var second: seq<nat> := seq(nEdge, _ => 3);
    var j := 0;
    while j < nEdge
      invariant j <= nEdge && |first| == nEdge && |second| == nEdge
      invariant forall e :: 0 <= e < j ==> LastSlotOf(conn, table[2][e], e, 3, first[e])
      invariant forall e :: 0 <= e < j ==>
        if table[3][e] < nTriangle then LastSlotOf(conn, table[3][e], e, 3, second[e]) else second[e] == 3
      invariant forall e :: j <= e < nEdge ==> first[e] == 3 && second[e] == 3
    {
      var ik, ik' := table[2][j], table[3][j];
      ghost var first0, second0 := first, second;
      var i := 0;
      while i < 3
        invariant i <= 3 && |first| == nEdge && |second| == nEdge
        invariant forall e :: 0 <= e < nEdge && e != j ==> first[e] == first0[e] && second[e] == second0[e]
        invariant LastSlotOf(conn, ik, j, i, first[j])
        invariant if ik' < nTriangle then LastSlotOf(conn, ik', j, i, second[j]) else second[j] == 3
      {
        if conn[i][ik] == j {
          first := first[j := i];
        }
        if ik' < nTriangle && conn[i][ik'] == j {
          second := second[j := i];
        }
        i := i + 1;
      }
      j := j + 1;
    }
    order := [first, second];
  }

  // ---------------------------------------------------------------------
  // What the edge table means, stated through the slot map `conn`
  // ---------------------------------------------------------------------

  /** Position `p` of the run is slot `p % 3` of triangle `p / 3`. */
  lemma {:induction false} SlotAtPosition(tri: seq<seq<nat>>, n: nat, p: nat)
    requires Columns(tri, 3, n) && p < 3 * n
    ensures p / 3 < n && EdgeKeys(tri, n, n)[p] == EdgeKeyOf(tri, n, p / 3, p % 3)
  {
    EdgeKeysAt(tri, n, n, p / 3, p % 3);
  }

  /** A slot refers to edge `e` exactly when its key is the key of `e`. */
  lemma {:induction false} SlotRefers(tri: seq<seq<nat>>, n: nat, edges: seq<EdgeRecord>, conn: seq<seq<nat>>,
                                      i: nat, j: nat, e: nat)
    requires Columns(tri, 3, n) && EdgeTable(tri, n, edges, conn) && i < n && j < 3 && e < |edges|
    ensures conn[j][i] == e <==> EdgeKeyOf(tri, n, i, j) == (edges[e].start, edges[e].end)
  {
    var ks := EdgeKeys(tri, n, n);
    var c := conn[j][i];
    assert SlotMapped(tri, n, conn, edges, i, j);
    RecordedAt(ks, edges, n, c);
    RecordedAt(ks, edges, n, e);
  }

  /** Every stored edge has its smaller vertex first. */
  lemma {:induction false} EdgeSorted(tri: seq<seq<nat>>, n: nat, edges: seq<EdgeRecord>, conn: seq<seq<nat>>, e: nat)
    requires Columns(tri, 3, n) && EdgeTable(tri, n, edges, conn) && e < |edges|
    ensures edges[e].start <= edges[e].end
  {
    var ks := EdgeKeys(tri, n, n);
    RecordedAt(ks, edges, n, e);
    var p := FirstIndex(ks, Distinct(ks)[e]);
    SlotAtPosition(tri, n, p);
  }

  /** No two edges carry the same vertex pair. */
  lemma {:induction false} EdgesUnique(tri: seq<seq<nat>>, n: nat, edges: seq<EdgeRecord>, conn: seq<seq<nat>>,
                                       e1: nat, e2: nat)
    requires Columns(tri, 3, n) && EdgeTable(tri, n, edges, conn) && e1 < e2 < |edges|
    ensures (edges[e1].start, edges[e1].end) != (edges[e2].start, edges[e2].end)
  {
    var ks := EdgeKeys(tri, n, n);
    RecordedAt(ks, edges, n, e1);
    RecordedAt(ks, edges, n, e2);
  }

  /** Edge numbers follow first discovery: a smaller number was first met in
      an earlier slot. */
  lemma {:induction false} EdgesInDiscoveryOrder(tri: seq<seq<nat>>, n: nat, edges: seq<EdgeRecord>, conn: seq<seq<nat>>,
                                                 e1: nat, e2: nat)
    requires Columns(tri, 3, n) && EdgeTable(tri, n, edges, conn) && e1 < e2 < |edges|
    ensures var ks := EdgeKeys(tri, n, n);
      (edges[e1].start, edges[e1].end) in ks && (edges[e2].start, edges[e2].end) in ks &&
      FirstIndex(ks, (edges[e1].start, edges[e1].end)) < FirstIndex(ks, (edges[e2].start, edges[e2].end))
  {
    var ks := EdgeKeys(tri, n, n);
    RecordedAt(ks, edges, n, e1);
    RecordedAt(ks, edges, n, e2);
    DistinctInDiscoveryOrder(ks, e1, e2);
  }

  /** `nEdge` is the number of distinct vertex pairs among all slots. */
  lemma {:induction false} EdgeCount(tri: seq<seq<nat>>, n: nat, edges: seq<EdgeRecord>, conn: seq<seq<nat>>)
    requires Columns(tri, 3, n) && EdgeTable(tri, n, edges, conn)
    ensures |edges| == |set i, j | 0 <= i < n && 0 <= j < 3 :: EdgeKeyOf(tri, n, i, j)|
  {
    var ks := EdgeKeys(tri, n, n);
    DistinctCount(ks);
    var slots := set i, j | 0 <= i < n && 0 <= j < 3 :: EdgeKeyOf(tri, n, i, j);
    forall k | k in ks
      ensures k in slots
    {
      var p :| 0 <= p < |ks| && ks[p] == k;
      SlotAtPosition(tri, n, p);
    }
    forall k | k in slots
      ensures k in ks
    {
      var i, j :| 0 <= i < n && 0 <= j < 3 && k == EdgeKeyOf(tri, n, i, j);
      EdgeKeysAt(tri, n, n, i, j);
    }
    assert (set k | k in ks) == slots;
  }

  /** A slot refers to edge `e` exactly when its position in the run holds
      the key of `e`. */
  lemma {:induction false} PositionRefers(tri: seq<seq<nat>>, n: nat, edges: seq<EdgeRecord>, conn: seq<seq<nat>>,
                                          p: nat, e: nat)
    requires Columns(tri, 3, n) && EdgeTable(tri, n, edges, conn) && p < 3 * n && e < |edges|
    ensures p / 3 < n
    ensures conn[p % 3][p / 3] == e <==> EdgeKeys(tri, n, n)[p] == Distinct(EdgeKeys(tri, n, n))[e]
  {
    SlotAtPosition(tri, n, p);
    SlotRefers(tri, n, edges, conn, p / 3, p % 3, e);
    RecordedAt(EdgeKeys(tri, n, n), edges, n, e);
  }

  /** The owner of an edge is the first triangle that refers to it. */
  lemma {:induction false} OwnerIsFirst(tri: seq<seq<nat>>, n: nat, edges: seq<EdgeRecord>, conn: seq<seq<nat>>, e: nat)
    requires Columns(tri, 3, n) && EdgeTable(tri, n, edges, conn) && e < |edges|
    ensures edges[e].owner < n
    ensures exists j :: 0 <= j < 3 && conn[j][edges[e].owner] == e
    ensures forall i, j :: 0 <= i < edges[e].owner && 0 <= j < 3 ==> conn[j][i] != e
  {
    var ks := EdgeKeys(tri, n, n);
    RecordedAt(ks, edges, n, e);
    var f := FirstIndex(ks, Distinct(ks)[e]);
    PositionRefers(tri, n, edges, conn, f, e);
    forall i, j | 0 <= i < edges[e].owner && 0 <= j < 3
      ensures conn[j][i] != e
    {
      PositionRefers(tri, n, edges, conn, 3 * i + j, e);
    }
  }

  /** The neighbour of an edge is the sentinel `n + 1` exactly when a single
      slot refers to it. */
  lemma {:induction false} BoundaryIsSingle(tri: seq<seq<nat>>, n: nat, edges: seq<EdgeRecord>, conn: seq<seq<nat>>, e: nat)
    requires Columns(tri, 3, n) && EdgeTable(tri, n, edges, conn) && e < |edges|
    ensures edges[e].neighbour == n + 1 <==>
      forall i1, j1, i2, j2 ::
        (0 <= i1 < n && 0 <= j1 < 3 && 0 <= i2 < n && 0 <= j2 < 3 && conn[j1][i1] == e && conn[j2][i2] == e)
        ==> i1 == i2 && j1 == j2
  {
    var ks := EdgeKeys(tri, n, n);
    var k := Distinct(ks)[e];
    RecordedAt(ks, edges, n, e);
    var f, l := FirstIndex(ks, k), LastIndex(ks, k);
    PositionRefers(tri, n, edges, conn, f, e);
    PositionRefers(tri, n, edges, conn, l, e);
    if f == l {
      forall i1, j1, i2, j2 | 0 <= i1 < n && 0 <= j1 < 3 && 0 <= i2 < n && 0 <= j2 < 3 &&
        conn[j1][i1] == e && conn[j2][i2] == e
        ensures i1 == i2 && j1 == j2
      {
        PositionRefers(tri, n, edges, conn, 3 * i1 + j1, e);
        PositionRefers(tri, n, edges, conn, 3 * i2 + j2, e);
      }
    }
  }

  /** Otherwise the neighbour is the last triangle that refers to the edge. */
  lemma {:induction false} NeighbourIsLast(tri: seq<seq<nat>>, n: nat, edges: seq<EdgeRecord>, conn: seq<seq<nat>>, e: nat)
    requires Columns(tri, 3, n) && EdgeTable(tri, n, edges, conn) && e < |edges|
    requires edges[e].neighbour != n + 1
    ensures edges[e].owner <= edges[e].neighbour < n
    ensures exists j :: 0 <= j < 3 && conn[j][edges[e].neighbour] == e
    ensures forall i, j :: edges[e].neighbour < i < n && 0 <= j < 3 ==> conn[j][i] != e
  {
    var ks := EdgeKeys(tri, n, n);
    var k := Distinct(ks)[e];
    RecordedAt(ks, edges, n, e);
    var l := LastIndex(ks, k);
    PositionRefers(tri, n, edges, conn, l, e);
    forall i, j | edges[e].neighbour < i < n && 0 <= j < 3
      ensures conn[j][i] != e
    {
      PositionRefers(tri, n, edges, conn, 3 * i + j, e);
    }
  }

  /** The local-slot rows resolve back to the edge: row 0 names a slot of the
      owner holding `e`, row 1 one of the neighbour, or stays 3 on the
      boundary. */
  lemma {:induction false} OrderResolves(tri: seq<seq<nat>>, n: nat, edges: seq<EdgeRecord>, conn: seq<seq<nat>>,
                                         order: seq<seq<nat>>, e: nat)
    requires Columns(tri, 3, n) && EdgeTable(tri, n, edges, conn) && e < |edges| && Columns(order, 2, |edges|)
    requires edges[e].owner < n && LastSlotOf(conn, edges[e].owner, e, 3, order[0][e])
    requires if edges[e].neighbour < n then LastSlotOf(conn, edges[e].neighbour, e, 3, order[1][e])
             else order[1][e] == 3
    ensures order[0][e] < 3 && conn[order[0][e]][edges[e].owner] == e
    ensures edges[e].neighbour == n + 1 ==> order[1][e] == 3
    ensures edges[e].neighbour != n + 1 ==> order[1][e] < 3 && conn[order[1][e]][edges[e].neighbour] == e
  {
    OwnerIsFirst(tri, n, edges, conn, e);
    if edges[e].neighbour != n + 1 {
      NeighbourIsLast(tri, n, edges, conn, e);
    }
  }

  /** In a triangle with three distinct vertices the three slots have
      three different keys. */
  lemma {:induction false} SlotKeysDiffer(tri: seq<seq<nat>>, n: nat, i: nat, a: nat, b: nat)
    requires Columns(tri, 3, n) && i < n && a < 3 && b < 3 && a != b
    requires tri[0][i] != tri[1][i] && tri[1][i] != tri[2][i] && tri[0][i] != tri[2][i]
    ensures EdgeKeyOf(tri, n, i, a) != EdgeKeyOf(tri, n, i, b)
  {
    assert a == 0 || a == 1 || a == 2;
    assert b == 0 || b == 1 || b == 2;
  }

  /** A slot refers to an edge met by no other slot exactly when the edge's
      neighbour is the sentinel: the boundary test on one element. */
  lemma {:induction false} LoneSlots(tri: seq<seq<nat>>, n: nat, edges: seq<EdgeRecord>, conn: seq<seq<nat>>, e: nat)
    requires Columns(tri, 3, n) && EdgeTable(tri, n, edges, conn) && e < |edges|
    requires forall i1, j1, i2, j2 ::
      (0 <= i1 < n && 0 <= j1 < 3 && 0 <= i2 < n && 0 <= j2 < 3 &&
       EdgeKeyOf(tri, n, i1, j1) == EdgeKeyOf(tri, n, i2, j2) == (edges[e].start, edges[e].end))
      ==> i1 == i2 && j1 == j2
    ensures edges[e].neighbour == n + 1
  {
    forall i1, j1, i2, j2 | 0 <= i1 < n && 0 <= j1 < 3 && 0 <= i2 < n && 0 <= j2 < 3 &&
      conn[j1][i1] == e && conn[j2][i2] == e
      ensures i1 == i2 && j1 == j2
    {
      SlotRefers(tri, n, edges, conn, i1, j1, e);
      SlotRefers(tri, n, edges, conn, i2, j2, e);
    }
    BoundaryIsSingle(tri, n, edges, conn, e);
  }

  /** A lone triangle with three distinct vertices gives three edges, all
      on the boundary. */
  lemma {:induction false} SingleTriangle(tri: seq<seq<nat>>, edges: seq<EdgeRecord>, conn: seq<seq<nat>>)
    requires Columns(tri, 3, 1) && EdgeTable(tri, 1, edges, conn)
    requires tri[0][0] != tri[1][0] && tri[1][0] != tri[2][0] && tri[0][0] != tri[2][0]
    ensures |edges| == 3
    ensures forall e :: 0 <= e < |edges| ==> edges[e].neighbour == 2
  {
    var k0, k1, k2 := EdgeKeyOf(tri, 1, 0, 0), EdgeKeyOf(tri, 1, 0, 1), EdgeKeyOf(tri, 1, 0, 2);
    SlotKeysDiffer(tri, 1, 0, 0, 1);
    SlotKeysDiffer(tri, 1, 0, 0, 2);
    SlotKeysDiffer(tri, 1, 0, 1, 2);
    EdgeCount(tri, 1, edges, conn);
    var slots := set i, j | 0 <= i < 1 && 0 <= j < 3 :: EdgeKeyOf(tri, 1, i, j);
    forall k | k in slots
      ensures k in {k0, k1, k2}
    {
      var i, j :| 0 <= i < 1 && 0 <= j < 3 && k == EdgeKeyOf(tri, 1, i, j);
      assert i == 0 && (j == 0 || j == 1 || j == 2);
    }
    assert k0 in slots && k1 in slots && k2 in slots;
    assert slots == {k0, k1, k2};
    forall e | 0 <= e < |edges|
      ensures edges[e].neighbour == 2
    {
      forall i1, j1, i2, j2 | 0 <= i1 < 1 && 0 <= j1 < 3 && 0 <= i2 < 1 && 0 <= j2 < 3 &&
        EdgeKeyOf(tri, 1, i1, j1) == EdgeKeyOf(tri, 1, i2, j2) == (edges[e].start, edges[e].end)
        ensures i1 == i2 && j1 == j2
      {
        if j1 != j2 {
          SlotKeysDiffer(tri, 1, 0, j1, j2);
        }
      }
      LoneSlots(tri, 1, edges, conn, e);
    }
  }

  /** In a lone triangle with three distinct vertices, the list of each
      corner holds triangle 0 once and every other list stays empty. */
  lemma {:induction false} SingleTriangleIncidence(tri: seq<seq<nat>>, v: nat)
    requires Columns(tri, 3, 1)
    requires tri[0][0] != tri[1][0] && tri[1][0] != tri[2][0] && tri[0][0] != tri[2][0]
    ensures v == tri[0][0] || v == tri[1][0] || v == tri[2][0] ==> Incident(tri, 3, 1, 1, v) == [0]
    ensures v != tri[0][0] && v != tri[1][0] && v != tri[2][0] ==> Incident(tri, 3, 1, 1, v) == []
  {
    assert Incident(tri, 3, 1, 1, v) == CornerHits(tri, 3, 1, 0, v, 3);
    assert CornerHits(tri, 3, 1, 0, v, 1) == if tri[0][0] == v then [0] else [];
  }

  /** The unit square split along its diagonal 0-2 into the triangles
      (0, 1, 2) and (0, 2, 3). */
  function UnitSquare(): (tri: seq<seq<nat>>)
    ensures Columns(tri, 3, 2)
  {
    [[0, 0], [1, 2], [2, 3]]
  }

  lemma {:induction false} UnitSquareKeys()
    ensures EdgeKeyOf(UnitSquare(), 2, 0, 0) == (0, 1) && EdgeKeyOf(UnitSquare(), 2, 0, 1) == (1, 2)
    ensures EdgeKeyOf(UnitSquare(), 2, 0, 2) == (0, 2) && EdgeKeyOf(UnitSquare(), 2, 1, 0) == (0, 2)
    ensures EdgeKeyOf(UnitSquare(), 2, 1, 1) == (2, 3) && EdgeKeyOf(UnitSquare(), 2, 1, 2) == (0, 3)
  {
  }

  /** Apart from the diagonal, every vertex pair of the unit square is met
      in one slot only. */
  lemma {:induction false} UnitSquareInjective(i1: nat, j1: nat, i2: nat, j2: nat)
    requires i1 < 2 && j1 < 3 && i2 < 2 && j2 < 3
    requires EdgeKeyOf(UnitSquare(), 2, i1, j1) == EdgeKeyOf(UnitSquare(), 2, i2, j2) != (0, 2)
    ensures i1 == i2 && j1 == j2
  {
    UnitSquareKeys();
    assert (i1 == 0 || i1 == 1) && (j1 == 0 || j1 == 1 || j1 == 2);
    assert (i2 == 0 || i2 == 1) && (j2 == 0 || j2 == 1 || j2 == 2);
  }

  lemma {:induction false} UnitSquareSlots()
    ensures (set i, j | 0 <= i < 2 && 0 <= j < 3 :: EdgeKeyOf(UnitSquare(), 2, i, j))
      == {(0, 1), (1, 2), (0, 2), (2, 3), (0, 3)}
  {
    var tri := UnitSquare();
    UnitSquareKeys();
    var slots := set i, j | 0 <= i < 2 && 0 <= j < 3 :: EdgeKeyOf(tri, 2, i, j);
    forall k | k in slots
      ensures k in {(0, 1), (1, 2), (0, 2), (2, 3), (0, 3)}
    {
      var i, j :| 0 <= i < 2 && 0 <= j < 3 && k == EdgeKeyOf(tri, 2, i, j);
      assert (i == 0 || i == 1) && (j == 0 || j == 1 || j == 2);
    }
    assert EdgeKeyOf(tri, 2, 0, 0) in slots && EdgeKeyOf(tri, 2, 0, 1) in slots && EdgeKeyOf(tri, 2, 0, 2) in slots;
    assert EdgeKeyOf(tri, 2, 1, 1) in slots && EdgeKeyOf(tri, 2, 1, 2) in slots;
  }

  /** The diagonal 0-2 is owned by triangle 0 and has triangle 1 as its
      neighbour. */
  lemma {:induction false} UnitSquareDiagonal(edges: seq<EdgeRecord>, conn: seq<seq<nat>>, e: nat)
    requires EdgeTable(UnitSquare(), 2, edges, conn) && e < |edges|
    requires (edges[e].start, edges[e].end) == (0, 2)
    ensures edges[e].owner == 0 && edges[e].neighbour == 1
  {
    var tri := UnitSquare();
    UnitSquareKeys();
    SlotRefers(tri, 2, edges, conn, 0, 2, e);
    SlotRefers(tri, 2, edges, conn, 1, 0, e);
    OwnerIsFirst(tri, 2, edges, conn, e);
    BoundaryIsSingle(tri, 2, edges, conn, e);
    NeighbourIsLast(tri, 2, edges, conn, e);
  }

  /** The two triangles of the unit square give five edges; the diagonal is
      the only one with a neighbour, triangle 1, and triangle 0 owns it. */
  lemma {:induction false} UnitSquareEdges(edges: seq<EdgeRecord>, conn: seq<seq<nat>>)
    requires EdgeTable(UnitSquare(), 2, edges, conn)
    ensures |edges| == 5
    ensures forall e :: 0 <= e < |edges| ==> (edges[e].neighbour != 3 <==> (edges[e].start, edges[e].end) == (0, 2))
    ensures forall e :: 0 <= e < |edges| && (edges[e].start, edges[e].end) == (0, 2) ==>
      edges[e].owner == 0 && edges[e].neighbour == 1
  {
    var tri := UnitSquare();
    EdgeCount(tri, 2, edges, conn);
    UnitSquareSlots();
    forall e | 0 <= e < |edges|
      ensures edges[e].neighbour != 3 <==> (edges[e].start, edges[e].end) == (0, 2)
      ensures (edges[e].start, edges[e].end) == (0, 2) ==> edges[e].owner == 0 && edges[e].neighbour == 1
    {
      if (edges[e].start, edges[e].end) == (0, 2) {
        UnitSquareDiagonal(edges, conn, e);
      } else {
        forall i1, j1, i2, j2 | 0 <= i1 < 2 && 0 <= j1 < 3 && 0 <= i2 < 2 && 0 <= j2 < 3 &&
          EdgeKeyOf(tri, 2, i1, j1) == EdgeKeyOf(tri, 2, i2, j2) == (edges[e].start, edges[e].end)
          ensures i1 == i2 && j1 == j2
        {
          UnitSquareInjective(i1, j1, i2, j2);
        }
        LoneSlots(tri, 2, edges, conn, e);
      }
    }
  }

  /** The number of triangle slots an edge accounts for: one on the
      boundary, two when it has a neighbour. */
  function Weight(r: EdgeRecord, n: nat): nat
  {
    if r.neighbour == n + 1 then 1 else 2
  }

  function TotalWeight(edges: seq<EdgeRecord>, n: nat): nat
    decreases |edges|
  {
    if edges == [] then 0 else TotalWeight(edges[..|edges| - 1], n) + Weight(edges[|edges| - 1], n)
  }

  /** Over the first `m` edges the weights count the slots that met them,
      as long as no key is met in more than two slots. */
  lemma {:induction false} WeightsCountSlots(ks: seq<EdgeKey>, edges: seq<EdgeRecord>, n: nat, m: nat)
    requires |ks| == 3 * n && Recorded(ks, edges, n) && m <= |edges|
    requires forall k :: k in ks ==> multiset(ks)[k] <= 2
    ensures TotalWeight(edges[..m], n) == Occurrences(Distinct(ks)[..m], ks)
    decreases m
  {
    if m > 0 {
      var d := Distinct(ks);
      WeightsCountSlots(ks, edges, n, m - 1);
      assert edges[..m][..m - 1] == edges[..m - 1];
      assert d[..m][..m - 1] == d[..m - 1];
      RecordedAt(ks, edges, n, m - 1);
      var k := d[m - 1];
      SingleOccurrence(ks, k);
      assert Weight(edges[m - 1], n) == multiset(ks)[k] by {
        if FirstIndex(ks, k) != LastIndex(ks, k) {
          assert LastIndex(ks, k) / 3 < n;
        }
      }
    }
  }

  /** In a mesh where every edge key is met in at most two slots, the three
      slots of each triangle are accounted for by one per boundary edge and
      two per interior edge. */
  lemma {:induction false} SlotTotal(tri: seq<seq<nat>>, n: nat, edges: seq<EdgeRecord>, conn: seq<seq<nat>>)
    requires Columns(tri, 3, n) && EdgeTable(tri, n, edges, conn)
    requires forall k :: k in EdgeKeys(tri, n, n) ==> multiset(EdgeKeys(tri, n, n))[k] <= 2
    ensures TotalWeight(edges, n) == 3 * n
  {
    var ks := EdgeKeys(tri, n, n);
    WeightsCountSlots(ks, edges, n, |edges|);
    assert edges[..|edges|] == edges;
    assert Distinct(ks)[..|edges|] == Distinct(ks);
    DistinctOccurrences(ks);
  }

  // ---------------------------------------------------------------------
  // The copy into `edges_` and the mesh object
  // ---------------------------------------------------------------------

  /** `table` is the column form `edges_[0..3]` of the records: start, end,
      owner, neighbour. */
  ghost predicate Tabulated(table: seq<seq<nat>>, edges: seq<EdgeRecord>)
  {
    && Columns(table, 4, |edges|)
    && forall e :: 0 <= e < |edges| ==>
         table[0][e] == edges[e].start && table[1][e] == edges[e].end &&
         table[2][e] == edges[e].owner && table[3][e] == edges[e].neighbour
  }

  /** The copy loop of `collect_edges` (TriangleMesh.cpp:177-187). */
  method TabulateEdges(edges: seq<EdgeRecord>) returns (table: seq<seq<nat>>)
    ensures Tabulated(table, edges)
  {
    var starts, ends, owners, neighbours: seq<nat> := [], [], [], [];
    var j := 0;
    while j < |edges|
      invariant j <= |edges| && |starts| == j && |ends| == j && |owners| == j && |neighbours| == j
      invariant forall e :: 0 <= e < j ==>
        starts[e] == edges[e].start && ends[e] == edges[e].end &&
        owners[e] == edges[e].owner && neighbours[e] == edges[e].neighbour
    {
      starts := starts + [edges[j].start];
      ends := ends + [edges[j].end];
      owners := owners + [edges[j].owner];
      neighbours := neighbours + [edges[j].neighbour];
      j := j + 1;
    }
    table := [starts, ends, owners, neighbours];
  }

  /** The element table with the corners of triangle `i` at positions 1 and
      2 exchanged, which turns its orientation around. */
  function SwapCorners(tri: seq<seq<nat>>, n: nat, i: nat): (t: seq<seq<nat>>)
    requires Columns(tri, 3, n) && i < n
    ensures Columns(t, 3, n) && t[0] == tri[0]
    ensures t[1][i] == tri[2][i] && t[2][i] == tri[1][i]
    ensures forall r, i' :: 0 <= r < 3 && 0 <= i' < n && i' != i ==> t[r][i'] == tri[r][i']
  {
    var row1: seq<nat> := tri[1][i := tri[2][i]];
    var row2: seq<nat> := tri[2][i := tri[1][i]];
    [tri[0], row1, row2]
  }

  /** Swapping two corners keeps the triangle's vertices and its three edge
      keys; only the slot order of the keys changes. */
  lemma {:induction false} SwapKeepsEdges(tri: seq<seq<nat>>, n: nat, i: nat)
    requires Columns(tri, 3, n) && i < n
    ensures var t := SwapCorners(tri, n, i);
      multiset{t[0][i], t[1][i], t[2][i]} == multiset{tri[0][i], tri[1][i], tri[2][i]}
    ensures var t := SwapCorners(tri, n, i);
      EdgeKeyOf(t, n, i, 0) == EdgeKeyOf(tri, n, i, 2) &&
      EdgeKeyOf(t, n, i, 1) == EdgeKeyOf(tri, n, i, 1) &&
      EdgeKeyOf(t, n, i, 2) == EdgeKeyOf(tri, n, i, 0)
  {
  }

  /** The z component of the normal `check_point_order` computes
      (TriangleMesh.cpp:102-115) for triangle `i`, in exact arithmetic: the
      cross product of the sides from corner 0 to corners 1 and 2. */
  function NormalZ(x: seq<real>, y: seq<real>, tri: seq<seq<nat>>, n: nat, i: nat): real
    requires Columns(tri, 3, n) && i < n
    requires forall j :: 0 <= j < 3 ==> tri[j][i] < |x| && tri[j][i] < |y|
  {
    var a, b, c := tri[0][i], tri[1][i], tri[2][i];
    (x[b] - x[a]) * (y[c] - y[a]) - (y[b] - y[a]) * (x[c] - x[a])
  }

  /** The element table after `read_off`'s fix-up of triangle `i`
      (TriangleMesh.cpp:90-94): a clockwise triangle gets corners 1 and 2
      exchanged. */
  function Oriented(x: seq<real>, y: seq<real>, tri: seq<seq<nat>>, n: nat, i: nat): (t: seq<seq<nat>>)
    requires Columns(tri, 3, n) && i < n
    requires forall j :: 0 <= j < 3 ==> tri[j][i] < |x| && tri[j][i] < |y|
    ensures Columns(t, 3, n)
    ensures forall j :: 0 <= j < 3 ==> t[j][i] < |x| && t[j][i] < |y|
  {
    if NormalZ(x, y, tri, n, i) < 0.0 then SwapCorners(tri, n, i) else tri
  }

  /** Exchanging two corners reverses the normal. */
  lemma {:induction false} SwapNegatesNormal(x: seq<real>, y: seq<real>, tri: seq<seq<nat>>, n: nat, i: nat)
    requires Columns(tri, 3, n) && i < n
    requires forall j :: 0 <= j < 3 ==> tri[j][i] < |x| && tri[j][i] < |y|
    ensures NormalZ(x, y, SwapCorners(tri, n, i), n, i) == -NormalZ(x, y, tri, n, i)
  {
    var t := SwapCorners(tri, n, i);
    var a, b, c := tri[0][i], tri[1][i], tri[2][i];
    assert t[0][i] == a && t[1][i] == c && t[2][i] == b;
    var p, q, r, s := x[b] - x[a], y[c] - y[a], y[b] - y[a], x[c] - x[a];
    assert NormalZ(x, y, tri, n, i) == p * q - r * s;
    assert NormalZ(x, y, t, n, i) == s * r - q * p;
  }

  /** After the fix-up no triangle is clockwise, so applying it again
      changes nothing. */
  lemma {:induction false} OrientedIdempotent(x: seq<real>, y: seq<real>, tri: seq<seq<nat>>, n: nat, i: nat)
    requires Columns(tri, 3, n) && i < n
    requires forall j :: 0 <= j < 3 ==> tri[j][i] < |x| && tri[j][i] < |y|
    ensures NormalZ(x, y, Oriented(x, y, tri, n, i), n, i) >= 0.0
    ensures Oriented(x, y, Oriented(x, y, tri, n, i), n, i) == Oriented(x, y, tri, n, i)
  {
    if NormalZ(x, y, tri, n, i) < 0.0 {
      SwapNegatesNormal(x, y, tri, n, i);
    }
  }

  /** Everything `collect_edges` leaves behind for the element table `tri`:
      the records `edges` in the first-discovery order, the slot map `conn`,
      their column copy `table`, and the local-slot rows `order`. */
  ghost predicate Collected(tri: seq<seq<nat>>, n: nat, edges: seq<EdgeRecord>, conn: seq<seq<nat>>,
                            table: seq<seq<nat>>, order: seq<seq<nat>>)
    requires Columns(tri, 3, n)
  {
    && EdgeTable(tri, n, edges, conn)
    && Tabulated(table, edges)
    && Columns(order, 2, |edges|)
    && forall e :: 0 <= e < |edges| ==>
         edges[e].owner < n && LastSlotOf(conn, edges[e].owner, e, 3, order[0][e]) &&
         if edges[e].neighbour < n then LastSlotOf(conn, edges[e].neighbour, e, 3, order[1][e])
         else order[1][e] == 3
  }

  /** The fields of `TriangleMesh` (TriangleMesh.h) that the connectivity
      code reads and writes. Coordinates are left out. */
  class TriangleMesh {
    var nVertex: nat
    var nTriangle: nat
    var nEdge: nat
    /** `tri_[j][i]`: corner `j` of triangle `i`. */
    var tri: seq<seq<nat>>
    /** `tri_edge_conn_[j][i]`: the edge in slot `j` of triangle `i`. */
    var triEdgeConn: seq<seq<nat>>
    /** `edges_[0..3]`: start, end, owner, neighbour of each edge. */
    var edgeTable: seq<seq<nat>>
    /** `edge_order_in_tri_[0..1]`: the slot of an edge in its owner and in
        its neighbour. */
    var edgeOrderInTri: seq<seq<nat>>
    /** The records `edgeTable` was copied from. */
    ghost var edges: seq<EdgeRecord>

    /** The element table has its shape, and the edge fields are either
        still empty or exactly what `collect_edges` derives from it. */
    ghost predicate Valid()
      reads this
    {
      && Columns(tri, 3, nTriangle)
      && nEdge == |edges|
      && ((edges == [] && triEdgeConn == [] && edgeTable == [] && edgeOrderInTri == []) ||
          Collected(tri, nTriangle, edges, triEdgeConn, edgeTable, edgeOrderInTri))
    }

    /** A mesh whose element table has been read; no edges yet. */
    constructor (nVertex: nat, nTriangle: nat, tri: seq<seq<nat>>)
      requires Columns(tri, 3, nTriangle)
      ensures Valid()
      ensures this.nVertex == nVertex && this.nTriangle == nTriangle && this.tri == tri
      ensures nEdge == 0 && triEdgeConn == [] && edgeTable == [] && edgeOrderInTri == [] && edges == []
    {
      this.nVertex := nVertex;
      this.nTriangle := nTriangle;
      this.tri := tri;
      nEdge := 0;
      triEdgeConn := [];
      edgeTable := [];
      edgeOrderInTri := [];
      edges := [];
    }

    /** The orientation fix of `read_off` (TriangleMesh.cpp:89-94): when the
        normal of triangle `i` over the coordinates `x`, `y` points down,
        corners 1 and 2 are exchanged. It runs while the mesh is read, before
        any edges are collected. */
    method Orient(x: seq<real>, y: seq<real>, i: nat)
      requires Valid() && i < nTriangle && edges == []
      requires forall j :: 0 <= j < 3 ==> tri[j][i] < |x| && tri[j][i] < |y|
      modifies this
      ensures Valid()
      ensures tri == Oriented(x, y, old(tri), old(nTriangle), i)
      ensures nVertex == old(nVertex) && nTriangle == old(nTriangle) && nEdge == old(nEdge)
      ensures triEdgeConn == old(triEdgeConn) && edgeTable == old(edgeTable)
      ensures edgeOrderInTri == old(edgeOrderInTri) && edges == old(edges)
    {
      var a, b, c := tri[0][i], tri[1][i], tri[2][i];
      var normalZ := (x[b] - x[a]) * (y[c] - y[a]) - (y[b] - y[a]) * (x[c] - x[a]);
      if normalZ < 0.0 {
        var row1: seq<nat> := tri[1][i := c];
        var row2: seq<nat> := tri[2][i := b];
        tri := [tri[0], row1, row2];
      }
    }

    /** `find_vertex_trangle_connection` (TriangleMesh.cpp:119-125): appends
        every triangle to the list of each of its corners; lists of vertices
        no triangle touches stay as they were. */
    method FindVertexTriangleConnection(conn: array<seq<nat>>)
      requires Valid()
      requires forall j, i :: 0 <= j < 3 && 0 <= i < nTriangle ==> tri[j][i] < conn.Length
      modifies conn
      ensures forall v :: 0 <= v < conn.Length ==> conn[v] == old(conn[v]) + Incident(tri, 3, nTriangle, nTriangle, v)
    {
      var i := 0;
      while i < nTriangle
        invariant i <= nTriangle
        invariant forall v :: 0 <= v < conn.Length ==> conn[v] == Appended(old(conn[v]), tri, 3, nTriangle, i, v)
      {
        AppendCorners(conn, i);
        i := i + 1;
      }
      forall v | 0 <= v < conn.Length
        ensures conn[v] == old(conn[v]) + Incident(tri, 3, nTriangle, nTriangle, v)
      {
        AppendedIsIncident(old(conn[v]), tri, 3, nTriangle, nTriangle, v);
      }
    }

    /** The inner loop of `find_vertex_trangle_connection`: triangle `i` is
        appended to the list of each of its three corners. */
    method AppendCorners(conn: array<seq<nat>>, i: nat)
      requires Valid() && i < nTriangle
      requires forall j :: 0 <= j < 3 ==> tri[j][i] < conn.Length
      modifies conn
      ensures forall v :: 0 <= v < conn.Length ==> conn[v] == old(conn[v]) + CornerHits(tri, 3, nTriangle, i, v, 3)
    {
      var j := 0;
      while j < 3
        invariant j <= 3
        invariant forall v :: 0 <= v < conn.Length ==> conn[v] == old(conn[v]) + CornerHits(tri, 3, nTriangle, i, v, j)
      {
        var v := tri[j][i];
        conn[v] := conn[v] + [i];
        j := j + 1;
      }
    }

    /** `collect_edges` (TriangleMesh.cpp:129-199). It fails, leaving the
        mesh as it was, exactly when the bucket capacity assertion would
        abort; otherwise the edge fields hold what `Collected` describes. */
    method CollectEdges() returns (ok: bool)
      requires Valid()
      requires forall j, i :: 0 <= j < 3 && 0 <= i < nTriangle ==> tri[j][i] < nVertex
      modifies this
      ensures Valid()
      ensures nVertex == old(nVertex) && nTriangle == old(nTriangle) && tri == old(tri)
      ensures ok == BucketsFit(tri, nTriangle, nVertex)
      ensures !ok ==> nEdge == old(nEdge) && triEdgeConn == old(triEdgeConn) && edgeTable == old(edgeTable) &&
                      edgeOrderInTri == old(edgeOrderInTri) && edges == old(edges)
      ensures ok ==> nEdge == |edges| && Collected(tri, nTriangle, edges, triEdgeConn, edgeTable, edgeOrderInTri)
    {
      var records, conn;
      ok, records, conn := DiscoverEdges(tri, nTriangle, nVertex);
      if !ok {
        return;
      }
      var table := TabulateEdges(records);
      forall e | 0 <= e < |records|
        ensures records[e].owner < nTriangle
      {
        OwnerIsFirst(tri, nTriangle, records, conn, e);
      }
      var order := OrderEdges(conn, nTriangle, table, |records|);
      nEdge := |records|;
      triEdgeConn := conn;
      edgeTable := table;
      edgeOrderInTri := order;
      edges := records;
    }
  }
}
