/** The tetrahedron mesh of TetrahedronMesh.cpp: its element table, the face
    table `collect_faces` derives from it, and the vertex->tetrahedron lists
    of `find_vertex_tetrahedron_connection`. */
module Tetrahedra {
  import opened Tables
  import opened Discovery
  import opened Incidence


  /** Capacity of one vertex's face bucket (`max_nface_each_vertex`). */
  const MaxFacesPerVertex: nat := 300

  /** The table `iv`: face slot `j` of a tetrahedron is made of its corners
      `FaceCorners[j][0]`, `FaceCorners[j][1]` and `FaceCorners[j][2]`. */
  const FaceCorners: seq<seq<nat>> := [[0, 1, 2], [0, 2, 3], [0, 3, 1], [3, 2, 1]]

  /** Corner `p` of face slot `j`. */
  function Corner(j: nat, p: nat): (c: nat)
    requires j < 4 && p < 3
    ensures c < 4
  {
    assert j == 0 || j == 1 || j == 2 || j == 3;
    assert p == 0 || p == 1 || p == 2;
    FaceCorners[j][p]
  }

  /** The sorted vertex triple of a face. */
  type FaceKey = (nat, nat, nat)

  /** The tuple `collect_faces` keeps per face: its key, smallest vertex
      first, the first tetrahedron that met it and the last later one
      (`nTetrahedron + 1` when none did). */
  datatype FaceRecord = FaceRecord(low: nat, mid: nat, high: nat, owner: nat, neighbour: nat)
  {
    function Key(): FaceKey
    {
      (low, mid, high)
    }
  }

  /** `std::sort` on the three vertices of a face slot (the vector `giv`):
      the same values, in ascending order. */
  function Sort3(x: nat, y: nat, z: nat): (k: FaceKey)
    ensures k.0 <= k.1 <= k.2
  {
    if x <= y then
      if y <= z then (x, y, z) else if x <= z then (x, z, y) else (z, x, y)
    else
      if x <= z then (y, x, z) else if y <= z then (y, z, x) else (z, y, x)
  }

  /** Sorting keeps the three values: the result is a permutation. */
  lemma {:induction false} Sort3Permutes(x: nat, y: nat, z: nat)
    ensures var k := Sort3(x, y, z);
      multiset{k.0, k.1, k.2} == multiset{x, y, z}
  {
  }

  /** The sorted triple depends only on the three values, not on their
      order: two slots with the same vertices get the same key. */
  lemma {:induction false} Sort3Canonical(x: nat, y: nat, z: nat, x': nat, y': nat, z': nat)
    requires multiset{x, y, z} == multiset{x', y', z'}
    ensures Sort3(x, y, z) == Sort3(x', y', z')
  {
    var k, k' := Sort3(x, y, z), Sort3(x', y', z');
    Sort3Permutes(x, y, z);
    Sort3Permutes(x', y', z');
    SortedUnique(k, k');
  }

  /** Two ascending triples holding the same values are equal. */
  lemma {:induction false} SortedUnique(k: FaceKey, k': FaceKey)
    requires k.0 <= k.1 <= k.2 && k'.0 <= k'.1 <= k'.2
    requires multiset{k.0, k.1, k.2} == multiset{k'.0, k'.1, k'.2}
    ensures k == k'
  {
    var m := multiset{k.0, k.1, k.2};
    assert k'.0 in m && k.0 in multiset{k'.0, k'.1, k'.2};
    assert k.0 == k'.0;
    assert multiset{k.1, k.2} == m - multiset{k.0};
    assert multiset{k'.1, k'.2} == m - multiset{k'.0};
    assert k'.1 in multiset{k.1, k.2} && k.1 in multiset{k'.1, k'.2};
    assert k.1 == k'.1;
    assert multiset{k.2} == multiset{k.1, k.2} - multiset{k.1};
    assert multiset{k'.2} == multiset{k'.1, k'.2} - multiset{k'.1};
    assert k.2 in multiset{k'.2};
  }

  /** Slot `j` of tetrahedron `i` is the face through its corners
      `FaceCorners[j]`; its key is their vertices sorted ascending. */
  function FaceKeyOf(tet: seq<seq<nat>>, n: nat, i: nat, j: nat): (k: FaceKey)
    requires Columns(tet, 4, n) && i < n && j < 4
    ensures k.0 <= k.1 <= k.2
  {
    Sort3(tet[Corner(j, 0)][i], tet[Corner(j, 1)][i], tet[Corner(j, 2)][i])
  }

  /** The key of a slot holds exactly the vertices of its three corners. */
  lemma {:induction false} FaceKeyVertices(tet: seq<seq<nat>>, n: nat, i: nat, j: nat)
    requires Columns(tet, 4, n) && i < n && j < 4
    ensures var k := FaceKeyOf(tet, n, i, j);
      multiset{k.0, k.1, k.2} == multiset{tet[Corner(j, 0)][i], tet[Corner(j, 1)][i], tet[Corner(j, 2)][i]}
  {
    Sort3Permutes(tet[Corner(j, 0)][i], tet[Corner(j, 1)][i], tet[Corner(j, 2)][i]);
  }

  /** The keys of the four slots of tetrahedron `i`, slot 0 first. */
  function SlotKeys(tet: seq<seq<nat>>, n: nat, i: nat): seq<FaceKey>
    requires Columns(tet, 4, n) && i < n
  {
    [FaceKeyOf(tet, n, i, 0), FaceKeyOf(tet, n, i, 1), FaceKeyOf(tet, n, i, 2), FaceKeyOf(tet, n, i, 3)]
  }

  /** The keys of every slot of tetrahedra `0 .. m-1`, in the order the
      builder meets them: tetrahedron by tetrahedron, slots 0 to 3. */
  function FaceKeys(tet: seq<seq<nat>>, n: nat, m: nat): (ks: seq<FaceKey>)
    requires Columns(tet, 4, n) && m <= n
    ensures |ks| == 4 * m
  {
    if m == 0 then [] else FaceKeys(tet, n, m - 1) + SlotKeys(tet, n, m - 1)
  }

  /** Slot `4 * i + j` of the run is slot `j` of tetrahedron `i`. */
  lemma {:induction false} FaceKeysAt(tet: seq<seq<nat>>, n: nat, m: nat, i: nat, j: nat)
    requires Columns(tet, 4, n) && i < m <= n && j < 4
    ensures FaceKeys(tet, n, m)[4 * i + j] == FaceKeyOf(tet, n, i, j)
    decreases m
  {
    if i < m - 1 {
      FaceKeysAt(tet, n, m - 1, i, j);
    }
  }

  /** The record the builder holds for key `k` once the slots `ks` are met. */
  function RecordOf(ks: seq<FaceKey>, k: FaceKey, n: nat): FaceRecord
    requires k in ks
  {
    FaceRecord(k.0, k.1, k.2, Owner(ks, k, 4), Neighbour(ks, k, 4, n + 1))
  }

  /** Numbers of the keys in `d` whose smallest vertex is `v`, in increasing
      order: the contents of the bucket `localface[0 .. nlocalface[v]-1][v]`. */
  function BucketOf(d: seq<FaceKey>, v: nat): seq<nat>
    decreases |d|
  {
    if d == [] then []
    else BucketOf(d[..|d| - 1], v) + (if d[|d| - 1].0 == v then [|d| - 1] else [])
  }

  /** A bucket lists exactly the numbers of the keys starting at its vertex. */
  lemma {:induction false} BucketMembers(d: seq<FaceKey>, v: nat)
    ensures forall f: nat :: f in BucketOf(d, v) <==> f < |d| && d[f].0 == v
    decreases |d|
  {
    if d != [] {
      BucketMembers(d[..|d| - 1], v);
    }
  }

  /** Every vertex below `nVertex` is the smallest vertex of fewer than
      `MaxFacesPerVertex` of the keys in `d`. */
  ghost predicate Fits(d: seq<FaceKey>, nVertex: nat)
  {
    forall v :: 0 <= v < nVertex ==> |BucketOf(d, v)| < MaxFacesPerVertex
  }

  /** No bucket of the whole run reaches capacity: exactly when the
      capacity assertion never fires. */
  ghost predicate BucketsFit(tet: seq<seq<nat>>, n: nat, nVertex: nat)
    requires Columns(tet, 4, n)
  {
    Fits(Distinct(FaceKeys(tet, n, n)), nVertex)
  }

  /** The face records after the slots `seen` are met. */
  ghost predicate Recorded(seen: seq<FaceKey>, faces: seq<FaceRecord>, n: nat)
  {
    && |faces| == |Distinct(seen)|
    && forall f {:trigger RecordOf(seen, Distinct(seen)[f], n)} :: 0 <= f < |faces| ==>
         faces[f] == RecordOf(seen, Distinct(seen)[f], n)
  }

  lemma {:induction false} RecordedAt(seen: seq<FaceKey>, faces: seq<FaceRecord>, n: nat, f: nat)
    requires Recorded(seen, faces, n) && f < |faces|
    ensures faces[f] == RecordOf(seen, Distinct(seen)[f], n)
  {
  }

  /** Slot `j` of tetrahedron `i` is mapped to the face whose key is its own. */
  ghost predicate SlotMapped(tet: seq<seq<nat>>, n: nat, conn: seq<seq<nat>>, faces: seq<FaceRecord>, i: nat, j: nat)
    requires Columns(tet, 4, n) && Columns(conn, 4, n) && i < n && j < 4
  {
    conn[j][i] < |faces| && faces[conn[j][i]].Key() == FaceKeyOf(tet, n, i, j)
  }

  /** Every slot met before slot `j` of tetrahedron `i` is mapped. */
  ghost predicate MappedBefore(tet: seq<seq<nat>>, n: nat, conn: seq<seq<nat>>, faces: seq<FaceRecord>, i: nat, j: nat)
    requires Columns(tet, 4, n) && Columns(conn, 4, n)
  {
    forall i', j' :: 0 <= i' < n && 0 <= j' < 4 && (i' < i || (i' == i && j' < j)) ==>
      SlotMapped(tet, n, conn, faces, i', j')
  }

  /** Registering slot `j` of tetrahedron `i` keeps the earlier slots mapped. */
  lemma {:induction false} MappedStep(tet: seq<seq<nat>>, n: nat, conn: seq<seq<nat>>, faces: seq<FaceRecord>,
                                      conn': seq<seq<nat>>, faces': seq<FaceRecord>, i: nat, j: nat)
    requires Columns(tet, 4, n) && Columns(conn, 4, n) && Columns(conn', 4, n) && i < n && j < 4
    requires MappedBefore(tet, n, conn, faces, i, j)
    requires |faces| <= |faces'|
    requires forall c :: 0 <= c < |faces| ==> faces'[c].Key() == faces[c].Key()
    requires forall i', j' :: 0 <= i' < n && 0 <= j' < 4 && (i' != i || j' != j) ==> conn'[j'][i'] == conn[j'][i']
    requires SlotMapped(tet, n, conn', faces', i, j)
    ensures MappedBefore(tet, n, conn', faces', i, j + 1)
    ensures j == 3 ==> MappedBefore(tet, n, conn', faces', i + 1, 0)
  {
    forall i', j' | 0 <= i' < n && 0 <= j' < 4 && (i' < i || (i' == i && j' < j))
      ensures SlotMapped(tet, n, conn', faces', i', j')
    {
      assert SlotMapped(tet, n, conn, faces, i', j');
    }
  }

  /** What the first pass (TetrahedronMesh.cpp:134-158) leaves: one record
      per distinct key in order of first discovery, and every slot of every
      tetrahedron mapped to the face carrying its key. */
  ghost predicate FaceTable(tet: seq<seq<nat>>, n: nat, faces: seq<FaceRecord>, conn: seq<seq<nat>>)
    requires Columns(tet, 4, n)
  {
    && Recorded(FaceKeys(tet, n, n), faces, n)
    && Columns(conn, 4, n)
    && forall i, j :: 0 <= i < n && 0 <= j < 4 ==> SlotMapped(tet, n, conn, faces, i, j)
  }

  /** The buckets (`localface[..][v]`, with `nlocalface[v]` entries) list,
      per vertex, the numbers of the keys of `d` whose smallest vertex it
      is, and stay below capacity. */
  ghost predicate BucketsHold(d: seq<FaceKey>, localFace: seq<seq<nat>>, nVertex: nat)
  {
    && |localFace| == nVertex
    && (forall v {:trigger BucketOf(d, v)} :: 0 <= v < nVertex ==> localFace[v] == BucketOf(d, v))
    && Fits(d, nVertex)
  }

  lemma {:induction false} BucketAt(d: seq<FaceKey>, localFace: seq<seq<nat>>, nVertex: nat, v: nat)
    requires BucketsHold(d, localFace, nVertex) && v < nVertex
    ensures localFace[v] == BucketOf(d, v) && |localFace[v]| < MaxFacesPerVertex
  {
  }

  lemma {:induction false} BucketSnoc(d: seq<FaceKey>, k: FaceKey, v: nat)
    ensures BucketOf(d + [k], v) == BucketOf(d, v) + (if k.0 == v then [|d|] else [])
  {
    assert (d + [k])[..|d|] == d;
  }

  /** Buckets other than the new key's keep their sizes. */
  lemma {:induction false} FitsSnoc(d: seq<FaceKey>, k: FaceKey, nVertex: nat)
    requires Fits(d, nVertex) && |BucketOf(d + [k], k.0)| < MaxFacesPerVertex
    ensures Fits(d + [k], nVertex)
  {
    forall v | 0 <= v < nVertex
      ensures |BucketOf(d + [k], v)| < MaxFacesPerVertex
    {
      BucketSnoc(d, k, v);
    }
  }

  lemma {:induction false} FaceKeysPrefix(tet: seq<seq<nat>>, n: nat, m: nat, m': nat)
    requires Columns(tet, 4, n) && m <= m' <= n
    ensures FaceKeys(tet, n, m) <= FaceKeys(tet, n, m')
    decreases m' - m
  {
    if m < m' {
      FaceKeysPrefix(tet, n, m, m' - 1);
    }
  }

  lemma {:induction false} SlotKeysStep(tet: seq<seq<nat>>, n: nat, i: nat, j: nat)
    requires Columns(tet, 4, n) && i < n && j < 4
    ensures SlotKeys(tet, n, i)[..j + 1] == SlotKeys(tet, n, i)[..j] + [FaceKeyOf(tet, n, i, j)]
  {
  }

  /** The slots met up to and including slot `j` of tetrahedron `i` are a
      prefix of all slots. */
  lemma {:induction false} SlotsMetPrefix(tet: seq<seq<nat>>, n: nat, i: nat, j: nat)
    requires Columns(tet, 4, n) && i < n && j < 4
    ensures var all := FaceKeys(tet, n, n);
      var met := FaceKeys(tet, n, i) + SlotKeys(tet, n, i)[..j] + [FaceKeyOf(tet, n, i, j)];
      |met| <= |all| && all[..|met|] == met
  {
    var met := FaceKeys(tet, n, i) + SlotKeys(tet, n, i)[..j] + [FaceKeyOf(tet, n, i, j)];
    FaceKeysPrefix(tet, n, i + 1, n);
    SlotKeysStep(tet, n, i, j);
    assert FaceKeys(tet, n, i + 1) == FaceKeys(tet, n, i) + SlotKeys(tet, n, i);
    assert met <= FaceKeys(tet, n, i + 1);
  }

  lemma {:induction false} BucketPrefix(d0: seq<FaceKey>, d: seq<FaceKey>, v: nat)
    requires d0 <= d
    ensures |BucketOf(d0, v)| <= |BucketOf(d, v)|
    decreases |d|
  {
    if |d0| < |d| {
      assert d0 <= d[..|d| - 1];
      BucketPrefix(d0, d[..|d| - 1], v);
    } else {
      assert d0 == d;
    }
  }

  /** A slot whose key was met before: the records keep their numbers and
      the matched face's neighbour becomes the current tetrahedron. */
  lemma {:induction false} FoundStep(seen: seq<FaceKey>, faces: seq<FaceRecord>, n: nat, id: nat, i: nat)
    requires Recorded(seen, faces, n) && id < |faces| && i == |seen| / 4
    ensures Distinct(seen + [Distinct(seen)[id]]) == Distinct(seen)
    ensures Recorded(seen + [Distinct(seen)[id]], faces[id := faces[id].(neighbour := i)], n)
  {
    var d := Distinct(seen);
    var k := d[id];
    DistinctSnoc(seen, k);
    forall f | 0 <= f < |faces|
      ensures faces[id := faces[id].(neighbour := i)][f] == RecordOf(seen + [k], d[f], n)
    {
      RecordedAt(seen, faces, n, f);
      FirstIndexSnoc(seen, k, d[f]);
      LastIndexSnoc(seen, k, d[f]);
      if f != id {
        assert d[f] != k;
      }
    }
  }

  /** A slot whose key is new: it gets the next number, the current
      tetrahedron as owner and the sentinel as neighbour. */
  lemma {:induction false} NewStep(seen: seq<FaceKey>, faces: seq<FaceRecord>, n: nat, k: FaceKey, i: nat)
    requires Recorded(seen, faces, n) && k !in seen && i == |seen| / 4
    ensures Distinct(seen + [k]) == Distinct(seen) + [k]
    ensures Recorded(seen + [k], faces + [FaceRecord(k.0, k.1, k.2, i, n + 1)], n)
  {
    var d := Distinct(seen);
    DistinctSnoc(seen, k);
    forall f | 0 <= f < |faces| + 1
      ensures (faces + [FaceRecord(k.0, k.1, k.2, i, n + 1)])[f] == RecordOf(seen + [k], (d + [k])[f], n)
    {
      if f < |faces| {
        RecordedAt(seen, faces, n, f);
        FirstIndexSnoc(seen, k, d[f]);
        LastIndexSnoc(seen, k, d[f]);
      } else {
        assert (seen + [k])[|seen|] == k;
        LastIndexSnoc(seen, k, k);
      }
    }
  }

  /** The bucket scan of TetrahedronMesh.cpp:139-146: the first position `k`
      in `bucket` (the faces whose smallest vertex is `giv[0]`) whose face
      continues with `mid` and `high`, or the bucket's size when none does. */
  method FindFace(faces: seq<FaceRecord>, bucket: seq<nat>, mid: nat, high: nat) returns (k: nat)
    requires forall x :: 0 <= x < |bucket| ==> bucket[x] < |faces|
    ensures k <= |bucket|
    ensures k < |bucket| ==> faces[bucket[k]].mid == mid && faces[bucket[k]].high == high
    ensures forall x :: 0 <= x < k ==> !(faces[bucket[x]].mid == mid && faces[bucket[x]].high == high)
  {
    k := 0;
    while k < |bucket|
      invariant k <= |bucket|
      invariant forall x :: 0 <= x < k ==> !(faces[bucket[x]].mid == mid && faces[bucket[x]].high == high)
    {
      if faces[bucket[k]].mid == mid && faces[bucket[k]].high == high {
        return;
      }
      k := k + 1;
    }
  }

  /** What registering slot `j` of tetrahedron `i` leaves: the records of
      the slots met so far plus this one, the earlier faces keeping their
      keys, this slot mapped and no other slot touched, and the buckets
      either up to date or (`full`) the bucket of the slot's smallest vertex
      at capacity. */
  ghost predicate SlotRegistered(tet: seq<seq<nat>>, n: nat, nVertex: nat, i: nat, j: nat, seen: seq<FaceKey>,
                                 faces: seq<FaceRecord>, conn: seq<seq<nat>>,
                                 full: bool, faces': seq<FaceRecord>, conn': seq<seq<nat>>, localFace': seq<seq<nat>>)
    requires Columns(tet, 4, n) && Columns(conn, 4, n) && i < n && j < 4
  {
    var key := FaceKeyOf(tet, n, i, j);
    && Recorded(seen + [key], faces', n)
    && |faces| <= |faces'|
    && (forall c :: 0 <= c < |faces| ==> faces'[c].Key() == faces[c].Key())
    && Columns(conn', 4, n)
    && SlotMapped(tet, n, conn', faces', i, j)
    && (forall i', j' :: 0 <= i' < n && 0 <= j' < 4 && (i' != i || j' != j) ==> conn'[j'][i'] == conn[j'][i'])
    && (!full ==> BucketsHold(Distinct(seen + [key]), localFace', nVertex))
    && (full ==> |BucketOf(Distinct(seen + [key]), key.0)| >= MaxFacesPerVertex)
  }

  /** The slot's key is the one of face `id`: that face takes tetrahedron
      `i` as its neighbour and the slot is mapped to it. */
  lemma {:induction false} MatchedSlot(tet: seq<seq<nat>>, n: nat, nVertex: nat, i: nat, j: nat, seen: seq<FaceKey>,
                                       faces: seq<FaceRecord>, conn: seq<seq<nat>>, localFace: seq<seq<nat>>, id: nat)
    requires Columns(tet, 4, n) && Columns(conn, 4, n) && i < n && j < 4 && |seen| == 4 * i + j
    requires Recorded(seen, faces, n) && BucketsHold(Distinct(seen), localFace, nVertex)
    requires id < |faces| && faces[id].Key() == FaceKeyOf(tet, n, i, j)
    ensures var row: seq<nat> := conn[j][i := id];
      SlotRegistered(tet, n, nVertex, i, j, seen, faces, conn,
                     false, faces[id := faces[id].(neighbour := i)], conn[j := row], localFace)
  {
    RecordedAt(seen, faces, n, id);
    FoundStep(seen, faces, n, id, i);
    ColumnsUpdate(conn, 4, n, j, i, id);
  }

  /** A key whose bucket holds no face continuing with its other two
      vertices was not met. */
  lemma {:induction false} KeyIsNew(seen: seq<FaceKey>, faces: seq<FaceRecord>, n: nat, localFace: seq<seq<nat>>,
                                    nVertex: nat, key: FaceKey)
    requires Recorded(seen, faces, n) && BucketsHold(Distinct(seen), localFace, nVertex) && key.0 < nVertex
    requires forall x :: 0 <= x < |localFace[key.0]| ==>
      localFace[key.0][x] < |faces| &&
      !(faces[localFace[key.0][x]].mid == key.1 && faces[localFace[key.0][x]].high == key.2)
    ensures key !in seen
  {
    var d := Distinct(seen);
    if key in seen {
      DistinctCovers(seen, key);
      var f :| 0 <= f < |d| && d[f] == key;
      BucketMembers(d, key.0);
      var x :| 0 <= x < |localFace[key.0]| && localFace[key.0][x] == f;
      RecordedAt(seen, faces, n, f);
    }
  }

  /** A new key joins the bucket of its smallest vertex, as the next number;
      either every bucket stays below capacity or that one reaches it. */
  lemma {:induction false} AppendedBuckets(seen: seq<FaceKey>, localFace: seq<seq<nat>>, nVertex: nat, key: FaceKey)
    requires BucketsHold(Distinct(seen), localFace, nVertex) && key !in seen && key.0 < nVertex
    ensures var entry: seq<nat> := [|Distinct(seen)|];
      var localFace' := localFace[key.0 := localFace[key.0] + entry];
      var full := |localFace'[key.0]| >= MaxFacesPerVertex;
      && (!full ==> BucketsHold(Distinct(seen + [key]), localFace', nVertex))
      && (full ==> |BucketOf(Distinct(seen + [key]), key.0)| >= MaxFacesPerVertex)
  {
    var d := Distinct(seen);
    DistinctSnoc(seen, key);
    var entry: seq<nat> := [|d|];
    var localFace' := localFace[key.0 := localFace[key.0] + entry];
    forall v | 0 <= v < nVertex
      ensures localFace'[v] == BucketOf(d + [key], v)
    {
      BucketAt(d, localFace, nVertex, v);
      BucketSnoc(d, key, v);
    }
    if |localFace'[key.0]| < MaxFacesPerVertex {
      FitsSnoc(d, key, nVertex);
    }
  }

  /** No face in the bucket of the slot's smallest vertex matches the rest
      of its key: the key is new, becomes face `|faces|` owned by
      tetrahedron `i`, and joins that bucket. */
  lemma {:induction false} AppendedSlot(tet: seq<seq<nat>>, n: nat, nVertex: nat, i: nat, j: nat, seen: seq<FaceKey>,
                                        faces: seq<FaceRecord>, conn: seq<seq<nat>>, localFace: seq<seq<nat>>)
    requires Columns(tet, 4, n) && Columns(conn, 4, n) && i < n && j < 4 && |seen| == 4 * i + j
    requires Recorded(seen, faces, n) && BucketsHold(Distinct(seen), localFace, nVertex)
    requires FaceKeyOf(tet, n, i, j) !in seen && FaceKeyOf(tet, n, i, j).0 < nVertex
    ensures var key := FaceKeyOf(tet, n, i, j);
      var entry: seq<nat> := [|faces|];
      var localFace' := localFace[key.0 := localFace[key.0] + entry];
      var row: seq<nat> := conn[j][i := |faces|];
      SlotRegistered(tet, n, nVertex, i, j, seen, faces, conn,
                     |localFace'[key.0]| >= MaxFacesPerVertex, faces + [FaceRecord(key.0, key.1, key.2, i, n + 1)],
                     conn[j := row], localFace')
  {
    var key := FaceKeyOf(tet, n, i, j);
    NewStep(seen, faces, n, key, i);
    AppendedBuckets(seen, localFace, nVertex, key);
    ColumnsUpdate(conn, 4, n, j, i, |faces|);
  }

  /** One slot of the first pass (TetrahedronMesh.cpp:136-156): the
      vertices of slot `j` of tetrahedron `i` are sorted into `giv`, looked
      up in the bucket of `giv[0]` and either matched to a known face, which
      takes `i` as neighbour, or appended as a new face owned by `i`. `full`
      reports that the bucket reached its capacity, where the assertion at
      line 155 aborts. */
  method RegisterSlot(tet: seq<seq<nat>>, nTetrahedron: nat, nVertex: nat, i: nat, j: nat, ghost seen: seq<FaceKey>,
                      faces: seq<FaceRecord>, conn: seq<seq<nat>>, nFace: nat, localFace: seq<seq<nat>>)
    returns (full: bool, faces': seq<FaceRecord>, conn': seq<seq<nat>>, nFace': nat, localFace': seq<seq<nat>>)
    requires Columns(tet, 4, nTetrahedron) && i < nTetrahedron && j < 4 && |seen| == 4 * i + j
    requires forall r :: 0 <= r < 4 ==> tet[r][i] < nVertex
    requires Recorded(seen, faces, nTetrahedron) && nFace == |faces| && Columns(conn, 4, nTetrahedron)
    requires BucketsHold(Distinct(seen), localFace, nVertex)
    ensures SlotRegistered(tet, nTetrahedron, nVertex, i, j, seen, faces, conn, full, faces', conn', localFace')
    ensures nFace' == |faces'|
  {
    var giv := Sort3(tet[Corner(j, 0)][i], tet[Corner(j, 1)][i], tet[Corner(j, 2)][i]);
    assert giv == FaceKeyOf(tet, nTetrahedron, i, j);
    Sort3Permutes(tet[Corner(j, 0)][i], tet[Corner(j, 1)][i], tet[Corner(j, 2)][i]);
    assert giv.0 in multiset{giv.0, giv.1, giv.2};
    assert giv.0 in multiset{tet[Corner(j, 0)][i], tet[Corner(j, 1)][i], tet[Corner(j, 2)][i]};
    var low := giv.0;
    BucketMembers(Distinct(seen), low);
    assert forall x :: 0 <= x < |localFace[low]| ==> localFace[low][x] in BucketOf(Distinct(seen), low);
    var k := FindFace(faces, localFace[low], giv.1, giv.2);
    if k < |localFace[low]| {
      // the face exists: the current tetrahedron becomes its neighbour
      var id := localFace[low][k];
      RecordedAt(seen, faces, nTetrahedron, id);
      MatchedSlot(tet, nTetrahedron, nVertex, i, j, seen, faces, conn, localFace, id);
      full := false;
      faces' := faces[id := faces[id].(neighbour := i)];
      conn' := conn[j := conn[j][i := id]];
      nFace', localFace' := nFace, localFace;
    } else {
      // the face is new
      KeyIsNew(seen, faces, nTetrahedron, localFace, nVertex, giv);
      AppendedSlot(tet, nTetrahedron, nVertex, i, j, seen, faces, conn, localFace);
      faces' := faces + [FaceRecord(giv.0, giv.1, giv.2, i, nTetrahedron + 1)];
      localFace' := localFace[low := localFace[low] + [nFace]];
      conn' := conn[j := conn[j][i := localFace'[low][k]]];
      nFace' := nFace + 1;
      full := |localFace'[low]| >= MaxFacesPerVertex;
    }
  }

  /** A bucket that reaches capacity while the slots up to slot `j` of
      tetrahedron `i` are met stays at or above it for the whole run. */
  lemma {:induction false} Overflow(tet: seq<seq<nat>>, n: nat, nVertex: nat, i: nat, j: nat)
    requires Columns(tet, 4, n) && i < n && j < 4 && FaceKeyOf(tet, n, i, j).0 < nVertex
    requires var met := FaceKeys(tet, n, i) + SlotKeys(tet, n, i)[..j] + [FaceKeyOf(tet, n, i, j)];
      |BucketOf(Distinct(met), FaceKeyOf(tet, n, i, j).0)| >= MaxFacesPerVertex
    ensures !BucketsFit(tet, n, nVertex)
  {
    var all := FaceKeys(tet, n, n);
    var met := FaceKeys(tet, n, i) + SlotKeys(tet, n, i)[..j] + [FaceKeyOf(tet, n, i, j)];
    SlotsMetPrefix(tet, n, i, j);
    DistinctPrefix(all, |met|);
    BucketPrefix(Distinct(met), Distinct(all), FaceKeyOf(tet, n, i, j).0);
  }

  /** The four slots of tetrahedron `i` (the inner loop at
      TetrahedronMesh.cpp:135-157), stopping at the first slot that fills a
      bucket. */
  method RegisterTetrahedron(tet: seq<seq<nat>>, nTetrahedron: nat, nVertex: nat, i: nat, ghost seen: seq<FaceKey>,
                             faces: seq<FaceRecord>, conn: seq<seq<nat>>, nFace: nat, localFace: seq<seq<nat>>)
    returns (full: bool, faces': seq<FaceRecord>, conn': seq<seq<nat>>, nFace': nat, localFace': seq<seq<nat>>)
    requires Columns(tet, 4, nTetrahedron) && i < nTetrahedron
    requires forall r :: 0 <= r < 4 ==> tet[r][i] < nVertex
    requires seen == FaceKeys(tet, nTetrahedron, i)
    requires Recorded(seen, faces, nTetrahedron) && nFace == |faces| && Columns(conn, 4, nTetrahedron)
    requires MappedBefore(tet, nTetrahedron, conn, faces, i, 0)
    requires BucketsHold(Distinct(seen), localFace, nVertex)
    ensures full ==> !BucketsFit(tet, nTetrahedron, nVertex)
    ensures !full ==> && Recorded(FaceKeys(tet, nTetrahedron, i + 1), faces', nTetrahedron) && nFace' == |faces'|
                      && Columns(conn', 4, nTetrahedron) && MappedBefore(tet, nTetrahedron, conn', faces', i + 1, 0)
                      && BucketsHold(Distinct(FaceKeys(tet, nTetrahedron, i + 1)), localFace', nVertex)
  {
    faces', conn', nFace', localFace' := faces, conn, nFace, localFace;
    ghost var met := seen;
    full := false;
    var j := 0;
    while j < 4
      invariant j <= 4 && !full
      invariant met == FaceKeys(tet, nTetrahedron, i) + SlotKeys(tet, nTetrahedron, i)[..j]
      invariant Recorded(met, faces', nTetrahedron) && nFace' == |faces'| && Columns(conn', 4, nTetrahedron)
      invariant MappedBefore(tet, nTetrahedron, conn', faces', i, j)
      invariant j == 4 ==> MappedBefore(tet, nTetrahedron, conn', faces', i + 1, 0)
      invariant BucketsHold(Distinct(met), localFace', nVertex)
    {
      var faces'', conn'';
      full, faces'', conn'', nFace', localFace' := RegisterSlot(tet, nTetrahedron, nVertex, i, j, met,
                                                               faces', conn', nFace', localFace');
      MappedStep(tet, nTetrahedron, conn', faces', conn'', faces'', i, j);
      if full {
        // the capacity assertion at line 155 fires
        Overflow(tet, nTetrahedron, nVertex, i, j);
        return;
      }
      faces', conn' := faces'', conn'';
      SlotKeysStep(tet, nTetrahedron, i, j);
      met := met + [FaceKeyOf(tet, nTetrahedron, i, j)];
      j := j + 1;
    }
    assert SlotKeys(tet, nTetrahedron, i)[..4] == SlotKeys(tet, nTetrahedron, i);
    assert met == FaceKeys(tet, nTetrahedron, i + 1);
  }

  /** The first pass of `collect_faces` (TetrahedronMesh.cpp:115-158): every
      slot of every tetrahedron is looked up in the bucket of its smallest
      vertex and either matched to a known face or appended as a new one. It
      fails (`ok == false`, the assertion at line 155 aborting) exactly when
      some vertex is the smallest vertex of `MaxFacesPerVertex` distinct
      faces. */
  method DiscoverFaces(tet: seq<seq<nat>>, nTetrahedron: nat, nVertex: nat)
    returns (ok: bool, faces: seq<FaceRecord>, conn: seq<seq<nat>>)
    requires Columns(tet, 4, nTetrahedron)
    requires forall r, i :: 0 <= r < 4 && 0 <= i < nTetrahedron ==> tet[r][i] < nVertex
    ensures ok == BucketsFit(tet, nTetrahedron, nVertex)
    ensures ok ==> FaceTable(tet, nTetrahedron, faces, conn)
  {
    var localFace: seq<seq<nat>> := seq(nVertex, _ => []);
    var nFace := 0;
    faces := [];
    conn := [seq(nTetrahedron, _ => 0), seq(nTetrahedron, _ => 0), seq(nTetrahedron, _ => 0), seq(nTetrahedron, _ => 0)];
    var i := 0;
    while i < nTetrahedron
      invariant i <= nTetrahedron
      invariant Recorded(FaceKeys(tet, nTetrahedron, i), faces, nTetrahedron) && nFace == |faces|
      invariant Columns(conn, 4, nTetrahedron) && MappedBefore(tet, nTetrahedron, conn, faces, i, 0)
      invariant BucketsHold(Distinct(FaceKeys(tet, nTetrahedron, i)), localFace, nVertex)
    {
      var full;
      full, faces, conn, nFace, localFace := RegisterTetrahedron(tet, nTetrahedron, nVertex, i, FaceKeys(tet, nTetrahedron, i),
                                                                 faces, conn, nFace, localFace);
      if full {
        return false, faces, conn;
      }
      i := i + 1;
    }
    ok := true;
  }

  /** The second pass of `collect_faces` (TetrahedronMesh.cpp:177-187): both
      rows start at 4; row 0 of face `f` becomes the last slot of its owner
      (`table[3][f]`) mapped to `f`, row 1 the last slot of its neighbour
      (`table[4][f]`) mapped to `f`. A boundary face's neighbour is the
      sentinel `nTetrahedron + 1`, which the source reads past the end of
      `tet_face_conn_`; here row 1 is only updated for a neighbour below
      `nTetrahedron`, so it keeps 4. */
  method OrderFaces(conn: seq<seq<nat>>, nTetrahedron: nat, table: seq<seq<nat>>, nFace: nat)
    returns (order: seq<seq<nat>>)
    requires Columns(conn, 4, nTetrahedron) && Columns(table, 5, nFace)
    requires forall f :: 0 <= f < nFace ==> table[3][f] < nTetrahedron
    ensures Columns(order, 2, nFace)
    ensures forall f :: 0 <= f < nFace ==> LastSlotOf(conn, table[3][f], f, 4, order[0][f])
    ensures forall f :: 0 <= f < nFace ==>
      if table[4][f] < nTetrahedron then LastSlotOf(conn, table[4][f], f, 4, order[1][f]) else order[1][f] == 4
  {
    var first: seq<nat> := seq(nFace, _ => 4);
    var second: seq<nat> := seq(nFace, _ => 4);
    var j := 0;
    while j < nFace
      invariant j <= nFace && |first| == nFace && |second| == nFace
      invariant forall f :: 0 <= f < j ==> LastSlotOf(conn, table[3][f], f, 4, first[f])
      invariant forall f :: 0 <= f < j ==>
        if table[4][f] < nTetrahedron then LastSlotOf(conn, table[4][f], f, 4, second[f]) else second[f] == 4
      invariant forall f :: j <= f < nFace ==> first[f] == 4 && second[f] == 4
    {
      var ik, ik' := table[3][j], table[4][j];
      ghost var first0, second0 := first, second;
      var i := 0;
      while i < 4
        invariant i <= 4 && |first| == nFace && |second| == nFace
        invariant forall f :: 0 <= f < nFace && f != j ==> first[f] == first0[f] && second[f] == second0[f]
        invariant LastSlotOf(conn, ik, j, i, first[j])
        invariant if ik' < nTetrahedron then LastSlotOf(conn, ik', j, i, second[j]) else second[j] == 4
      {
        if conn[i][ik] == j {
          first := first[j := i];
        }
        if ik' < nTetrahedron && conn[i][ik'] == j {
          second := second[j := i];
        }
        i := i + 1;
      }
      j := j + 1;
    }
    order := [first, second];
  }

  // ---------------------------------------------------------------------
  // What the face table means, stated through the slot map `conn`
  // ---------------------------------------------------------------------

  /** Position `p` of the run is slot `p % 4` of tetrahedron `p / 4`. */
  lemma {:induction false} SlotAtPosition(tet: seq<seq<nat>>, n: nat, p: nat)
    requires Columns(tet, 4, n) && p < 4 * n
    ensures p / 4 < n && FaceKeys(tet, n, n)[p] == FaceKeyOf(tet, n, p / 4, p % 4)
  {
    FaceKeysAt(tet, n, n, p / 4, p % 4);
  }

  /** A slot refers to face `f` exactly when its key is the key of `f`. */
  lemma {:induction false} SlotRefers(tet: seq<seq<nat>>, n: nat, faces: seq<FaceRecord>, conn: seq<seq<nat>>,
                                      i: nat, j: nat, f: nat)
    requires Columns(tet, 4, n) && FaceTable(tet, n, faces, conn) && i < n && j < 4 && f < |faces|
    ensures conn[j][i] == f <==> FaceKeyOf(tet, n, i, j) == faces[f].Key()
  {
    var ks := FaceKeys(tet, n, n);
    var c := conn[j][i];
    assert SlotMapped(tet, n, conn, faces, i, j);
    RecordedAt(ks, faces, n, c);
    RecordedAt(ks, faces, n, f);
  }

  /** Slot `j` of tetrahedron `i` refers to the face whose stored triple is
      the vertices of corners `FaceCorners[j]` in ascending order. */
  lemma {:induction false} SlotFaceVertices(tet: seq<seq<nat>>, n: nat, faces: seq<FaceRecord>, conn: seq<seq<nat>>,
                                            i: nat, j: nat)
    requires Columns(tet, 4, n) && FaceTable(tet, n, faces, conn) && i < n && j < 4
    ensures conn[j][i] < |faces|
    ensures var r := faces[conn[j][i]];
      r.low <= r.mid <= r.high &&
      multiset{r.low, r.mid, r.high} == multiset{tet[Corner(j, 0)][i], tet[Corner(j, 1)][i], tet[Corner(j, 2)][i]}
  {
    assert SlotMapped(tet, n, conn, faces, i, j);
    FaceKeyVertices(tet, n, i, j);
  }

  /** Every stored face has its vertices in ascending order. */
  lemma {:induction false} FaceSorted(tet: seq<seq<nat>>, n: nat, faces: seq<FaceRecord>, conn: seq<seq<nat>>, f: nat)
    requires Columns(tet, 4, n) && FaceTable(tet, n, faces, conn) && f < |faces|
    ensures faces[f].low <= faces[f].mid <= faces[f].high
  {
    var ks := FaceKeys(tet, n, n);
    RecordedAt(ks, faces, n, f);
    var p := FirstIndex(ks, Distinct(ks)[f]);
    SlotAtPosition(tet, n, p);
  }

  /** No two faces carry the same vertex triple. */
  lemma {:induction false} FacesUnique(tet: seq<seq<nat>>, n: nat, faces: seq<FaceRecord>, conn: seq<seq<nat>>,
                                       f1: nat, f2: nat)
    requires Columns(tet, 4, n) && FaceTable(tet, n, faces, conn) && f1 < f2 < |faces|
    ensures faces[f1].Key() != faces[f2].Key()
  {
    var ks := FaceKeys(tet, n, n);
    RecordedAt(ks, faces, n, f1);
    RecordedAt(ks, faces, n, f2);
  }

  /** Face numbers follow first discovery: a smaller number was first met
      in an earlier slot. */
  lemma {:induction false} FacesInDiscoveryOrder(tet: seq<seq<nat>>, n: nat, faces: seq<FaceRecord>, conn: seq<seq<nat>>,
                                                 f1: nat, f2: nat)
    requires Columns(tet, 4, n) && FaceTable(tet, n, faces, conn) && f1 < f2 < |faces|
    ensures var ks := FaceKeys(tet, n, n);
      faces[f1].Key() in ks && faces[f2].Key() in ks &&
      FirstIndex(ks, faces[f1].Key()) < FirstIndex(ks, faces[f2].Key())
  {
    var ks := FaceKeys(tet, n, n);
    RecordedAt(ks, faces, n, f1);
    RecordedAt(ks, faces, n, f2);
    DistinctInDiscoveryOrder(ks, f1, f2);
  }

  /** `nFace` is the number of distinct sorted vertex triples among all
      slots. */
  lemma {:induction false} FaceCount(tet: seq<seq<nat>>, n: nat, faces: seq<FaceRecord>, conn: seq<seq<nat>>)
    requires Columns(tet, 4, n) && FaceTable(tet, n, faces, conn)
    ensures |faces| == |set i, j | 0 <= i < n && 0 <= j < 4 :: FaceKeyOf(tet, n, i, j)|
  {
    var ks := FaceKeys(tet, n, n);
    DistinctCount(ks);
    var slots := set i, j | 0 <= i < n && 0 <= j < 4 :: FaceKeyOf(tet, n, i, j);
    forall k | k in ks
      ensures k in slots
    {
      var p :| 0 <= p < |ks| && ks[p] == k;
      SlotAtPosition(tet, n, p);
    }
    forall k | k in slots
      ensures k in ks
    {
      var i, j :| 0 <= i < n && 0 <= j < 4 && k == FaceKeyOf(tet, n, i, j);
      FaceKeysAt(tet, n, n, i, j);
    }
    assert (set k | k in ks) == slots;
  }

  /** A slot refers to face `f` exactly when its position in the run holds
      the key of `f`. */
  lemma {:induction false} PositionRefers(tet: seq<seq<nat>>, n: nat, faces: seq<FaceRecord>, conn: seq<seq<nat>>,
                                          p: nat, f: nat)
    requires Columns(tet, 4, n) && FaceTable(tet, n, faces, conn) && p < 4 * n && f < |faces|
    ensures p / 4 < n
    ensures conn[p % 4][p / 4] == f <==> FaceKeys(tet, n, n)[p] == Distinct(FaceKeys(tet, n, n))[f]
  {
    SlotAtPosition(tet, n, p);
    SlotRefers(tet, n, faces, conn, p / 4, p % 4, f);
    RecordedAt(FaceKeys(tet, n, n), faces, n, f);
  }

  /** The owner of a face is the first tetrahedron that refers to it. */
  lemma {:induction false} OwnerIsFirst(tet: seq<seq<nat>>, n: nat, faces: seq<FaceRecord>, conn: seq<seq<nat>>, f: nat)
    requires Columns(tet, 4, n) && FaceTable(tet, n, faces, conn) && f < |faces|
    ensures faces[f].owner < n
    ensures exists j :: 0 <= j < 4 && conn[j][faces[f].owner] == f
    ensures forall i, j :: 0 <= i < faces[f].owner && 0 <= j < 4 ==> conn[j][i] != f
  {
    var ks := FaceKeys(tet, n, n);
    RecordedAt(ks, faces, n, f);
    var first := FirstIndex(ks, Distinct(ks)[f]);
    PositionRefers(tet, n, faces, conn, first, f);
    forall i, j | 0 <= i < faces[f].owner && 0 <= j < 4
      ensures conn[j][i] != f
    {
      PositionRefers(tet, n, faces, conn, 4 * i + j, f);
    }
  }

  /** The neighbour of a face is the sentinel `n + 1` exactly when a single
      slot refers to it. */
  lemma {:induction false} BoundaryIsSingle(tet: seq<seq<nat>>, n: nat, faces: seq<FaceRecord>, conn: seq<seq<nat>>, f: nat)
    requires Columns(tet, 4, n) && FaceTable(tet, n, faces, conn) && f < |faces|
    ensures faces[f].neighbour == n + 1 <==>
      forall i1, j1, i2, j2 ::
        (0 <= i1 < n && 0 <= j1 < 4 && 0 <= i2 < n && 0 <= j2 < 4 && conn[j1][i1] == f && conn[j2][i2] == f)
        ==> i1 == i2 && j1 == j2
  {
    var ks := FaceKeys(tet, n, n);
    var k := Distinct(ks)[f];
    RecordedAt(ks, faces, n, f);
    var first, last := FirstIndex(ks, k), LastIndex(ks, k);
    PositionRefers(tet, n, faces, conn, first, f);
    PositionRefers(tet, n, faces, conn, last, f);
    if first == last {
      forall i1, j1, i2, j2 | 0 <= i1 < n && 0 <= j1 < 4 && 0 <= i2 < n && 0 <= j2 < 4 &&
        conn[j1][i1] == f && conn[j2][i2] == f
        ensures i1 == i2 && j1 == j2
      {
        PositionRefers(tet, n, faces, conn, 4 * i1 + j1, f);
        PositionRefers(tet, n, faces, conn, 4 * i2 + j2, f);
      }
    }
  }

  /** Otherwise the neighbour is the last tetrahedron that refers to the
      face. */
  lemma {:induction false} NeighbourIsLast(tet: seq<seq<nat>>, n: nat, faces: seq<FaceRecord>, conn: seq<seq<nat>>, f: nat)
    requires Columns(tet, 4, n) && FaceTable(tet, n, faces, conn) && f < |faces|
    requires faces[f].neighbour != n + 1
    ensures faces[f].owner <= faces[f].neighbour < n
    ensures exists j :: 0 <= j < 4 && conn[j][faces[f].neighbour] == f
    ensures forall i, j :: faces[f].neighbour < i < n && 0 <= j < 4 ==> conn[j][i] != f
  {
    var ks := FaceKeys(tet, n, n);
    var k := Distinct(ks)[f];
    RecordedAt(ks, faces, n, f);
    var last := LastIndex(ks, k);
    PositionRefers(tet, n, faces, conn, last, f);
    forall i, j | faces[f].neighbour < i < n && 0 <= j < 4
      ensures conn[j][i] != f
    {
      PositionRefers(tet, n, faces, conn, 4 * i + j, f);
    }
  }

  /** The local-slot rows resolve back to the face: row 0 names a slot of
      the owner holding `f`, row 1 one of the neighbour, or stays 4 on the
      boundary. */
  lemma {:induction false} OrderResolves(tet: seq<seq<nat>>, n: nat, faces: seq<FaceRecord>, conn: seq<seq<nat>>,
                                         order: seq<seq<nat>>, f: nat)
    requires Columns(tet, 4, n) && FaceTable(tet, n, faces, conn) && f < |faces| && Columns(order, 2, |faces|)
    requires faces[f].owner < n && LastSlotOf(conn, faces[f].owner, f, 4, order[0][f])
    requires if faces[f].neighbour < n then LastSlotOf(conn, faces[f].neighbour, f, 4, order[1][f])
             else order[1][f] == 4
    ensures order[0][f] < 4 && conn[order[0][f]][faces[f].owner] == f
    ensures faces[f].neighbour == n + 1 ==> order[1][f] == 4
    ensures faces[f].neighbour != n + 1 ==> order[1][f] < 4 && conn[order[1][f]][faces[f].neighbour] == f
  {
    OwnerIsFirst(tet, n, faces, conn, f);
    if faces[f].neighbour != n + 1 {
      NeighbourIsLast(tet, n, faces, conn, f);
    }
  }

  /** The corner that face slot `j` leaves out: slots 0 to 3 omit corners
      3, 1, 2 and 0. */
  function Omitted(j: nat): (c: nat)
    requires j < 4
    ensures c < 4
    ensures forall p :: 0 <= p < 3 ==> Corner(j, p) != c
  {
    [3, 1, 2, 0][j]
  }

  /** In a tetrahedron with four distinct vertices the four slots have four
      different keys. */
  lemma {:induction false} SlotKeysDiffer(tet: seq<seq<nat>>, n: nat, i: nat, a: nat, b: nat)
    requires Columns(tet, 4, n) && i < n && a < 4 && b < 4 && a != b
    requires forall r, s :: 0 <= r < s < 4 ==> tet[r][i] != tet[s][i]
    ensures FaceKeyOf(tet, n, i, a) != FaceKeyOf(tet, n, i, b)
  {
    FaceKeyVertices(tet, n, i, a);
    FaceKeyVertices(tet, n, i, b);
    var w := tet[Omitted(a)][i];
    assert w !in multiset{tet[Corner(a, 0)][i], tet[Corner(a, 1)][i], tet[Corner(a, 2)][i]};
    assert w in multiset{tet[Corner(b, 0)][i], tet[Corner(b, 1)][i], tet[Corner(b, 2)][i]} by {
      assert a == 0 || a == 1 || a == 2 || a == 3;
      assert b == 0 || b == 1 || b == 2 || b == 3;
    }
  }

  lemma {:induction false} SingleTetrahedronSlots(tet: seq<seq<nat>>)
    requires Columns(tet, 4, 1)
    ensures (set i, j | 0 <= i < 1 && 0 <= j < 4 :: FaceKeyOf(tet, 1, i, j))
         == {FaceKeyOf(tet, 1, 0, 0), FaceKeyOf(tet, 1, 0, 1), FaceKeyOf(tet, 1, 0, 2), FaceKeyOf(tet, 1, 0, 3)}
  {
    var slots := set i, j | 0 <= i < 1 && 0 <= j < 4 :: FaceKeyOf(tet, 1, i, j);
    forall k | k in slots
      ensures k in {FaceKeyOf(tet, 1, 0, 0), FaceKeyOf(tet, 1, 0, 1), FaceKeyOf(tet, 1, 0, 2), FaceKeyOf(tet, 1, 0, 3)}
    {
      var i, j :| 0 <= i < 1 && 0 <= j < 4 && k == FaceKeyOf(tet, 1, i, j);
      assert i == 0;
      assert j == 0 || j == 1 || j == 2 || j == 3;
    }
  }

  lemma {:induction false} FourKeys(k0: FaceKey, k1: FaceKey, k2: FaceKey, k3: FaceKey)
    requires k0 != k1 && k0 != k2 && k0 != k3 && k1 != k2 && k1 != k3 && k2 != k3
    ensures |{k0, k1, k2, k3}| == 4
  {
  }

  /** The four slots of a lone tetrahedron with distinct vertices give
      four distinct keys. */
  lemma {:induction false} SingleTetrahedronKeys(tet: seq<seq<nat>>)
    requires Columns(tet, 4, 1)
    requires forall r, s :: 0 <= r < s < 4 ==> tet[r][0] != tet[s][0]
    ensures |set i, j | 0 <= i < 1 && 0 <= j < 4 :: FaceKeyOf(tet, 1, i, j)| == 4
  {
    SlotKeysDiffer(tet, 1, 0, 0, 1);
    SlotKeysDiffer(tet, 1, 0, 0, 2);
    SlotKeysDiffer(tet, 1, 0, 0, 3);
    SlotKeysDiffer(tet, 1, 0, 1, 2);
    SlotKeysDiffer(tet, 1, 0, 1, 3);
    SlotKeysDiffer(tet, 1, 0, 2, 3);
    SingleTetrahedronSlots(tet);
    FourKeys(FaceKeyOf(tet, 1, 0, 0), FaceKeyOf(tet, 1, 0, 1), FaceKeyOf(tet, 1, 0, 2), FaceKeyOf(tet, 1, 0, 3));
  }

  /** A lone tetrahedron with four distinct vertices gives four faces, all
      on the boundary. */
  lemma {:induction false} SingleTetrahedron(tet: seq<seq<nat>>, faces: seq<FaceRecord>, conn: seq<seq<nat>>)
    requires Columns(tet, 4, 1) && FaceTable(tet, 1, faces, conn)
    requires forall r, s :: 0 <= r < s < 4 ==> tet[r][0] != tet[s][0]
    ensures |faces| == 4
    ensures forall f :: 0 <= f < |faces| ==> faces[f].neighbour == 2
  {
    FaceCount(tet, 1, faces, conn);
    SingleTetrahedronKeys(tet);
    forall f | 0 <= f < |faces|
      ensures faces[f].neighbour == 2
    {
      forall i1, j1, i2, j2 | 0 <= i1 < 1 && 0 <= j1 < 4 && 0 <= i2 < 1 && 0 <= j2 < 4 &&
        conn[j1][i1] == f && conn[j2][i2] == f
        ensures i1 == i2 && j1 == j2
      {
        assert SlotMapped(tet, 1, conn, faces, i1, j1) && SlotMapped(tet, 1, conn, faces, i2, j2);
        if j1 != j2 {
          SlotKeysDiffer(tet, 1, 0, j1, j2);
        }
      }
      BoundaryIsSingle(tet, 1, faces, conn, f);
    }
  }

  /** The number of tetrahedron slots a face accounts for: one on the
      boundary, two when it has a neighbour. */
  function Weight(r: FaceRecord, n: nat): nat
  {
    if r.neighbour == n + 1 then 1 else 2
  }

  function TotalWeight(faces: seq<FaceRecord>, n: nat): nat
    decreases |faces|
  {
    if faces == [] then 0 else TotalWeight(faces[..|faces| - 1], n) + Weight(faces[|faces| - 1], n)
  }

  /** Over the first `m` faces the weights count the slots that met them,
      as long as no key is met in more than two slots. */
  lemma {:induction false} WeightsCountSlots(ks: seq<FaceKey>, faces: seq<FaceRecord>, n: nat, m: nat)
    requires |ks| == 4 * n && Recorded(ks, faces, n) && m <= |faces|
    requires forall k :: k in ks ==> multiset(ks)[k] <= 2
    ensures TotalWeight(faces[..m], n) == Occurrences(Distinct(ks)[..m], ks)
    decreases m
  {
    if m > 0 {
      var d := Distinct(ks);
      WeightsCountSlots(ks, faces, n, m - 1);
      assert faces[..m][..m - 1] == faces[..m - 1];
      assert d[..m][..m - 1] == d[..m - 1];
      RecordedAt(ks, faces, n, m - 1);
      var k := d[m - 1];
      SingleOccurrence(ks, k);
      assert Weight(faces[m - 1], n) == multiset(ks)[k] by {
        if FirstIndex(ks, k) != LastIndex(ks, k) {
          assert LastIndex(ks, k) / 4 < n;
        }
      }
    }
  }

  /** In a mesh where every face key is met in at most two slots, the four
      slots of each tetrahedron are accounted for by one per boundary face
      and two per interior face. */
  lemma {:induction false} SlotTotal(tet: seq<seq<nat>>, n: nat, faces: seq<FaceRecord>, conn: seq<seq<nat>>)
    requires Columns(tet, 4, n) && FaceTable(tet, n, faces, conn)
    requires forall k :: k in FaceKeys(tet, n, n) ==> multiset(FaceKeys(tet, n, n))[k] <= 2
    ensures TotalWeight(faces, n) == 4 * n
  {
    var ks := FaceKeys(tet, n, n);
    WeightsCountSlots(ks, faces, n, |faces|);
    assert faces[..|faces|] == faces;
    assert Distinct(ks)[..|faces|] == Distinct(ks);
    DistinctOccurrences(ks);
  }

  // ---------------------------------------------------------------------
  // The copy into `faces_` and the mesh object
  // ---------------------------------------------------------------------

  /** `table` is the column form `faces_[0..4]` of the records: the three
      vertices, the owner and the neighbour. */
  ghost predicate Tabulated(table: seq<seq<nat>>, faces: seq<FaceRecord>)
  {
    && Columns(table, 5, |faces|)
    && forall f :: 0 <= f < |faces| ==>
         table[0][f] == faces[f].low && table[1][f] == faces[f].mid && table[2][f] == faces[f].high &&
         table[3][f] == faces[f].owner && table[4][f] == faces[f].neighbour
  }

  /** The copy loop of `collect_faces` (TetrahedronMesh.cpp:166-176). */
  method TabulateFaces(faces: seq<FaceRecord>) returns (table: seq<seq<nat>>)
    ensures Tabulated(table, faces)
  {
    var lows, mids, highs, owners, neighbours: seq<nat> := [], [], [], [], [];
    var j := 0;
    while j < |faces|
      invariant j <= |faces| && |lows| == j && |mids| == j && |highs| == j && |owners| == j && |neighbours| == j
      invariant forall f :: 0 <= f < j ==>
        lows[f] == faces[f].low && mids[f] == faces[f].mid && highs[f] == faces[f].high &&
        owners[f] == faces[f].owner && neighbours[f] == faces[f].neighbour
    {
      lows := lows + [faces[j].low];
      mids := mids + [faces[j].mid];
      highs := highs + [faces[j].high];
      owners := owners + [faces[j].owner];
      neighbours := neighbours + [faces[j].neighbour];
      j := j + 1;
    }
    table := [lows, mids, highs, owners, neighbours];
  }

  /** Everything `collect_faces` leaves behind for the element table `tet`:
      the records `faces` in the first-discovery order, the slot map `conn`,
      their column copy `table`, and the local-slot rows `order`. */
  ghost predicate Collected(tet: seq<seq<nat>>, n: nat, faces: seq<FaceRecord>, conn: seq<seq<nat>>,
                            table: seq<seq<nat>>, order: seq<seq<nat>>)
    requires Columns(tet, 4, n)
  {
    && FaceTable(tet, n, faces, conn)
    && Tabulated(table, faces)
    && Columns(order, 2, |faces|)
    && forall f :: 0 <= f < |faces| ==>
         faces[f].owner < n && LastSlotOf(conn, faces[f].owner, f, 4, order[0][f]) &&
         if faces[f].neighbour < n then LastSlotOf(conn, faces[f].neighbour, f, 4, order[1][f])
         else order[1][f] == 4
  }

  /** The fields of `TetrahedronMesh` (TetrahedronMesh.h) that the
      connectivity code reads and writes. Coordinates are left out. */
  class TetrahedronMesh {
    var nVertex: nat
    var nTetrahedron: nat
    var nFace: nat
    /** `tet_[j][i]`: corner `j` of tetrahedron `i`. */
    var tet: seq<seq<nat>>
    /** `tet_face_conn_[j][i]`: the face in slot `j` of tetrahedron `i`. */
    var tetFaceConn: seq<seq<nat>>
    /** `faces_[0..4]`: the three sorted vertices, owner and neighbour of
        each face. */
    var faceTable: seq<seq<nat>>
    /** `face_order_in_tet_[0..1]`: the slot of a face in its owner and in
        its neighbour. */
    var faceOrderInTet: seq<seq<nat>>
    /** The records `faceTable` was copied from. */
    ghost var faces: seq<FaceRecord>

    /** The element table has its shape, and the face fields are either
        still empty or exactly what `collect_faces` derives from it. */
    ghost predicate Valid()
      reads this
    {
      && Columns(tet, 4, nTetrahedron)
      && nFace == |faces|
      && ((faces == [] && tetFaceConn == [] && faceTable == [] && faceOrderInTet == []) ||
          Collected(tet, nTetrahedron, faces, tetFaceConn, faceTable, faceOrderInTet))
    }

    /** A mesh whose element table has been read; no faces yet. */
    constructor (nVertex: nat, nTetrahedron: nat, tet: seq<seq<nat>>)
      requires Columns(tet, 4, nTetrahedron)
      ensures Valid()
      ensures this.nVertex == nVertex && this.nTetrahedron == nTetrahedron && this.tet == tet
      ensures nFace == 0 && tetFaceConn == [] && faceTable == [] && faceOrderInTet == [] && faces == []
    {
      this.nVertex := nVertex;
      this.nTetrahedron := nTetrahedron;
      this.tet := tet;
      nFace := 0;
      tetFaceConn := [];
      faceTable := [];
      faceOrderInTet := [];
      faces := [];
    }

    /** `find_vertex_tetrahedron_connection` (TetrahedronMesh.cpp:107-113):
        appends every tetrahedron to the list of each of its corners; lists
        of vertices no tetrahedron touches stay as they were. */
    method FindVertexTetrahedronConnection(conn: array<seq<nat>>)
      requires Valid()
      requires forall r, i :: 0 <= r < 4 && 0 <= i < nTetrahedron ==> tet[r][i] < conn.Length
      modifies conn
      ensures forall v :: 0 <= v < conn.Length ==> conn[v] == old(conn[v]) + Incident(tet, 4, nTetrahedron, nTetrahedron, v)
    {
      var i := 0;
      while i < nTetrahedron
        invariant i <= nTetrahedron
        invariant forall v :: 0 <= v < conn.Length ==> conn[v] == Appended(old(conn[v]), tet, 4, nTetrahedron, i, v)
      {
        AppendCorners(conn, i);
        i := i + 1;
      }
      forall v | 0 <= v < conn.Length
        ensures conn[v] == old(conn[v]) + Incident(tet, 4, nTetrahedron, nTetrahedron, v)
      {
        AppendedIsIncident(old(conn[v]), tet, 4, nTetrahedron, nTetrahedron, v);
      }
    }

    /** The inner loop of `find_vertex_tetrahedron_connection`: tetrahedron
        `i` is appended to the list of each of its four corners. */
    method AppendCorners(conn: array<seq<nat>>, i: nat)
      requires Valid() && i < nTetrahedron
      requires forall r :: 0 <= r < 4 ==> tet[r][i] < conn.Length
      modifies conn
      ensures forall v :: 0 <= v < conn.Length ==> conn[v] == old(conn[v]) + CornerHits(tet, 4, nTetrahedron, i, v, 4)
    {
      var j := 0;
      while j < 4
        invariant j <= 4
        invariant forall v :: 0 <= v < conn.Length ==> conn[v] == old(conn[v]) + CornerHits(tet, 4, nTetrahedron, i, v, j)
      {
        var v := tet[j][i];
        conn[v] := conn[v] + [i];
        j := j + 1;
      }
    }

    /** `collect_faces` (TetrahedronMesh.cpp:115-189). It fails, leaving the
        mesh as it was, exactly when the bucket capacity assertion would
        abort; otherwise the face fields hold what `Collected` describes. */
    method CollectFaces() returns (ok: bool)
      requires Valid()
      requires forall r, i :: 0 <= r < 4 && 0 <= i < nTetrahedron ==> tet[r][i] < nVertex
      modifies this
      ensures Valid()
      ensures nVertex == old(nVertex) && nTetrahedron == old(nTetrahedron) && tet == old(tet)
      ensures ok == BucketsFit(tet, nTetrahedron, nVertex)
      ensures !ok ==> nFace == old(nFace) && tetFaceConn == old(tetFaceConn) && faceTable == old(faceTable) &&
                      faceOrderInTet == old(faceOrderInTet) && faces == old(faces)
      ensures ok ==> nFace == |faces| && Collected(tet, nTetrahedron, faces, tetFaceConn, faceTable, faceOrderInTet)
    {
      var records, conn;
      ok, records, conn := DiscoverFaces(tet, nTetrahedron, nVertex);
      if !ok {
        return;
      }
      var table := TabulateFaces(records);
      forall f | 0 <= f < |records|
        ensures records[f].owner < nTetrahedron
      {
        OwnerIsFirst(tet, nTetrahedron, records, conn, f);
      }
      var order := OrderFaces(conn, nTetrahedron, table, |records|);
      nFace := |records|;
      tetFaceConn := conn;
      faceTable := table;
      faceOrderInTet := order;
      faces := records;
    }
  }
}
