# mesh_structure connectivity, modelled in Dafny

`mesh_structure` reads triangle and tetrahedron meshes from OFF-like text
files and derives their connectivity. This project models the
connectivity builder and the small helpers around it, and proves what
they compute.

- **`collect_edges` / `collect_faces`** deduplicate the edges or faces of
  all elements.
  - Each element slot gives a sorted vertex key: a pair for a triangle
    edge, a triple for a tetrahedron face. Face slot `j` takes the corners
    `iv[j]` = {0,1,2}, {0,2,3}, {0,3,1}, {3,2,1}.
  - Keys are looked up in a bucket per smallest vertex. A bucket holds at
    most 100 edges or 300 faces; the builder asserts this limit.
  - Each new key gets the next number, in order of first discovery. Its
    record holds the first element that met it (the owner) and the last
    later element that met it (the neighbour). On the boundary the
    neighbour is the sentinel `n + 1`.
  - The builder fills the element → sub-entity map (`tri_edge_conn_`,
    `tet_face_conn_`) and copies the records into the column arrays
    `edges_` / `faces_`.
  - A second pass finds the local slot of each sub-entity in its owner and
    in its neighbour (`edge_order_in_tri_`, `face_order_in_tet_`; 3 or 4
    when absent).
- **`find_vertex_trangle_connection` / `find_vertex_tetrahedron_connection`**
  append each element to the list of every one of its corners.
- **`trim` / `splitOff`** clean a text line and cut it into tokens.
  `trim` strips blanks (`' '`) at both ends, then cuts at the last `'\r'`.
  `splitOff` cuts the trimmed line at single blanks, writing at most
  `npattern` tokens. It fails only on an empty line, and that test is made
  on the untrimmed line.
- **The orientation fix** in the triangle loader exchanges corners 1 and 2
  of a triangle whose normal points down.

## Design of the model

The model has six modules.

- `Tables` describes column tables `t[r][i]`, the layout of the C++
  arrays `tri_[3]`, `edges_[4]` and the others.
- `Discovery` is the specification both builders share:
  - `Distinct` gives the keys of the slot run in first-discovery order;
  - `FirstIndex` / `LastIndex` give a key's first and last slot;
  - owner and neighbour are those slots divided by the number of slots per
    element.
- `Incidence` specifies the vertex → element lists.
- `OffLine` models `trim` and `splitOff`. The copies in
  `TetrahedronMesh.cpp` (lines 4-16 and 18-38) are the same code, so one
  model serves both.
- `Triangles` and `Tetrahedra` model the two builders.
  - The builders are methods with loops over the local buckets.
  - The buckets are a `seq<seq<nat>>` indexed by vertex; the length of
    bucket `v` is `nlocaledge[v]`.
  - The first pass is proved to produce the records `EdgeTable` /
    `FaceTable` describe. The second pass is proved to produce the slots
    that `LastSlotOf` describes.
  - The mesh classes hold the fields the connectivity code reads and
    writes, and their methods update them in place.

In these places the model follows the code where a reader might expect
otherwise:

- The headers describe an edge or face as having two neighbouring elements
  (TriangleMesh.h:25, TetrahedronMesh.h:31). When a third element meets it,
  the match branch (TriangleMesh.cpp:154-156, TetrahedronMesh.cpp:141-143)
  overwrites the neighbour, so the last match wins.
- `splitOff` searches for the one-character pattern `" "`
  (TriangleMesh.cpp:26 and 35), so a line is cut at every single blank.
  Doubled blanks yield empty tokens; a run of blanks is not one delimiter.
- The inversion pushes an element once per corner (TriangleMesh.cpp:121-123,
  TetrahedronMesh.cpp:109-111). An element with a repeated vertex therefore
  appears twice in that vertex's list.
- "Slots = boundary sub-entities + 2 × interior ones" follows from the
  two-neighbour layout only when no key is met in more than two slots. It
  is proved under that hypothesis.

## Model

| member | source | states |
|---|---|---|
| `OffLine.FirstNotOf` | src/TriangleMesh.cpp:7 | the position of the first character other than `c`, or the length when there is none; all characters before it are `c` |
| `OffLine.LastNotOf` | src/TriangleMesh.cpp:8 | the position of the last character other than `c`, or -1 (`npos + 1` wraps to 0); all characters after it are `c` |
| `OffLine.Find` | src/TriangleMesh.cpp:26 | `find` returns a position holding the separator, or the length when there is none |
| `OffLine.FindFirst` | src/TriangleMesh.cpp:35 | no separator occurs before the position `find` returns |
| `OffLine.LeadingAgrees` | src/TriangleMesh.cpp:7 | erasing up to `find_first_not_of(' ')` strips exactly the leading blanks |
| `OffLine.TrailingAgrees` | src/TriangleMesh.cpp:8 | erasing from `find_last_not_of(' ') + 1` strips exactly the trailing blanks |
| `OffLine.Trim` | src/TriangleMesh.cpp:5-17 | the result is `Trimmed(s)`: blanks stripped at both ends, then cut at the last `'\r'`; an empty input stays empty |
| `OffLine.TrimmedShape` | src/TriangleMesh.cpp:5-17 | the result is a slice of the input, does not start with a blank, is empty for an all-blank line, and without a `'\r'` does not end with a blank |
| `OffLine.TrimmedAtCR` | src/TriangleMesh.cpp:12-15 | when the blank-stripped line holds a `'\r'`, the result is its prefix before the last one |
| `OffLine.TrimmedIdempotent` | src/TriangleMesh.cpp:5-17 | trimming a line without `'\r'` twice gives the same as trimming it once |
| `OffLine.SplitRoundTrip` | src/TriangleMesh.cpp:25-35 | joining the tokens, each followed by the separator, gives back the line plus one separator; no token holds the separator; there is one token more than there are separators |
| `OffLine.TokenCount` | src/TriangleMesh.cpp:29-36 | a non-empty line yields at least one token and at most `npattern` of them when `npattern >= 1`, never more than the line holds |
| `OffLine.SplitOff` | src/TriangleMesh.cpp:19-39 | returns false exactly for an empty line; otherwise `res[k]` is the k-th token of the trimmed line for `k < TokenCount`, and the rest of `res` is unchanged |
| `OffLine.CutTokens` | src/TriangleMesh.cpp:25-37 | the loop writes `min(max(npattern, 1), number of tokens)` tokens, in order, and nothing past them |
| `Discovery.Distinct` | src/TriangleMesh.cpp:160-165 | the numbered keys come from the run and have no duplicates, at most one per slot |
| `Discovery.FirstIndex` | src/TriangleMesh.cpp:161 | the first slot holding the key: it holds the key and no earlier slot does |
| `Discovery.LastIndex` | src/TriangleMesh.cpp:154-155 | the last slot holding the key: it holds the key and no later slot does |
| `Discovery.DistinctCovers` | src/TriangleMesh.cpp:152-166 | every key met gets a number |
| `Discovery.DistinctSnoc` | src/TriangleMesh.cpp:152-166 | one more slot: a known key keeps the numbering unchanged, a new key is appended with the next number |
| `Discovery.DistinctPrefix` | src/TriangleMesh.cpp:146-170 | the numbering is stable: the numbers given in a prefix of the run are those of the whole run |
| `Discovery.DistinctInDiscoveryOrder` | src/TriangleMesh.cpp:163-165 | a smaller number means an earlier first slot |
| `Discovery.DistinctCount` | src/TriangleMesh.cpp:133-165 | the number of keys is the number of distinct keys among the slots |
| `Discovery.DistinctOccurrences` | src/TriangleMesh.cpp:146-170 | the occurrences of the numbered keys add up to the number of slots |
| `Discovery.SingleOccurrence` | src/TriangleMesh.cpp:154-161 | a key's first and last slots coincide exactly when it occurs once |
| `Incidence.CornerHits` | src/TriangleMesh.cpp:121-123 | the inner loop appends only element `i`, at most once per corner |
| `Incidence.CornerHitsMembers` | src/TriangleMesh.cpp:121-123 | element `i` is appended to the list of `v` exactly when one of its corners is `v` |
| `Incidence.IncidentMembers` | src/TriangleMesh.cpp:119-125 | element `i` is in the list of `v` exactly when `i` is an element and one of its corners is `v` |
| `Incidence.IncidentSorted` | src/TriangleMesh.cpp:119-125 | each list holds element numbers below the element count, in non-decreasing order |
| `Incidence.IncidentBelow` | src/TriangleMesh.cpp:120 | elements not yet visited are in no list |
| `Incidence.AppendedIsIncident` | src/TriangleMesh.cpp:119-125 | appending element by element gives the old list followed by the incidence list |
| `Incidence.TotalHitsAll` | src/TriangleMesh.cpp:121-123 | when all corners are vertices, the inner loop appends one entry per corner |
| `Incidence.IncidentTotal` | src/TriangleMesh.cpp:119-125 | when all corners are vertices, the lists together receive `rows × elements` entries |
| `Triangles.EdgeKeyOf` | src/TriangleMesh.cpp:149-150 | the key of slot `j` is the pair of corners `j` and `(j+1) % 3`, smaller vertex first |
| `Triangles.EdgeKeys` | src/TriangleMesh.cpp:146-147 | the slot run of `m` triangles has `3m` keys |
| `Triangles.EdgeKeysAt` | src/TriangleMesh.cpp:146-147 | position `3i + j` of the run is slot `j` of triangle `i` |
| `Triangles.BucketMembers` | src/TriangleMesh.cpp:152-166 | bucket `v` lists exactly the numbers of the edges whose smaller vertex is `v` |
| `Triangles.FindEdge` | src/TriangleMesh.cpp:152-159 | the scan stops at the first bucket entry whose edge has the wanted end, or at the bucket's end when none has it |
| `Triangles.FoundStep` | src/TriangleMesh.cpp:154-156 | a match sets the neighbour of the found edge to the current triangle, and the records stay the specification's |
| `Triangles.NewStep` | src/TriangleMesh.cpp:161-165 | a new key appends the record (start, end, triangle, `n+1`), and the records stay the specification's |
| `Triangles.KeyIsNew` | src/TriangleMesh.cpp:160 | a scan that runs to the bucket's end means the key was never met |
| `Triangles.AppendedBuckets` | src/TriangleMesh.cpp:163-166 | adding the new number to the bucket of its smaller vertex keeps every bucket the specification's |
| `Triangles.RegisterSlot` | src/TriangleMesh.cpp:148-168 | one slot: its key is found or added, the slot map and buckets follow the specification, and `full` is set exactly when the bucket reaches 100 |
| `Triangles.Overflow` | src/TriangleMesh.cpp:167 | a bucket reaching 100 during the run means the whole run does not fit |
| `Triangles.RegisterTriangle` | src/TriangleMesh.cpp:146-170 | one triangle: either the run overflows, or the records and map cover its three slots |
| `Triangles.DiscoverEdges` | src/TriangleMesh.cpp:129-170 | the first pass succeeds exactly when no bucket reaches capacity, and then yields the specified records and slot map |
| `Triangles.TabulateEdges` | src/TriangleMesh.cpp:177-187 | `edges_[0..3][e]` are start, end, owner and neighbour of record `e` |
| `Triangles.OrderEdges` | src/TriangleMesh.cpp:188-198 | row 0 is the last slot of the owner holding the edge; row 1 is the same for a neighbour that is a triangle, else 3 |
| `Triangles.SlotRefers` | src/TriangleMesh.cpp:152-166 | a slot maps to edge `e` exactly when its key is the key of `e` |
| `Triangles.EdgeSorted` | src/TriangleMesh.cpp:148-150 | every edge has start ≤ end |
| `Triangles.EdgesUnique` | src/TriangleMesh.cpp:152-168 | no two edges share a vertex pair |
| `Triangles.EdgesInDiscoveryOrder` | src/TriangleMesh.cpp:160-165 | edge numbers follow the first slot that met the key |
| `Triangles.EdgeCount` | src/TriangleMesh.cpp:133-166 | `nEdge` is the number of distinct vertex pairs among all slots |
| `Triangles.OwnerIsFirst` | src/TriangleMesh.cpp:161-162 | the owner is a triangle with a slot mapped to the edge, and no earlier triangle has one |
| `Triangles.BoundaryIsSingle` | src/TriangleMesh.cpp:154-161 | the neighbour is `n+1` exactly when one slot alone maps to the edge |
| `Triangles.NeighbourIsLast` | src/TriangleMesh.cpp:154-157 | otherwise the neighbour is the last triangle with a slot mapped to the edge, no earlier than the owner |
| `Triangles.OrderResolves` | src/TriangleMesh.cpp:188-198 | the local-slot rows lead back to the edge in the owner and the neighbour; row 1 stays 3 exactly on the boundary |
| `Triangles.SlotKeysDiffer` | src/TriangleMesh.cpp:149-150 | the three slots of a triangle with distinct vertices have distinct keys |
| `Triangles.LoneSlots` | src/TriangleMesh.cpp:154-161 | an edge whose key only one slot has is a boundary edge |
| `Triangles.SingleTriangle` | src/TriangleMesh.cpp:129-170 | a lone triangle with distinct vertices gives 3 edges, all boundary |
| `Triangles.SingleTriangleIncidence` | src/TriangleMesh.cpp:119-125 | in a lone triangle each corner's list is `[0]`, and every other list is empty |
| `Triangles.UnitSquareDiagonal` | src/TriangleMesh.cpp:154-161 | in the unit square split along 0-2, the diagonal is owned by triangle 0 and has neighbour 1 |
| `Triangles.UnitSquareEdges` | src/TriangleMesh.cpp:129-170 | the unit square gives 5 edges, and the diagonal is the only one with a neighbour |
| `Triangles.WeightsCountSlots` | src/TriangleMesh.cpp:154-161 | when no key is met more than twice, a boundary edge accounts for one slot and an interior edge for two |
| `Triangles.SlotTotal` | src/TriangleMesh.cpp:146-170 | when no key is met more than twice, `3 × nTriangle` = boundary edges + 2 × interior edges |
| `Triangles.SwapCorners` | src/TriangleMesh.cpp:92-93 | the swap exchanges corners 1 and 2 of triangle `i` and changes nothing else |
| `Triangles.SwapKeepsEdges` | src/TriangleMesh.cpp:92-93 | the swap keeps the triangle's vertices and its three edge keys; slots 0 and 2 trade keys |
| `Triangles.SwapNegatesNormal` | src/TriangleMesh.cpp:104-114 | exchanging corners 1 and 2 negates the z component of the normal |
| `Triangles.OrientedIdempotent` | src/TriangleMesh.cpp:89-94 | after the fix-up the normal does not point down, so fixing again changes nothing |
| `Triangles.TriangleMesh.constructor` | src/TriangleMesh.cpp:80-86 | a mesh holding the element table read in, with no edges yet; every method keeps the edge fields either empty or exactly what `Collected` derives from the element table |
| `Triangles.TriangleMesh.Orient` | src/TriangleMesh.cpp:89-94 | while the mesh is read (no edges collected yet) the element table becomes `Oriented`: corners 1 and 2 of triangle `i` are exchanged when its normal points down; nothing else changes |
| `Triangles.TriangleMesh.FindVertexTriangleConnection` | src/TriangleMesh.cpp:119-125 | every list becomes its old contents followed by the triangles touching that vertex, once per corner, in order |
| `Triangles.TriangleMesh.AppendCorners` | src/TriangleMesh.cpp:121-123 | triangle `i` is appended to the list of each of its corners |
| `Triangles.TriangleMesh.CollectEdges` | src/TriangleMesh.cpp:129-199 | fails, leaving the mesh unchanged, exactly when a bucket would reach 100; otherwise the edge fields hold the specified records, slot map, columns and local slots |
| `Tetrahedra.Corner` | src/TetrahedronMesh.cpp:133 | the face-slot table `iv` names corners of the tetrahedron |
| `Tetrahedra.Omitted` | src/TetrahedronMesh.cpp:133 | face slot `j` leaves out one corner, and that corner is not in `iv[j]` |
| `Tetrahedra.Sort3` | src/TetrahedronMesh.cpp:137 | the sorted triple is in ascending order |
| `Tetrahedra.Sort3Permutes` | src/TetrahedronMesh.cpp:137 | the sorted triple is a permutation of its inputs |
| `Tetrahedra.Sort3Canonical` | src/TetrahedronMesh.cpp:136-137 | two triples with the same vertices sort to the same key |
| `Tetrahedra.FaceKeyOf` | src/TetrahedronMesh.cpp:136-137 | the key of face slot `j` is ascending |
| `Tetrahedra.FaceKeyVertices` | src/TetrahedronMesh.cpp:136-137 | the key holds the vertices at corners `iv[j]` |
| `Tetrahedra.FaceKeys` | src/TetrahedronMesh.cpp:134-135 | the slot run of `m` tetrahedra has `4m` keys |
| `Tetrahedra.FaceKeysAt` | src/TetrahedronMesh.cpp:134-135 | position `4i + j` of the run is slot `j` of tetrahedron `i` |
| `Tetrahedra.BucketMembers` | src/TetrahedronMesh.cpp:139-154 | bucket `v` lists exactly the numbers of the faces whose smallest vertex is `v` |
| `Tetrahedra.FindFace` | src/TetrahedronMesh.cpp:139-146 | the scan stops at the first bucket entry whose face has the wanted middle and highest vertices, or at the bucket's end |
| `Tetrahedra.FoundStep` | src/TetrahedronMesh.cpp:141-143 | a match sets the neighbour of the found face to the current tetrahedron, and the records stay the specification's |
| `Tetrahedra.NewStep` | src/TetrahedronMesh.cpp:148-153 | a new key appends the record (low, mid, high, tetrahedron, `n+1`), and the records stay the specification's |
| `Tetrahedra.KeyIsNew` | src/TetrahedronMesh.cpp:147 | a scan that runs to the bucket's end means the key was never met |
| `Tetrahedra.AppendedBuckets` | src/TetrahedronMesh.cpp:151-154 | adding the new number to the bucket of its smallest vertex keeps every bucket the specification's |
| `Tetrahedra.RegisterSlot` | src/TetrahedronMesh.cpp:136-156 | one slot: its sorted triple is found or added, the slot map and buckets follow the specification, and `full` is set exactly when the bucket reaches 300 |
| `Tetrahedra.Overflow` | src/TetrahedronMesh.cpp:155 | a bucket reaching 300 during the run means the whole run does not fit |
| `Tetrahedra.RegisterTetrahedron` | src/TetrahedronMesh.cpp:135-157 | one tetrahedron: either the run overflows, or the records and map cover its four slots |
| `Tetrahedra.DiscoverFaces` | src/TetrahedronMesh.cpp:115-158 | the first pass succeeds exactly when no bucket reaches capacity, and then yields the specified records and slot map |
| `Tetrahedra.TabulateFaces` | src/TetrahedronMesh.cpp:166-176 | `faces_[0..4][f]` are the three vertices, owner and neighbour of record `f` |
| `Tetrahedra.OrderFaces` | src/TetrahedronMesh.cpp:177-187 | row 0 is the last slot of the owner holding the face; row 1 is the same for a neighbour that is a tetrahedron, else 4 |
| `Tetrahedra.SlotRefers` | src/TetrahedronMesh.cpp:139-153 | a slot maps to face `f` exactly when its sorted triple is the key of `f` |
| `Tetrahedra.SlotFaceVertices` | src/TetrahedronMesh.cpp:133-152 | the face a slot maps to stores, in ascending order, exactly the vertices at corners `iv[j]` |
| `Tetrahedra.FaceSorted` | src/TetrahedronMesh.cpp:137 | every face has low ≤ mid ≤ high |
| `Tetrahedra.FacesUnique` | src/TetrahedronMesh.cpp:139-156 | no two faces share a triple |
| `Tetrahedra.FacesInDiscoveryOrder` | src/TetrahedronMesh.cpp:147-153 | face numbers follow the first slot that met the key |
| `Tetrahedra.FaceCount` | src/TetrahedronMesh.cpp:119-153 | `nFace` is the number of distinct sorted triples among all slots |
| `Tetrahedra.OwnerIsFirst` | src/TetrahedronMesh.cpp:148 | the owner is a tetrahedron with a slot mapped to the face, and no earlier one has such a slot |
| `Tetrahedra.BoundaryIsSingle` | src/TetrahedronMesh.cpp:141-148 | the neighbour is `n+1` exactly when one slot alone maps to the face |
| `Tetrahedra.NeighbourIsLast` | src/TetrahedronMesh.cpp:141-143 | otherwise the neighbour is the last tetrahedron with a slot mapped to the face, no earlier than the owner |
| `Tetrahedra.OrderResolves` | src/TetrahedronMesh.cpp:177-187 | the local-slot rows lead back to the face in the owner and the neighbour; row 1 stays 4 exactly on the boundary |
| `Tetrahedra.SlotKeysDiffer` | src/TetrahedronMesh.cpp:133-137 | the four slots of a tetrahedron with distinct vertices have distinct keys |
| `Tetrahedra.SingleTetrahedronKeys` | src/TetrahedronMesh.cpp:133-137 | a lone tetrahedron with distinct vertices has four distinct face keys |
| `Tetrahedra.SingleTetrahedron` | src/TetrahedronMesh.cpp:115-158 | a lone tetrahedron with distinct vertices gives 4 faces, all boundary |
| `Tetrahedra.WeightsCountSlots` | src/TetrahedronMesh.cpp:141-148 | when no key is met more than twice, a boundary face accounts for one slot and an interior face for two |
| `Tetrahedra.SlotTotal` | src/TetrahedronMesh.cpp:134-157 | when no key is met more than twice, `4 × nTetrahedron` = boundary faces + 2 × interior faces |
| `Tetrahedra.TetrahedronMesh.constructor` | src/TetrahedronMesh.cpp:80-87 | a mesh holding the element table read in, with no faces yet; every method keeps the face fields either empty or exactly what `Collected` derives from the element table |
| `Tetrahedra.TetrahedronMesh.FindVertexTetrahedronConnection` | src/TetrahedronMesh.cpp:107-113 | every list becomes its old contents followed by the tetrahedra touching that vertex, once per corner, in order |
| `Tetrahedra.TetrahedronMesh.AppendCorners` | src/TetrahedronMesh.cpp:109-111 | tetrahedron `i` is appended to the list of each of its four corners |
| `Tetrahedra.TetrahedronMesh.CollectFaces` | src/TetrahedronMesh.cpp:115-189 | fails, leaving the mesh unchanged, exactly when a bucket would reach 300; otherwise the face fields hold the specified records, slot map, columns and local slots |

## Left out

- `read_off` in both files is not modelled. It opens files, reads lines, parses with `stoi`/`stod` and reports errors with `throw`; that is I/O and library parsing. The model starts from the element table it produces (the class constructors). Only its helpers `trim`, `splitOff` and the orientation fix are modelled.
- `check_point_order` (TriangleMesh.cpp:102-115) is modelled only through `NormalZ`, the z component its fix-up tests, computed in exact real arithmetic. Double rounding is not modelled, and neither are the x and y components, which the code computes and never uses. Coordinates are passed to `Orient` as parameters rather than held as fields.
- The commented-out tetrahedron `check_point_order` (TetrahedronMesh.cpp:92-104) is dead code; tetrahedra get no orientation fix.
- `outputTecPlotDataFile` in both files is formatted stream output and is not modelled.
- The headers TriangleMesh.h and TetrahedronMesh.h are not part of this model beyond the field names: constructors, destructors, `new`/`delete` lifetime, pointer getters and setters, and the never-assigned `nBoundary`/`boundary_`.
- Triangles.TriangleMesh.CollectEdges: the capacity `assert` aborts the process in the source; the model returns `false` and leaves the mesh as it was. The same holds for `Tetrahedra.TetrahedronMesh.CollectFaces`.
- Triangles.OrderEdges: for a boundary edge the source reads `tri_edge_conn_[i][nTriangle+1]`, out of bounds (TriangleMesh.cpp:196). The model guards the row-1 update with "neighbour is a triangle", so row 1 keeps its initial 3. `Tetrahedra.OrderFaces` is guarded the same way (TetrahedronMesh.cpp:185).
- Triangles.SlotTotal: stated only for meshes in which no key is met in more than two slots. With a third match the source overwrites the neighbour, and the identity fails. `Tetrahedra.SlotTotal` likewise.
- Non-manifold data loss is modelled as the source behaves (last match wins). No error is raised, and no owner list beyond owner and neighbour is kept.
- OffLine.SplitOff: the separator is one character, as at every call site (`" "`); the source advances by one character after a match whatever the pattern's length. The method requires `res` to hold the tokens it writes; the source writes past the end of a short array.
- Integer widths are not modelled: vertex, element and sub-entity numbers and the bucket counters are `nat`. The `int` bucket counters (`nlocaledge`, `nlocalface`) stay below the capacity limits. The buckets themselves are `int` arrays (TriangleMesh.cpp:132, TetrahedronMesh.cpp:118), and they receive global numbers (`localedge[..][start] = nEdge`, TriangleMesh.cpp:163; `localface[..][giv[0]] = nFace`, TetrahedronMesh.cpp:151). Those entries would narrow once there are more than `INT_MAX` edges or faces, which the model does not capture. `unsigned long` wrap-around is not modelled either.
- Triangles.TriangleMesh.CollectEdges and `Tetrahedra.TetrahedronMesh.CollectFaces` require every corner to be a vertex below `nVertex`, as do the vertex → element methods for the length of `conn`. The source indexes out of bounds otherwise.
