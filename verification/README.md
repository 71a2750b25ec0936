# utils-three-js: mesh-buffer addressing and mesh enumeration

A Dafny model of the two utility classes of `index.js`:

- `BufferGeoUtils` (module `BufferGeoUtils`, `buffer_geo_utils.dfy`): accessors over a buffer
  geometry's attribute streams, the vertex and face counts, and the addressing of a face's
  vertices and points along the two paths (indexed and non-indexed).
- `Object3DUtils` (module `Object3DUtils`, `object3d_utils.dfy`): the `isObject` / `isMesh` checks
  and `getAllMeshes`, which collects the meshes of a subtree.
- `wrappers.dfy` holds `Option` and `Result`; a thrown `Error` is a `Failure` carrying a `GeoError`
  (`NotBufferGeometry`, `NoNormal`, `NoUV`, `NoIndex`, `IndexOutOfRange`) whose `Message()` is the
  text the library throws.

Modelling choices:

- A geometry is a record of `seq` streams: a mandatory position stream of 3 components per vertex,
  optional normal and uv streams, and an optional index stream of vertex numbers. Coordinates are an
  opaque type parameter. The value handed to an accessor is `Input`: a buffer geometry or anything
  else (`isBufferGeometry` is false for the latter).
- JavaScript's `/` is real division, so `getNumberOfFaces` and `getNumberOfVertices` return `real`s.
  The range check of `getPoint` compares with the position attribute's `count`, which three.js
  computes as `array.length / itemSize`: the same real vertex count.
- A typed-array read past the end yields `undefined`, modelled as `None`. So a face of an index stream
  whose length is not a multiple of 3 can hold an absent vertex reference. `getPoint` given such an
  `undefined` index passes its range check, because every comparison with NaN is false, and reads
  nothing. A point component is `None` when nothing is stored at its offset.
- A position stream whose length is 7 or 8 modulo 9 shows the behaviour the face count allows silently.
  The last, partial face passes the range check, and so does each of its vertices. The last vertex then
  comes back with missing components, which the vector fills with its default 0, instead of an error
  (`PartialLastVertexExample`). A stream of any other length not a multiple of 9 makes `getPoint` throw
  instead (`FractionalFaceCountExample`).
- A scene node is `Node(data, role, children)` with a `Plain | Mesh` role tag. The scene graph's
  `traverse` is modelled as the pre-order visit `Traverse`. A value given to `Object3DUtils` is
  `Undefined`, some non-node value, or a node.

The central results are two if-and-only-if theorems. They say when the face range check (built on the
face count) agrees with vertex addressing:

- `NonIndexedFacesResolveIff`: in a non-indexed geometry, every face that passes the range check
  resolves to three fully stored vertices if and only if the position length is a multiple of 9.
- `IndexedFacesResolveIff`: in an indexed geometry, the same holds if and only if the index stream
  holds whole triples and every entry names a fully stored vertex.

## Model

| member | source | states |
|---|---|---|
| BufferGeoUtils.GetPositionArray | index.js:26-38 | fails with "Not a buffer geometry" exactly when the input is not a buffer geometry; otherwise returns the position stream unchanged |
| BufferGeoUtils.GetNormalArray | index.js:39-56 | rejects non-geometry input first; then fails with the normal-specific error exactly when there is no normal stream, and otherwise returns that stream unchanged |
| BufferGeoUtils.GetUVArray | index.js:58-73 | rejects non-geometry input first; then fails with the uv-specific error exactly when there is no uv stream, and otherwise returns that stream unchanged |
| BufferGeoUtils.GetIndicesArray | index.js:75-91 | rejects non-geometry input first; then fails with the index-specific error exactly when there is no index stream, and otherwise returns that stream unchanged |
| BufferGeoUtils.AccessorsReconstructGeometry | index.js:26-91 | the four getters lose nothing: the geometry is rebuilt exactly from their results, with each missing-attribute error read as an absent stream |
| BufferGeoUtils.GetNumberOfFaces | index.js:93-110 | three times the face count is the index-stream length when an index stream exists; otherwise nine times the face count is the position length; non-geometry input fails |
| BufferGeoUtils.GetNumberOfVertices | index.js:112-123 | three times the vertex count is the position length; non-geometry input fails |
| BufferGeoUtils.IndexedFaceCountIgnoresPosition | index.js:104-109 | for indexed geometry the face count depends only on the index stream's length, not on the position stream or the index entries |
| BufferGeoUtils.NonIndexedCounts | index.js:104-122 | non-indexed geometry whose position length is 9k has exactly k faces and 3k vertices |
| BufferGeoUtils.GetPoint | index.js:125-148 | succeeds exactly for 0 <= i with 3i below the position length (i below the vertex count); otherwise fails with "Index out of range"; the point's components are the entries at offsets 3i, 3i+1 and 3i+2, each absent exactly when that offset lies past the stream |
| BufferGeoUtils.GetPointAt | index.js:140-147 | getPoint given a face reference: a defined reference behaves as getPoint on that index; an undefined one passes the range check (comparisons with NaN are false) and yields a point with no stored component, while non-geometry input still fails first |
| BufferGeoUtils.GetPointBoundaries | index.js:137-142 | -1 and the vertex count are both rejected with "Index out of range"; the last vertex is accepted; success is exactly 0 <= i < vertex count |
| BufferGeoUtils.PointsTilePositionStream | index.js:143-147 | every entry k of the position stream is component k mod 3 of the point at vertex k div 3 |
| BufferGeoUtils.GetFacePointIndices | index.js:150-174 | fails with "Index out of range" exactly when the face index is negative or not below the face count; otherwise returns three references: 3f, 3f+1, 3f+2 without an index stream, else the index entries at 3f, 3f+1, 3f+2 in storage order (absent past the end) |
| BufferGeoUtils.FaceRangeMatchesFaceCount | index.js:164-167 | the face range check accepts exactly the integers in [0, numberOfFaces) |
| BufferGeoUtils.RangeCheckPrecedesLookup | index.js:162-173 | the range check does not look at index entries: two index streams of equal length accept the same faces |
| BufferGeoUtils.NonIndexedFacesCoverVertices | index.js:169-170 | in non-indexed geometry whose position length is a multiple of 9, every vertex v is corner v mod 3 of face v div 3 |
| BufferGeoUtils.ResolvesIffFullyStored | index.js:140-147 | a vertex reference resolves to a point with all three components exactly when the vertex's three entries lie inside the position stream |
| BufferGeoUtils.NonIndexedFacesResolveIff | index.js:165-170 | non-indexed: every face that passes the range check resolves to fully stored vertices if and only if the position length is a multiple of 9 |
| BufferGeoUtils.IndexedFacesResolveIff | index.js:165-173 | indexed: every face that passes the range check resolves to fully stored vertices if and only if the index length is a multiple of 3 and every entry names a fully stored vertex |
| BufferGeoUtils.GetFacePoints | index.js:176-197 | propagates the errors of the face lookup; otherwise succeeds exactly when every referenced point can be fetched, returning three points in the order of the face's references, each equal to getPoint at that reference; otherwise fails with "Index out of range" |
| BufferGeoUtils.FacePointsMatchPositionStream | index.js:189-196 | each point of a resolving face holds the position entries 3v, 3v+1, 3v+2 of its vertex index v, on both addressing paths |
| BufferGeoUtils.FractionalFaceCountExample | index.js:106-107 | a non-indexed stream of 12 entries counts 4/3 faces; face 1 passes the range check, yet its second vertex (4) is rejected by getPoint |
| BufferGeoUtils.PartialLastVertexExample | index.js:189-196 | a non-indexed stream of 16 entries lets face 1 through, all three of its vertices pass getPoint's range check, and vertex 5 comes back with only its first component stored: getFacePoints returns a point with missing components instead of failing |
| BufferGeoUtils.ShortIndexStreamExample | index.js:172-173 | an index stream of 4 entries lets face 1 through with two undefined references, and getPoint accepts an undefined reference without reading anything |
| Object3DUtils.IsMesh | index.js:217-227 | true exactly for a scene node tagged as a mesh; false for undefined and any non-node value, so every mesh is a scene node |
| Object3DUtils.GetAllMeshes | index.js:229-248 | returns [] for undefined or any non-node input; when the root is a mesh it comes first |
| Object3DUtils.KeepMeshesMembership | index.js:241-245 | the traversal callback keeps a visited node exactly when it is a mesh |
| Object3DUtils.TraverseMembership | index.js:241-245 | the pre-order visit reaches exactly the nodes of the subtree, root included |
| Object3DUtils.GetAllMeshesExactlyMeshes | index.js:237-247 | for a scene node, a node is in the result exactly when it is a mesh of the subtree (root included) |
| Object3DUtils.GetAllMeshesCount | index.js:239-247 | the result has one entry per mesh-tagged node of the subtree |

`IsBufferGeometry` (index.js:10-17) and `Object3DUtils.IsObject` (index.js:205-215) are plain
predicates used in the contracts above. They have no contracts of their own.

## Left out

- `THREE.Vector3` construction: a point component with nothing stored at its offset is `None`. The
  vector's constructor substitutes its default 0 there, and the model does not name that default.
- Fractional JavaScript numbers as face or vertex indices: the model's indices are integers.
- Attribute `itemSize`, and `count` as distinct from `array.length`: the position stream is taken as 3
  components per vertex and the index stream as 1 entry per vertex reference.
- A geometry without a position attribute: the position stream is mandatory. The source would fail
  there with a JavaScript `TypeError` rather than one of its own errors.
- The unused constructor (index.js:4-9) and the `throwError` helpers (index.js:18-25, index.js:201-203):
  they are replaced by `Failure` values.
- The scene graph engine's `traverse`, `getAttribute`, `getIndex` and `instanceof`: these are library calls.
  They are modelled as record fields, a role tag, and a pre-order recursion.
- Node identity: nodes are values, so two structurally equal subtrees are the same value.
  `GetAllMeshesCount` still counts every visit.
- Surface area, ungrouping and reparenting, bounding boxes, resource disposal and decimal rounding:
  `index.js` has no code for them.
