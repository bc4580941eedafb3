# PLY mesh topology: parsing, edge adjacency, front faces, silhouette

A Dafny model of the mesh logic of a small PLY viewer. The viewer reads a
triangle mesh from a PLY text file and finds the edges that two faces share.
For a given look vector it marks every face as front- or back-facing. It then
draws the silhouette: the shared edges whose two faces disagree.

The model has five modules:

- `Geometry` (`geometry.dfy`): the `vertex`, `face` and `edge` records,
  their default constructors, and `edge::equals`.
- `PlyParse` (`parse.dfy`): the reading part of `ply::loadGeometry`. It
  works on lines that are already split into tokens. The header scan runs
  up to the first `end_header`. It sets `vertexCount` and `faceCount` from
  the `element` lines and keeps a property tally that starts at -2. Then
  come exactly `vertexCount` vertex lines, where x, y and z are read only
  when the tally reaches 0, 1 and 2. Then come exactly `faceCount` face
  lines. Each face line's count token is skipped and the next three
  indices are read.
- `Adjacency` (`adjacency.dfy`): `ply::findEdges`. It is written twice.
  `EdgesOf` is a functional reference: the sequence of proposed edges in
  discovery order, deduplicated with `Equals`. The methods mirror the
  source's loops: `FindEdgesUpTo` is the i-loop, `ExamineRow` the j-loop,
  `ExaminePair` the three shared-slot tests of one pair, and `AddIfNew`
  the k-scan. The method is proved equal to the
  reference, and the lemmas about the reference give bounds, soundness,
  completeness, no duplicates and first-discovery-wins.
- `Visibility` (`visibility.dfy`): `ply::computeFrontFace` and the
  edge-selection part of `ply::renderSilhouette`.
- `PlyLoad` (`load.dfy`): the loaded mesh object and how the stages fit
  together.

Things the model takes as inputs:

- The C library's `atoi` is a parameter `atoi: string -> int`.
- A vertex coordinate is the text of the token it was read from (`Coord`).
  The conversion to floating point is not modelled.
- A face normal comes from a caller-supplied function of the face's three
  vertices.
- The dot product is exact arithmetic on reals.

In four places the source crashes or has undefined behaviour. Each becomes
a precondition:

- a missing token, where the tokenizer returns NULL and the reader uses it
  (`LineReadable`, `VertexLineReadable`, `FaceLineReadable`);
- a negative count on any `element` line of the header, where the array
  allocation on that line throws, even when a later line sets the count
  again (`PlyParse.HeaderCountsNonNegative`);
- a face index outside the vertex list, which `computeFaceNormals` would
  read;
- an edge whose face index is outside the face list, which
  `renderSilhouette` would read.

Reading past the end of the input yields an empty line. This is what
`getline` gives when the file ends in a newline.

Three behaviours of the program that a reader might not expect:

- **No edges with one incident face.** The program only creates an edge
  from a pair of faces, so it never creates an edge that borders a single
  face. A single triangle has no edges
  (`PlyLoad.SingleTriangleHasNoEdges`).
- **No input checks.** The program reports no error for malformed input:
  a face line's count token is ignored, and face indices are never
  checked against the vertex count.
- **The header tests.** After an `element` line, the program tests for
  `property` and `end_header` on the last token the element step pulled,
  not on the first token (`PlyParse.ClassToken`). The model keeps this
  behaviour. `PlyParse.PropertiesCountFirstTokens` gives the first-token count
  for headers whose `element` lines do not end in a keyword.

## Model

| member | source | states |
|---|---|---|
| Geometry.NewFace | geometry.h:28-33 | a default face names no valid vertex in any mesh and is not front-facing |
| Geometry.NewEdge | geometry.h:44-50 | a default edge has no valid endpoint or incident face index (-1 everywhere) |
| Geometry.Equals | geometry.h:52-61 | `a.equals(e)` holds exactly when both endpoints of `e` occur among the endpoints of `a` |
| Geometry.EqualsReflexive | geometry.h:52-61 | every edge equals itself |
| Geometry.EqualsIgnoresOrder | geometry.h:53-54 | swapping the endpoints of either edge does not change the result |
| Geometry.EqualsIgnoresFaces | geometry.h:56-58 | the incident faces of both edges play no part |
| Geometry.EqualsSymmetricWhenProper | geometry.h:52-61 | between edges with distinct endpoints the test is symmetric and means "same unordered pair" |
| Geometry.EqualsNotSymmetricOnDegenerate | geometry.h:53-54 | {u,v} equals {u,u} but {u,u} does not equal {u,v} |
| PlyParse.LineAt | ply.cpp:156 | a line past the end of the input is empty, and every other line is the input line itself |
| PlyParse.ApplyHeaderLine | ply.cpp:123-148 | one header line moves the property tally by at most one, and leaves each count alone unless the line sets it |
| PlyParse.ClassToken | ply.cpp:124-148 | the property/end_header tests see the first token, or on an `element` line one of the later tokens |
| PlyParse.HeaderEnd | ply.cpp:117-149 | the scan stops at the first terminator line; every earlier line is readable and not a terminator |
| PlyParse.HeaderLength | ply.cpp:117-149 | the header consumes every line up to and including the first terminator, or all lines if there is none |
| PlyParse.ScanHeaderLines | ply.cpp:111-149 | the property tally is -2 plus the number of header lines whose tested token is `property` |
| PlyParse.ScanHeaderNoVertexCount | ply.cpp:131-135 | `vertexCount` stays 0 when no header line is an `element vertex` line |
| PlyParse.ScanHeaderVertexCount | ply.cpp:131-135 | `vertexCount` is `atoi` of the count on the last `element vertex` line: a later line overwrites an earlier one |
| PlyParse.ScanHeaderNoFaceCount | ply.cpp:139-143 | `faceCount` stays 0 when no header line carries a `face` element token |
| PlyParse.ScanHeaderFaceCount | ply.cpp:139-143 | `faceCount` is `atoi` of the count after the `face` element token of the last such line |
| PlyParse.ParseHeader | ply.cpp:117-149 | the header loop reads up to and including the first terminator; the tally is -2 plus the header lines whose tested token is `property` |
| PlyParse.ScanHeaderCountsNonNegative | ply.cpp:131-143 | when no count-setting line gives a negative count, the counts the scan ends with are non-negative |
| PlyParse.HeaderCountsFinal | ply.cpp:131-143 | when no header allocation throws, the declared vertex and face counts are non-negative |
| PlyParse.EarlierNegativeCountUnreadable | ply.cpp:131-135 | an `element vertex -1` line makes the input unreadable even when a later `element vertex 2` line follows |
| PlyParse.HeaderIgnoresBody | ply.cpp:117-149 | lines after the first terminator have no influence on the header or its length |
| PlyParse.PropertiesCountFirstTokens | ply.cpp:111-146 | for plain `element` lines the tally is (lines whose first token is `property`) - 2 |
| PlyParse.ParseVertex | ply.cpp:162-170 | x, y, z are the first three tokens, each read only when the tally is at least 0, 1, 2 |
| PlyParse.ParseVertexIgnoresExtraTokens | ply.cpp:162-170 | tokens beyond those the reader pulls do not matter |
| PlyParse.ParseVertices | ply.cpp:153-171 | exactly `vertexCount` vertices; vertex i comes from the i-th line after the header |
| PlyParse.ParseFace | ply.cpp:178-189 | slot j holds `atoi` of token j+1; the face is otherwise default, so back-facing |
| PlyParse.ParseFaceIgnoresCountAndExtra | ply.cpp:179-189 | the leading count token and any tokens after the third index have no effect |
| PlyParse.ParseFaces | ply.cpp:175-191 | exactly `faceCount` faces; face i comes from the i-th line after the vertex lines |
| PlyParse.Parse | ply.cpp:109-192 | the header, vertex and face blocks are read back to back; every face starts back-facing |
| Adjacency.EdgesOf | ply.cpp:336-446 | the reference edge list: the proposals of all pairs in discovery order, deduplicated with `equals`; every recorded edge is a proposal and there are no more edges than proposals |
| Adjacency.AddIfNew | ply.cpp:366-382 | the k-scan appends the proposal exactly when no recorded edge `equals` it, and keeps `edgeCount` equal to the list length |
| Adjacency.ExaminePair | ply.cpp:350-437 | one (i, j) iteration proposes the slot pairs (0,1), (0,2), (1,2) of face j whose vertices both occur in face i, in that order |
| Adjacency.RowResultOffersRow | ply.cpp:349-438 | running the inner loop pair by pair gives the same list as offering the whole row's proposals in discovery order |
| Adjacency.ExamineRow | ply.cpp:349-438 | the inner loop for face i offers the proposals of the pairs (i, i+1) up to (i, bound-1) in that order, and does nothing when the bound is at most i+1 |
| Adjacency.FindEdgesUpTo | ply.cpp:336-446 | the nested i/j loops with their k-scans compute the reference edge list, and `edgeCount` is its length |
| Adjacency.FindEdges | ply.cpp:346-349 | as written: every edge has faces `0 <= i < j <= faceCount - 2` |
| Adjacency.FindEdgesAllPairs | ply.cpp:346-349 | with the inner loop over all later faces: every edge has faces `0 <= i < j < faceCount` |
| Adjacency.InsertAllGrows | ply.cpp:366-382 | deduplication only appends: earlier edges stay in place; each edge was proposed; every proposal ends up covered; no duplicates appear |
| Adjacency.EdgesSound | ply.cpp:354-364 | every edge joins faces i < j below the bound, copies a slot pair of face j in slot order, and both endpoints occur in both faces |
| Adjacency.EdgesComplete | ply.cpp:346-437 | every slot pair of face j shared with face i (i < j below the bound) is covered by an edge with both vertices as endpoints |
| Adjacency.EdgesNoDuplicates | ply.cpp:366-382 | no recorded edge `equals` a later one |
| Adjacency.EdgesKeepFirstDiscovery | ply.cpp:366-382 | edges recorded after any number of rows form a prefix of the final list, so a rediscovered pair never replaces the first edge or its faces |
| Adjacency.EdgesUniquePairs | ply.cpp:366-382 | on proper triangles all edges are proper and no two share an unordered endpoint pair |
| Adjacency.LastFaceNeverSecond | ply.cpp:349 | as written, no edge has the last face as its second face |
| Adjacency.SharedDiagonalMissedAsWritten | ply.cpp:349 | two triangles sharing an edge give no edge as written, and the shared edge with every pair examined |
| Visibility.Classify | ply.cpp:327-330 | a face's flag becomes 1 exactly when its dot product with the look vector is negative and 0 otherwise; the face is otherwise unchanged |
| Visibility.ComputeFrontFace | ply.cpp:322-332 | every flag is overwritten by the sign rule (0 for a zero dot product); vertices and normals are untouched |
| Visibility.ClassifyIdempotent | ply.cpp:322-332 | classifying twice with the same look vector gives the same flags |
| Visibility.ClassifyForgetsOldFlags | ply.cpp:326-331 | the flags from before a pass do not influence its result |
| Visibility.ClassifyReversedLook | ply.cpp:327-330 | reversing the look vector swaps front and back unless the dot product is 0, which is back-facing both ways |
| Visibility.ClassifyAxisExamples | ply.cpp:327-330 | normal +z: look -z gives front-facing, look +z back-facing, look +x (dot 0) back-facing |
| Visibility.SilhouetteSegments | ply.cpp:458-473 | the number of emitted segments is the number of edges whose two faces have different flags |
| Visibility.SilhouetteSound | ply.cpp:468-472 | every emitted segment is `vertices[0]`, `vertices[1]` of an edge whose faces' flags differ |
| Visibility.SilhouetteComplete | ply.cpp:458-473 | every edge whose faces' flags differ contributes its segment |
| Visibility.SilhouetteFollowsEdgeOrder | ply.cpp:458 | segments come out in edge-list order: the output for a concatenation is the concatenation of the outputs |
| Visibility.SilhouetteSeparatesFrontFromBack | ply.cpp:462-468 | on classified faces an edge is chosen exactly when one incident face faces the viewer and the other does not |
| PlyLoad.ComputeFaceNormals | ply.cpp:206-220 | only normals change; each normal depends only on the face's three vertex slots |
| PlyLoad.LoadGeometry | ply.cpp:97-204 | the loaded mesh has the parsed vertices and faces, all back-facing; its edges are the as-written edge list; every edge joins two existing faces |
| PlyLoad.FoundEdgesInRange | ply.cpp:462-466 | edges from the nested loops never name a missing face, before or after classification |
| PlyLoad.SilhouetteSeparatesViews | ply.cpp:458-473 | each silhouette segment lies on a found edge whose two faces share both endpoints, and exactly one of those faces faces the viewer |
| PlyLoad.SingleTriangleHasNoEdges | ply.cpp:346-349 | a one-face mesh has no edges (no boundary edges are ever made) |
| PlyLoad.TentSilhouette | ply.cpp:349 | a folded two-triangle tent: the fold is a silhouette segment with every pair examined, and the silhouette is empty as written |

## Findings

| source | as written | input that shows it | evidently intended | confidence | as-written member | corrected member |
|---|---|---|---|---|---|---|
| ply.cpp:349 | the inner loop runs `j < faceCount-1`, so the last face is never the second face of a pair | faces (0,1,2) and (2,1,3), which share edge {1,2}: no edge is found | `j < faceCount`, so every pair i < j is examined | high; not executed | Adjacency.SharedDiagonalMissedAsWritten | Adjacency.FindEdgesAllPairs |

The bound is a parameter of `Adjacency.EdgesOf` and `Adjacency.FindEdgesUpTo`.
The lemmas about them (soundness, completeness, no duplicates, first
discovery kept) hold for both bounds. `Adjacency.FindEdges` is the
as-written instance. `PlyLoad.LoadGeometry` uses it, so the loader stays
faithful to the program. `Adjacency.FindEdgesAllPairs` is the corrected
instance: `Adjacency.EdgesComplete` with bound `faceCount` says every shared
pair of faces is covered. `PlyLoad.TentSilhouette` shows the effect on the
silhouette.

## Left out

- Drawing: `render`, `renderNormal` and the `gl*` calls of `renderSilhouette`. They only draw; the silhouette model returns the segments that would be drawn.
- The windowing and UI layer (canvas, sliders, file chooser, camera and look-vector rotation): plumbing with floating-point camera math; the look vector is an input.
- File I/O: opening the file, and the message and `exit(1)` when it cannot be opened. The input is a sequence of token lines.
- The characters of a line: splitting at blanks and `\r`, `atoi` (a parameter) and `atof` (a coordinate is its token text). The 256-byte line buffer, which a longer line overflows, is also out.
- `scaleAndCenter`: floating-point recentering and rescaling. Its division is unguarded when there are no vertices or all coincide. Vertices keep their read values in the model.
- PlyLoad.ComputeFaceNormals: the normalize/cross arithmetic is a caller-supplied function; only the store into each face is modelled.
- Visibility.Classify: the dot product is exact real arithmetic, so float rounding and NaN (which the source classifies as back-facing) are not modelled.
- The default value of `glm::vec3` members (an unread normal) is modelled as the zero vector.
- Memory management: `new`/`delete`, `deconstruct`, `reload` teardown, the destructor.
- The debug printers `printAttributes`, `printVertexList` and `printFaceList`.
- PlyParse.LineAt: when the last line of the file has no final newline, every later `getline` leaves that line in place, so a block that runs past the end re-reads it. The model reads an empty line there instead, because the input is a sequence of lines and carries no final-newline flag.
- 32-bit `int`: counts and indices are unbounded integers, and `atoi` overflow is not modelled.
