/** The mesh object as `loadGeometry` leaves it, and the per-view steps
    that run on it: classify faces, then pick the silhouette segments.

    Recentering and rescaling the vertices and the floating-point normal
    computation are not modelled; the normal of a face is supplied by a
    function of its three vertices. */
module PlyLoad {
  import opened Geometry
  import opened PlyParse
  import opened Adjacency
  import opened Visibility

  /** The loaded mesh: property tally, vertices, faces and edges. */
  datatype Ply = Ply(properties: int, vertices: seq<Vertex>, faces: seq<Face>, edges: seq<Edge>)

  /** Every vertex slot of every face names a loaded vertex. */
  predicate FaceIndicesInRange(vertices: seq<Vertex>, faces: seq<Face>)
  {
    forall f, k :: f in faces && 0 <= k < 3 ==> ValidIndex(f.vertexList[k], |vertices|)
  }

  /** The store step of `computeFaceNormals`: face i gets the normal of
      its three vertices, taken in slot order; nothing else changes. */
  function ComputeFaceNormals(vertices: seq<Vertex>, faces: seq<Face>,
                              normalOf: (Vertex, Vertex, Vertex) -> Vec3): (r: seq<Face>)
    requires FaceIndicesInRange(vertices, faces)
    ensures |r| == |faces|
    ensures forall i :: 0 <= i < |faces| ==>
              r[i].vertexList == faces[i].vertexList && r[i].frontFace == faces[i].frontFace
    ensures forall i, i' ::
              0 <= i < |faces| && 0 <= i' < |faces| && faces[i].vertexList == faces[i'].vertexList ==>
                r[i].faceNormal == r[i'].faceNormal
  {
    seq(|faces|, i requires 0 <= i < |faces| =>
      var f := faces[i];
      f.(faceNormal := normalOf(vertices[f.vertexList[0]], vertices[f.vertexList[1]], vertices[f.vertexList[2]])))
  }

  /** `loadGeometry`: read the file, compute the face normals, find the
      edges (with the inner loop bound as written). The mesh's faces all
      start back-facing, and every edge joins two of its faces. */
  method LoadGeometry(lines: seq<Line>, atoi: string -> int, normalOf: (Vertex, Vertex, Vertex) -> Vec3)
    returns (ply: Ply, edgeCount: nat)
    requires Readable(lines, atoi)
    requires FaceIndicesInRange(Parse(lines, atoi).vertices, Parse(lines, atoi).faces)
    ensures ply.properties == ParseHeader(lines, atoi).properties
    ensures ply.vertices == Parse(lines, atoi).vertices
    ensures |ply.faces| == ParseHeader(lines, atoi).faceCount
    ensures forall i :: 0 <= i < |ply.faces| ==>
              ply.faces[i].vertexList == Parse(lines, atoi).faces[i].vertexList &&
              ply.faces[i].frontFace == 0
    ensures ply.edges == EdgesOf(ply.faces, |ply.faces| - 1)
    ensures FacesInRange(ply.edges, ply.faces)
    ensures edgeCount == |ply.edges|
  {
    var parsed := Parse(lines, atoi);
    var faces := ComputeFaceNormals(parsed.vertices, parsed.faces, normalOf);
    var edges;
    edges, edgeCount := FindEdges(faces);
    EdgesSound(faces, |faces| - 1);
    ply := Ply(parsed.header.properties, parsed.vertices, faces, edges);
  }

  /** Edges found by the nested loops (whatever the bound) always join two
      faces of the mesh, so the silhouette choice never reads a face that
      does not exist; this also holds after the flags are recomputed. */
  lemma FoundEdgesInRange(faces: seq<Face>, bound: int, look: Vec3, classified: seq<Face>)
    requires bound <= |faces| && ClassifiedBy(look, faces, classified)
    ensures FacesInRange(EdgesOf(faces, bound), faces)
    ensures FacesInRange(EdgesOf(faces, bound), classified)
  {
    EdgesSound(faces, bound);
  }

  /** The silhouette of a classified mesh: every emitted segment joins two
      vertices that occur in both incident faces of some found edge, and
      of those two faces exactly one faces the viewer. */
  lemma SilhouetteSeparatesViews(faces: seq<Face>, bound: int, look: Vec3, classified: seq<Face>)
    requires bound <= |faces| && ClassifiedBy(look, faces, classified)
    ensures FacesInRange(EdgesOf(faces, bound), classified)
    ensures forall s :: s in SilhouetteSegments(EdgesOf(faces, bound), classified) ==>
              exists e :: e in EdgesOf(faces, bound) && s == SegmentOf(e) &&
                Sound(faces, bound, e) &&
                FacesViewer(look, faces[e.faces[0]]) != FacesViewer(look, faces[e.faces[1]])
  {
    var edges := EdgesOf(faces, bound);
    FoundEdgesInRange(faces, bound, look, classified);
    EdgesSound(faces, bound);
    SilhouetteSound(edges, classified);
    forall s | s in SilhouetteSegments(edges, classified)
      ensures exists e :: e in edges && s == SegmentOf(e) && Sound(faces, bound, e) &&
                FacesViewer(look, faces[e.faces[0]]) != FacesViewer(look, faces[e.faces[1]])
    {
      var k :| 0 <= k < |edges| && OnSilhouette(edges[k], classified) && s == SegmentOf(edges[k]);
      SilhouetteSeparatesFrontFromBack(look, faces, classified, edges[k]);
    }
  }

  function TriWithNormal(a: int, b: int, c: int, n: Vec3): Face
  {
    Face([a, b, c], n, 0)
  }

  /** A single triangle has no edges: no pair of faces exists. */
  lemma SingleTriangleHasNoEdges(f: Face)
    ensures EdgesOf([f], 0) == []
    ensures EdgesOf([f], 1) == []
  {
    assert Candidates([f], 1, 0) == [];
    assert Candidates([f], 1, 1) == [];
  }

  /** A tent: two triangles folded along the edge {1,2}, one facing a
      viewer looking along -z, the other facing away. With every face pair
      examined the fold is a silhouette segment; with the loop bound as
      written no edge exists and the silhouette is empty. */
  lemma TentSilhouette()
    ensures var faces := [TriWithNormal(0, 1, 2, Vec3(0.0, 0.0, 1.0)),
                          TriWithNormal(2, 1, 3, Vec3(0.0, 0.0, -1.0))];
            var look := Vec3(0.0, 0.0, -1.0);
            var classified := [Classify(look, faces[0]), Classify(look, faces[1])];
            FacesInRange(EdgesOf(faces, 2), classified) &&
            SilhouetteSegments(EdgesOf(faces, 2), classified) == [Segment(2, 1)] &&
            SilhouetteSegments(EdgesOf(faces, 1), classified) == []
  {
    var faces := [TriWithNormal(0, 1, 2, Vec3(0.0, 0.0, 1.0)),
                  TriWithNormal(2, 1, 3, Vec3(0.0, 0.0, -1.0))];
    var look := Vec3(0.0, 0.0, -1.0);
    var classified := [Classify(look, faces[0]), Classify(look, faces[1])];
    assert classified[0].frontFace == 1 && classified[1].frontFace == 0;
    assert PairShared(faces, 0, 1, 0, 1);
    assert !PairShared(faces, 0, 1, 0, 2);
    assert !PairShared(faces, 0, 1, 1, 2);
    assert PairCandidates(faces, 0, 1) == [Edge([2, 1], [0, 1])];
    assert RowCandidates(faces, 0, 2) == [Edge([2, 1], [0, 1])];
    assert RowCandidates(faces, 1, 2) == [];
    assert Candidates(faces, 2, 2) == [Edge([2, 1], [0, 1])];
    assert InsertAll([], [Edge([2, 1], [0, 1])]) == [Edge([2, 1], [0, 1])];
    assert RowCandidates(faces, 0, 1) == [] && RowCandidates(faces, 1, 1) == [];
    assert Candidates(faces, 2, 1) == [];
    var edges := [Edge([2, 1], [0, 1])];
    assert SilhouetteSegments(edges, classified) ==
           SilhouetteSegments(edges[..0], classified) + [Segment(2, 1)];
  }
}
