/** Front-face classification against a look vector, and the choice of
    silhouette edges: the edges whose two incident faces carry different
    front-face flags. Drawing the chosen segments is not modelled; the
    result is the sequence of endpoint pairs that would be drawn. */
module Visibility {
  import opened Geometry

  // ---------------------------------------------------- classification

  /** A face is front-facing when its normal points against the look
      vector; a zero dot product counts as back-facing. */
  predicate FacesViewer(look: Vec3, f: Face)
  {
    Dot(look, f.faceNormal) < 0.0
  }

  /** One iteration of `computeFrontFace`: the flag is overwritten with 1
      or 0, nothing else about the face changes. */
  function Classify(look: Vec3, f: Face): (g: Face)
    ensures g.frontFace == 1 <==> FacesViewer(look, f)
    ensures g.frontFace == 0 <==> !FacesViewer(look, f)
    ensures g.vertexList == f.vertexList && g.faceNormal == f.faceNormal
  {
    f.(frontFace := if Dot(look, f.faceNormal) < 0.0 then 1 else 0)
  }

  /** `after` is `before` with every face classified against `look`. */
  predicate ClassifiedBy(look: Vec3, before: seq<Face>, after: seq<Face>)
  {
    |after| == |before| &&
    forall i :: 0 <= i < |before| ==> after[i] == Classify(look, before[i])
  }

  /** `computeFrontFace`: every face's flag is set from the sign of its dot
      product with the look vector, 1 when negative and 0 otherwise
      (including exactly 0); vertices and normals are untouched. */
  method ComputeFrontFace(faces: seq<Face>, look: Vec3) returns (r: seq<Face>)
    ensures |r| == |faces|
    ensures forall i :: 0 <= i < |faces| ==>
              (r[i].frontFace == 1 <==> Dot(look, faces[i].faceNormal) < 0.0) &&
              (r[i].frontFace == 0 <==> Dot(look, faces[i].faceNormal) >= 0.0)
    ensures forall i :: 0 <= i < |faces| ==>
              r[i].vertexList == faces[i].vertexList && r[i].faceNormal == faces[i].faceNormal
    ensures ClassifiedBy(look, faces, r)
  {
    r := faces;
    var i := 0;
    while i < |faces|
      invariant 0 <= i <= |faces| && |r| == |faces|
      invariant forall k :: 0 <= k < i ==> r[k] == Classify(look, faces[k])
      invariant forall k :: i <= k < |faces| ==> r[k] == faces[k]
    {
      var dotProduct := Dot(look, r[i].faceNormal);
      if dotProduct < 0.0 {
        r := r[i := r[i].(frontFace := 1)];
      } else {
        r := r[i := r[i].(frontFace := 0)];
      }
      i := i + 1;
    }
  }

  /** Classifying again with the same look vector changes nothing. */
  lemma ClassifyIdempotent(look: Vec3, a: seq<Face>, b: seq<Face>, c: seq<Face>)
    requires ClassifiedBy(look, a, b) && ClassifiedBy(look, b, c)
    ensures c == b
  {
    assert forall i :: 0 <= i < |b| ==> c[i] == b[i];
  }

  /** Faces with the same vertices and normals. */
  predicate SameGeometry(a: seq<Face>, b: seq<Face>)
  {
    |a| == |b| &&
    forall i :: 0 <= i < |a| ==> a[i].vertexList == b[i].vertexList && a[i].faceNormal == b[i].faceNormal
  }

  /** Every flag is overwritten: the flags present before a pass have no
      influence on its result. */
  lemma ClassifyForgetsOldFlags(look: Vec3, a: seq<Face>, a': seq<Face>, b: seq<Face>, b': seq<Face>)
    requires SameGeometry(a, a')
    requires ClassifiedBy(look, a, b) && ClassifiedBy(look, a', b')
    ensures b == b'
  {
    assert forall i :: 0 <= i < |b| ==> b[i] == b'[i];
  }

  function Negate(v: Vec3): Vec3
  {
    Vec3(-v.x, -v.y, -v.z)
  }

  /** Reversing the look vector swaps front and back for every face that
      is not edge-on; an edge-on face is back-facing both ways. */
  lemma ClassifyReversedLook(look: Vec3, f: Face)
    ensures Dot(look, f.faceNormal) != 0.0 ==>
              Classify(Negate(look), f).frontFace == 1 - Classify(look, f).frontFace
    ensures Dot(look, f.faceNormal) == 0.0 ==>
              Classify(Negate(look), f).frontFace == 0 && Classify(look, f).frontFace == 0
  {
    assert Dot(Negate(look), f.faceNormal) == -Dot(look, f.faceNormal);
  }

  /** A triangle with normal +z: front-facing when looking along -z,
      back-facing when looking along +z, and back-facing when looking
      along +x (dot product 0). */
  lemma ClassifyAxisExamples(f: Face)
    requires f.faceNormal == Vec3(0.0, 0.0, 1.0)
    ensures Classify(Vec3(0.0, 0.0, -1.0), f).frontFace == 1
    ensures Classify(Vec3(0.0, 0.0, 1.0), f).frontFace == 0
    ensures Classify(Vec3(1.0, 0.0, 0.0), f).frontFace == 0
  {
  }

  // -------------------------------------------------------- silhouette

  /** Both incident faces of every edge are faces of the mesh. */
  predicate FacesInRange(edges: seq<Edge>, faces: seq<Face>)
  {
    forall e :: e in edges ==> ValidIndex(e.faces[0], |faces|) && ValidIndex(e.faces[1], |faces|)
  }

  /** The two incident faces carry different flags. */
  predicate OnSilhouette(e: Edge, faces: seq<Face>)
    requires ValidIndex(e.faces[0], |faces|) && ValidIndex(e.faces[1], |faces|)
  {
    faces[e.faces[0]].frontFace != faces[e.faces[1]].frontFace
  }

  /** A drawn line segment: `vertices[0]` then `vertices[1]` of an edge. */
  datatype Segment = Segment(from: int, to: int)

  function SegmentOf(e: Edge): Segment
  {
    Segment(e.vertices[0], e.vertices[1])
  }

  /** Positions of the silhouette edges in the edge list. */
  function SilhouetteIndices(edges: seq<Edge>, faces: seq<Face>): set<nat>
    requires FacesInRange(edges, faces)
  {
    set k: nat | k < |edges| && OnSilhouette(edges[k], faces)
  }

  lemma SilhouetteIndicesStep(edges: seq<Edge>, faces: seq<Face>)
    requires FacesInRange(edges, faces) && |edges| > 0
    ensures FacesInRange(edges[..|edges| - 1], faces)
    ensures SilhouetteIndices(edges, faces) ==
              SilhouetteIndices(edges[..|edges| - 1], faces) +
              (if OnSilhouette(edges[|edges| - 1], faces) then {|edges| - 1} else {})
    ensures |edges| - 1 !in SilhouetteIndices(edges[..|edges| - 1], faces)
  {
    var prefix := edges[..|edges| - 1];
    assert forall e :: e in prefix ==> e in edges;
    assert forall k :: 0 <= k < |prefix| ==> prefix[k] == edges[k];
  }

  /** The non-drawing part of `renderSilhouette`: walk the edge list in
      order and emit the endpoints of exactly the edges whose incident
      faces disagree about facing the viewer. */
  function SilhouetteSegments(edges: seq<Edge>, faces: seq<Face>): (r: seq<Segment>)
    requires FacesInRange(edges, faces)
    ensures |r| == |SilhouetteIndices(edges, faces)|
    decreases |edges|
  {
    if |edges| == 0 then []
    else
      var last := edges[|edges| - 1];
      SilhouetteIndicesStep(edges, faces);
      SilhouetteSegments(edges[..|edges| - 1], faces) +
      (if OnSilhouette(last, faces) then [SegmentOf(last)] else [])
  }

  /** Only silhouette edges contribute: every emitted segment is the
      endpoint pair of an edge whose incident faces disagree. */
  lemma {:induction false} SilhouetteSound(edges: seq<Edge>, faces: seq<Face>)
    requires FacesInRange(edges, faces)
    ensures forall s :: s in SilhouetteSegments(edges, faces) ==>
              exists k :: 0 <= k < |edges| && OnSilhouette(edges[k], faces) && s == SegmentOf(edges[k])
    decreases |edges|
  {
    if |edges| > 0 {
      var prefix := edges[..|edges| - 1];
      var last := edges[|edges| - 1];
      var tail := if OnSilhouette(last, faces) then [SegmentOf(last)] else [];
      SilhouetteIndicesStep(edges, faces);
      SilhouetteSound(prefix, faces);
      assert SilhouetteSegments(edges, faces) == SilhouetteSegments(prefix, faces) + tail;
      forall s | s in SilhouetteSegments(edges, faces)
        ensures exists k :: 0 <= k < |edges| && OnSilhouette(edges[k], faces) && s == SegmentOf(edges[k])
      {
        if s in SilhouetteSegments(prefix, faces) {
          var k :| 0 <= k < |prefix| && OnSilhouette(prefix[k], faces) && s == SegmentOf(prefix[k]);
          assert edges[k] == prefix[k];
        } else {
          assert s in tail;
          assert edges[|edges| - 1] == last;
        }
      }
    }
  }

  /** Every edge whose incident faces disagree contributes its endpoint
      pair. */
  lemma {:induction false} SilhouetteComplete(edges: seq<Edge>, faces: seq<Face>, k: nat)
    requires FacesInRange(edges, faces) && k < |edges|
    requires OnSilhouette(edges[k], faces)
    ensures SegmentOf(edges[k]) in SilhouetteSegments(edges, faces)
    decreases |edges|
  {
    var prefix := edges[..|edges| - 1];
    SilhouetteIndicesStep(edges, faces);
    if k < |edges| - 1 {
      assert prefix[k] == edges[k];
      SilhouetteComplete(prefix, faces, k);
    }
  }

  /** Both parts of a concatenation whose faces are in range have their
      faces in range. */
  lemma FacesInRangeParts(a: seq<Edge>, b: seq<Edge>, faces: seq<Face>)
    requires FacesInRange(a + b, faces)
    ensures FacesInRange(a, faces) && FacesInRange(b, faces)
  {
    assert forall e :: e in a ==> e in a + b;
    assert forall e :: e in b ==> e in a + b;
  }

  /** The output follows the order of the edge list: the segments of a
      concatenation are the concatenation of the segments. */
  lemma {:induction false} SilhouetteFollowsEdgeOrder(a: seq<Edge>, b: seq<Edge>, faces: seq<Face>)
    requires FacesInRange(a + b, faces)
    ensures FacesInRange(a, faces) && FacesInRange(b, faces)
    ensures SilhouetteSegments(a + b, faces) == SilhouetteSegments(a, faces) + SilhouetteSegments(b, faces)
    decreases |b|
  {
    FacesInRangeParts(a, b, faces);
    if |b| > 0 {
      var b' := b[..|b| - 1];
      var last := b[|b| - 1];
      var tail := if OnSilhouette(last, faces) then [SegmentOf(last)] else [];
      assert (a + b)[..|a + b| - 1] == a + b';
      assert a + b == (a + b') + [last];
      FacesInRangeParts(a + b', [last], faces);
      SilhouetteFollowsEdgeOrder(a, b', faces);
      assert SilhouetteSegments(a + b, faces) == SilhouetteSegments(a + b', faces) + tail;
      assert SilhouetteSegments(b, faces) == SilhouetteSegments(b', faces) + tail;
      assert SilhouetteSegments(a + b, faces) ==
             SilhouetteSegments(a, faces) + (SilhouetteSegments(b', faces) + tail);
    } else {
      assert a + b == a;
    }
  }

  /** On classified faces an edge is on the silhouette exactly when one
      incident face faces the viewer and the other does not. */
  lemma SilhouetteSeparatesFrontFromBack(look: Vec3, before: seq<Face>, faces: seq<Face>, e: Edge)
    requires ClassifiedBy(look, before, faces)
    requires ValidIndex(e.faces[0], |faces|) && ValidIndex(e.faces[1], |faces|)
    ensures OnSilhouette(e, faces) <==>
              FacesViewer(look, before[e.faces[0]]) != FacesViewer(look, before[e.faces[1]])
  {
  }
}
