/** The record types of the mesh: vertices, triangular faces and edges,
    their default constructors, and the edge equality test used to
    deduplicate edges. Every relation between records is a plain index. */
module Geometry {

  /** Exactly three vertex indices, the `int vertexList[3]` of a face. */
  type Triple = s: seq<int> | |s| == 3 witness [-1, -1, -1]

  /** Exactly two indices, the `int vertices[2]` / `int faces[2]` of an edge. */
  type Pair = s: seq<int> | |s| == 2 witness [-1, -1]

  /** A 3-vector of reals, standing in for `glm::vec3` (no rounding). */
  datatype Vec3 = Vec3(x: real, y: real, z: real)

  const Zero: Vec3 := Vec3(0.0, 0.0, 0.0)

  function Dot(a: Vec3, b: Vec3): real
  {
    a.x * b.x + a.y * b.y + a.z * b.z
  }

  /** A vertex coordinate: either never assigned (the default-constructed
      value) or read from a token of a vertex line. The numeric conversion
      of the token is not modelled; only which token lands where. */
  datatype Coord = Unset | Read(text: string)

  datatype Vertex = Vertex(x: Coord, y: Coord, z: Coord)

  datatype Face = Face(vertexList: Triple, faceNormal: Vec3, frontFace: int)

  datatype Edge = Edge(vertices: Pair, faces: Pair)

  /** Vertex `v` occupies one of the three slots of face `f` (the
      `std::find` over `vertexList`). */
  predicate InFace(v: int, f: Face)
  {
    v == f.vertexList[0] || v == f.vertexList[1] || v == f.vertexList[2]
  }

  /** An index is valid for a collection of `count` records. */
  predicate ValidIndex(i: int, count: int)
  {
    0 <= i < count
  }

  /** A freshly allocated vertex: no coordinate has been read yet. */
  function NewVertex(): (v: Vertex)
    ensures !v.x.Read? && !v.y.Read? && !v.z.Read?
  {
    Vertex(Unset, Unset, Unset)
  }

  /** The default face: no vertex slot names a vertex of any mesh, and the
      face starts out not front-facing. */
  function NewFace(): (f: Face)
    ensures forall k, count :: 0 <= k < 3 ==> !ValidIndex(f.vertexList[k], count)
    ensures f.frontFace == 0
  {
    Face([-1, -1, -1], Zero, 0)
  }

  /** The default edge: -1 is used because 0 is a meaningful index, so no
      endpoint and no incident face of a default edge is a valid index. */
  function NewEdge(): (e: Edge)
    ensures forall k, count :: 0 <= k < 2 ==> !ValidIndex(e.vertices[k], count)
    ensures forall k, count :: 0 <= k < 2 ==> !ValidIndex(e.faces[k], count)
  {
    Edge([-1, -1], [-1, -1])
  }

  /** `a.equals(e)`: two early-return tests, one per endpoint of `e`. The
      result is true exactly when both endpoints of `e` occur among the
      endpoints of `a`; the incident faces play no part. */
  function Equals(a: Edge, e: Edge): (r: bool)
    ensures r <==> e.vertices[0] in a.vertices && e.vertices[1] in a.vertices
  {
    if a.vertices[0] != e.vertices[0] && a.vertices[1] != e.vertices[0] then false
    else if a.vertices[0] != e.vertices[1] && a.vertices[1] != e.vertices[1] then false
    else true
  }

  /** An edge whose two endpoints differ. */
  predicate Proper(e: Edge)
  {
    e.vertices[0] != e.vertices[1]
  }

  lemma EqualsReflexive(a: Edge)
    ensures Equals(a, a)
  {
  }

  /** Swapping the endpoints of either edge does not change the answer. */
  lemma EqualsIgnoresOrder(a: Edge, e: Edge)
    ensures Equals(a, e) <==> Equals(a, Edge([e.vertices[1], e.vertices[0]], e.faces))
    ensures Equals(a, e) <==> Equals(Edge([a.vertices[1], a.vertices[0]], a.faces), e)
  {
  }

  /** The `faces` fields of both edges are irrelevant. */
  lemma EqualsIgnoresFaces(a: Edge, e: Edge, fa: Pair, fe: Pair)
    ensures Equals(a, e) == Equals(Edge(a.vertices, fa), Edge(e.vertices, fe))
  {
  }

  /** Between proper edges the test is symmetric, and it then holds exactly
      when the two unordered endpoint pairs coincide. */
  lemma EqualsSymmetricWhenProper(a: Edge, e: Edge)
    requires Proper(a) && Proper(e)
    ensures Equals(a, e) == Equals(e, a)
    ensures Equals(a, e) <==>
              (a.vertices[0] == e.vertices[0] && a.vertices[1] == e.vertices[1]) ||
              (a.vertices[0] == e.vertices[1] && a.vertices[1] == e.vertices[0])
  {
  }

  /** A degenerate edge {u,u} and a proper edge {u,v}: the proper one
      "equals" the degenerate one, but not the other way round. */
  lemma EqualsNotSymmetricOnDegenerate(u: int, v: int)
    requires u != v
    ensures Equals(Edge([u, v], [-1, -1]), Edge([u, u], [-1, -1]))
    ensures !Equals(Edge([u, u], [-1, -1]), Edge([u, v], [-1, -1]))
  {
  }
}
