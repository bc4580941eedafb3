/** Edge adjacency: for every pair of faces (i, j) with i < j, each pair of
    slots of face j whose two vertices both occur in face i proposes an
    edge between those vertices with incident faces (i, j); a proposal is
    dropped when an already recorded edge `Equals` it.

    The inner loop runs `j` up to an exclusive `bound`. The program as
    written uses `bound = faceCount - 1`, so the last face never takes part
    as the second face of a pair; `faceCount` is the evident intent. The
    functional reference `EdgesOf` and the method `FindEdgesUpTo` take the
    bound as a parameter, and both instances are modelled. */
module Adjacency {
  import opened Geometry

  // ------------------------------------------------ the proposed edges

  /** The vertices in slots `a` and `b` of face `j` both occur in face `i`. */
  predicate PairShared(faces: seq<Face>, i: nat, j: nat, a: nat, b: nat)
    requires i < |faces| && j < |faces| && a < 3 && b < 3
  {
    InFace(faces[j].vertexList[a], faces[i]) &&
    InFace(faces[j].vertexList[b], faces[i])
  }

  /** The edge proposed for slots `a`, `b` of face `j`, paired with face `i`:
      endpoints copied from the second face, faces `[i, j]`. */
  function Candidate(faces: seq<Face>, i: nat, j: nat, a: nat, b: nat): Edge
    requires i < |faces| && j < |faces| && a < 3 && b < 3
  {
    Edge([faces[j].vertexList[a], faces[j].vertexList[b]], [i, j])
  }

  /** The proposals of one face pair, in the order the slot pairs
      (0,1), (0,2), (1,2) are tested. */
  function PairCandidates(faces: seq<Face>, i: nat, j: nat): seq<Edge>
    requires i < |faces| && j < |faces|
  {
    (if PairShared(faces, i, j, 0, 1) then [Candidate(faces, i, j, 0, 1)] else []) +
    (if PairShared(faces, i, j, 0, 2) then [Candidate(faces, i, j, 0, 2)] else []) +
    (if PairShared(faces, i, j, 1, 2) then [Candidate(faces, i, j, 1, 2)] else [])
  }

  /** The proposals of row `i` for `j` from `i + 1` up to `jEnd` exclusive. */
  function RowCandidates(faces: seq<Face>, i: nat, jEnd: int): seq<Edge>
    requires i < |faces| && jEnd <= |faces|
    decreases jEnd - i
  {
    if jEnd <= i + 1 then []
    else RowCandidates(faces, i, jEnd - 1) + PairCandidates(faces, i, jEnd - 1)
  }

  /** All proposals of rows `0 .. iEnd - 1`, in discovery order. */
  function Candidates(faces: seq<Face>, iEnd: nat, bound: int): seq<Edge>
    requires iEnd <= |faces| && bound <= |faces|
  {
    if iEnd == 0 then []
    else Candidates(faces, iEnd - 1, bound) + RowCandidates(faces, iEnd - 1, bound)
  }

  // ------------------------------------------------------ deduplication

  /** Some recorded edge `Equals` the proposal (recorded edge on the left,
      as in `old_edge->equals(*new_edge)`). */
  predicate Known(es: seq<Edge>, e: Edge)
  {
    exists k :: 0 <= k < |es| && Equals(es[k], e)
  }

  /** Record a proposal unless it is already known. */
  function Insert(es: seq<Edge>, e: Edge): seq<Edge>
  {
    if Known(es, e) then es else es + [e]
  }

  /** Offer the proposals `t` in order. */
  function InsertAll(es: seq<Edge>, t: seq<Edge>): seq<Edge>
    decreases |t|
  {
    if |t| == 0 then es else InsertAll(Insert(es, t[0]), t[1..])
  }

  /** No recorded edge `Equals` a later one. */
  predicate NoDup(es: seq<Edge>)
  {
    forall a, b :: 0 <= a < b < |es| ==> !Equals(es[a], es[b])
  }

  /** The edge list the nested loops leave behind. */
  function EdgesOf(faces: seq<Face>, bound: int): (r: seq<Edge>)
    requires bound <= |faces|
    ensures forall e :: e in r ==> e in Candidates(faces, |faces|, bound)
    ensures |r| <= |Candidates(faces, |faces|, bound)|
  {
    var c := Candidates(faces, |faces|, bound);
    InsertAllGrows([], c);
    InsertAllShorter([], c);
    InsertAll([], c)
  }

  lemma {:induction false} InsertAllAppend(es: seq<Edge>, s: seq<Edge>, t: seq<Edge>)
    ensures InsertAll(es, s + t) == InsertAll(InsertAll(es, s), t)
    decreases |s|
  {
    if |s| == 0 {
      assert s + t == t;
    } else {
      assert (s + t)[0] == s[0];
      assert (s + t)[1..] == s[1..] + t;
      InsertAllAppend(Insert(es, s[0]), s[1..], t);
    }
  }

  lemma InsertAllSingle(es: seq<Edge>, c: Edge)
    ensures InsertAll(es, [c]) == Insert(es, c)
  {
    assert [c][1..] == [];
  }

  lemma KnownExtends(es: seq<Edge>, r: seq<Edge>, c: Edge)
    requires |es| <= |r| && r[..|es|] == es && Known(es, c)
    ensures Known(r, c)
  {
    var k :| 0 <= k < |es| && Equals(es[k], c);
    assert r[k] == es[k];
  }

  /** Offering proposals only ever appends: what was recorded stays, in
      place and unchanged; every recorded edge was recorded before or
      proposed; every proposal ends up known; and no duplicates appear. */
  /** Offering `t` adds at most `|t|` edges. */
  lemma {:induction false} InsertAllShorter(es: seq<Edge>, t: seq<Edge>)
    ensures |InsertAll(es, t)| <= |es| + |t|
    decreases |t|
  {
    if |t| > 0 {
      InsertAllShorter(Insert(es, t[0]), t[1..]);
    }
  }

  lemma {:induction false} InsertAllGrows(es: seq<Edge>, t: seq<Edge>)
    ensures |es| <= |InsertAll(es, t)| && InsertAll(es, t)[..|es|] == es
    ensures forall e :: e in InsertAll(es, t) ==> e in es || e in t
    ensures forall c :: c in t ==> Known(InsertAll(es, t), c)
    ensures NoDup(es) ==> NoDup(InsertAll(es, t))
    decreases |t|
  {
    if |t| > 0 {
      var es' := Insert(es, t[0]);
      InsertAllGrows(es', t[1..]);
      var r := InsertAll(es', t[1..]);
      assert r == InsertAll(es, t);
      assert es'[..|es|] == es;
      assert r[..|es|] == r[..|es'|][..|es|];
      if !Known(es, t[0]) {
        assert es'[|es|] == t[0];
        EqualsReflexive(t[0]);
      }
      assert Known(es', t[0]);
      KnownExtends(es', r, t[0]);
      forall c | c in t
        ensures Known(r, c)
      {
        if c != t[0] {
          assert c in t[1..];
        }
      }
      if NoDup(es) {
        assert NoDup(es');
      }
    }
  }

  // --------------------------------------------- facts about proposals

  /** The endpoints are the vertices of one of the slot pairs (0,1), (0,2),
      (1,2) of face `f`, in slot order. */
  predicate FromSlots(f: Face, e: Edge)
  {
    e.vertices == [f.vertexList[0], f.vertexList[1]] ||
    e.vertices == [f.vertexList[0], f.vertexList[2]] ||
    e.vertices == [f.vertexList[1], f.vertexList[2]]
  }

  /** What every recorded edge satisfies: its faces are `i < j` with `j`
      below the bound, its endpoints are copied from face `j` in slot order,
      and both endpoints occur in both incident faces. */
  predicate Sound(faces: seq<Face>, bound: int, e: Edge)
  {
    0 <= e.faces[0] < e.faces[1] < bound <= |faces| &&
    FromSlots(faces[e.faces[1]], e) &&
    InFace(e.vertices[0], faces[e.faces[0]]) && InFace(e.vertices[1], faces[e.faces[0]]) &&
    InFace(e.vertices[0], faces[e.faces[1]]) && InFace(e.vertices[1], faces[e.faces[1]])
  }

  /** Every proposal of the pair `(i, j)` is sound for any bound above `j`. */
  lemma PairCandidatesSound(faces: seq<Face>, i: nat, j: nat, bound: int)
    requires i < j < bound <= |faces|
    ensures forall e :: e in PairCandidates(faces, i, j) ==>
              e.faces[0] == i && e.faces[1] == j && Sound(faces, bound, e)
  {
  }

  lemma {:induction false} RowCandidatesSound(faces: seq<Face>, i: nat, jEnd: int, bound: int)
    requires i < |faces| && jEnd <= bound <= |faces|
    ensures forall e :: e in RowCandidates(faces, i, jEnd) ==>
              e.faces[0] == i && e.faces[1] < jEnd && Sound(faces, bound, e)
    decreases jEnd - i
  {
    if jEnd > i + 1 {
      var row := RowCandidates(faces, i, jEnd - 1);
      var pair := PairCandidates(faces, i, jEnd - 1);
      assert RowCandidates(faces, i, jEnd) == row + pair;
      RowCandidatesSound(faces, i, jEnd - 1, bound);
      PairCandidatesSound(faces, i, jEnd - 1, bound);
      forall e: Edge | e in row + pair
        ensures e.faces[0] == i && e.faces[1] < jEnd && Sound(faces, bound, e)
      {
        if e in row {
        } else {
          assert e in pair;
        }
      }
    }
  }

  lemma {:induction false} CandidatesSound(faces: seq<Face>, iEnd: nat, bound: int)
    requires iEnd <= |faces| && bound <= |faces|
    ensures forall e :: e in Candidates(faces, iEnd, bound) ==> Sound(faces, bound, e)
  {
    if iEnd > 0 {
      var earlier := Candidates(faces, iEnd - 1, bound);
      var row := RowCandidates(faces, iEnd - 1, bound);
      assert Candidates(faces, iEnd, bound) == earlier + row;
      CandidatesSound(faces, iEnd - 1, bound);
      RowCandidatesSound(faces, iEnd - 1, bound, bound);
    }
  }

  lemma PairCandidatesComplete(faces: seq<Face>, i: nat, j: nat, a: nat, b: nat)
    requires i < j < |faces| && a < b < 3 && PairShared(faces, i, j, a, b)
    ensures Candidate(faces, i, j, a, b) in PairCandidates(faces, i, j)
  {
    if a == 0 && b == 1 {
      assert PairCandidates(faces, i, j)[0] == Candidate(faces, i, j, 0, 1);
    } else if a == 0 {
      assert b == 2;
    } else {
      assert a == 1 && b == 2;
    }
  }

  lemma {:induction false} RowCandidatesComplete(faces: seq<Face>, i: nat, jEnd: int, j: nat, a: nat, b: nat)
    requires i < j < jEnd <= |faces| && a < b < 3 && PairShared(faces, i, j, a, b)
    ensures Candidate(faces, i, j, a, b) in RowCandidates(faces, i, jEnd)
    decreases jEnd - i
  {
    var c := Candidate(faces, i, j, a, b);
    var row := RowCandidates(faces, i, jEnd - 1);
    var pair := PairCandidates(faces, i, jEnd - 1);
    assert RowCandidates(faces, i, jEnd) == row + pair;
    if j < jEnd - 1 {
      RowCandidatesComplete(faces, i, jEnd - 1, j, a, b);
      assert c in row;
    } else {
      PairCandidatesComplete(faces, i, j, a, b);
      assert c in pair;
    }
  }

  lemma {:induction false} CandidatesComplete(faces: seq<Face>, iEnd: nat, bound: int, i: nat, j: nat, a: nat, b: nat)
    requires i < iEnd <= |faces| && i < j < bound <= |faces| && a < b < 3
    requires PairShared(faces, i, j, a, b)
    ensures Candidate(faces, i, j, a, b) in Candidates(faces, iEnd, bound)
  {
    var c := Candidate(faces, i, j, a, b);
    var earlier := Candidates(faces, iEnd - 1, bound);
    var row := RowCandidates(faces, iEnd - 1, bound);
    assert Candidates(faces, iEnd, bound) == earlier + row;
    if i < iEnd - 1 {
      CandidatesComplete(faces, iEnd - 1, bound, i, j, a, b);
      assert c in earlier;
    } else {
      RowCandidatesComplete(faces, i, bound, j, a, b);
      assert c in row;
    }
  }

  // ------------------------------------------ properties of the result

  /** Soundness: every recorded edge joins two faces `i < j < bound`, its
      endpoints are a slot pair of face `j`, and both endpoints occur in
      both faces. In particular no incident face is -1. */
  lemma EdgesSound(faces: seq<Face>, bound: int)
    requires bound <= |faces|
    ensures forall e :: e in EdgesOf(faces, bound) ==> Sound(faces, bound, e)
  {
    CandidatesSound(faces, |faces|, bound);
    InsertAllGrows([], Candidates(faces, |faces|, bound));
  }

  /** Completeness: for faces `i < j < bound`, every slot pair of face `j`
      whose vertices both occur in face `i` is covered by a recorded edge
      having both of those vertices as endpoints. */
  lemma EdgesComplete(faces: seq<Face>, bound: int, i: nat, j: nat, a: nat, b: nat)
    requires i < j < bound <= |faces| && a < b < 3
    requires InFace(faces[j].vertexList[a], faces[i])
    requires InFace(faces[j].vertexList[b], faces[i])
    ensures exists k :: 0 <= k < |EdgesOf(faces, bound)| &&
              faces[j].vertexList[a] in EdgesOf(faces, bound)[k].vertices &&
              faces[j].vertexList[b] in EdgesOf(faces, bound)[k].vertices
  {
    CandidatesComplete(faces, |faces|, bound, i, j, a, b);
    InsertAllGrows([], Candidates(faces, |faces|, bound));
    assert Known(EdgesOf(faces, bound), Candidate(faces, i, j, a, b));
  }

  /** No recorded edge `Equals` a later one. */
  lemma EdgesNoDuplicates(faces: seq<Face>, bound: int)
    requires bound <= |faces|
    ensures NoDup(EdgesOf(faces, bound))
  {
    InsertAllGrows([], Candidates(faces, |faces|, bound));
  }

  /** Discovery order: the edges recorded after the first `iEnd` rows are
      a prefix of the final list, so a rediscovered pair never replaces or
      moves the edge (and face indices) recorded first. */
  lemma EdgesKeepFirstDiscovery(faces: seq<Face>, bound: int, iEnd: nat)
    requires iEnd <= |faces| && bound <= |faces|
    ensures var early := InsertAll([], Candidates(faces, iEnd, bound));
            |early| <= |EdgesOf(faces, bound)| && EdgesOf(faces, bound)[..|early|] == early
  {
    CandidatesPrefix(faces, iEnd, |faces|, bound);
    var all := Candidates(faces, |faces|, bound);
    var rest := all[|Candidates(faces, iEnd, bound)|..];
    assert all == Candidates(faces, iEnd, bound) + rest;
    InsertAllAppend([], Candidates(faces, iEnd, bound), rest);
    InsertAllGrows(InsertAll([], Candidates(faces, iEnd, bound)), rest);
  }

  lemma {:induction false} CandidatesPrefix(faces: seq<Face>, i1: nat, i2: nat, bound: int)
    requires i1 <= i2 <= |faces| && bound <= |faces|
    ensures Candidates(faces, i1, bound) <= Candidates(faces, i2, bound)
    decreases i2 - i1
  {
    if i1 < i2 {
      CandidatesPrefix(faces, i1, i2 - 1, bound);
      var c2 := Candidates(faces, i2 - 1, bound);
      assert Candidates(faces, i2, bound) == c2 + RowCandidates(faces, i2 - 1, bound);
      PrefixOfAppend(Candidates(faces, i1, bound), c2, RowCandidates(faces, i2 - 1, bound));
    }
  }

  lemma PrefixOfAppend(a: seq<Edge>, b: seq<Edge>, c: seq<Edge>)
    requires a <= b
    ensures a <= b + c
  {
    assert forall k :: 0 <= k < |a| ==> (b + c)[k] == b[k];
  }



  /** A face whose three slots name three different vertices. */
  predicate ProperFace(f: Face)
  {
    f.vertexList[0] != f.vertexList[1] &&
    f.vertexList[0] != f.vertexList[2] &&
    f.vertexList[1] != f.vertexList[2]
  }

  /** On a mesh of proper triangles every recorded edge is proper, so
      `Equals` is symmetric on them and no two recorded edges share an
      unordered endpoint pair, whichever order they are compared in. */
  lemma EdgesUniquePairs(faces: seq<Face>, bound: int)
    requires bound <= |faces|
    requires forall f :: f in faces ==> ProperFace(f)
    ensures forall e :: e in EdgesOf(faces, bound) ==> Proper(e)
    ensures forall a, b :: 0 <= a < |EdgesOf(faces, bound)| && 0 <= b < |EdgesOf(faces, bound)| && a != b ==>
              !Equals(EdgesOf(faces, bound)[a], EdgesOf(faces, bound)[b])
  {
    var es := EdgesOf(faces, bound);
    EdgesSound(faces, bound);
    EdgesNoDuplicates(faces, bound);
    forall e | e in es
      ensures Proper(e)
    {
      assert Sound(faces, bound, e);
      assert faces[e.faces[1]] in faces;
    }
    forall a, b | 0 <= a < |es| && 0 <= b < |es| && a != b
      ensures !Equals(es[a], es[b])
    {
      assert es[a] in es && es[b] in es;
      EqualsSymmetricWhenProper(es[a], es[b]);
    }
  }

  // ------------------------------------------------- the nested loops

  /** The body shared by the three slot-pair branches: scan the recorded
      edges for one that `Equals` the proposal, and append it only if none
      does. */
  method AddIfNew(edges: seq<Edge>, edgeCount: nat, newEdge: Edge) returns (edges': seq<Edge>, edgeCount': nat)
    requires edgeCount == |edges|
    ensures edges' == Insert(edges, newEdge)
    ensures edgeCount' == |edges'|
  {
    var alreadyExists := false;
    var k := 0;
    while k < edgeCount
      invariant 0 <= k <= edgeCount
      invariant forall m :: 0 <= m < k ==> !Equals(edges[m], newEdge)
    {
      if Equals(edges[k], newEdge) {
        alreadyExists := true;
        break;
      }
      k := k + 1;
    }
    assert alreadyExists <==> Known(edges, newEdge);
    if alreadyExists {
      edges', edgeCount' := edges, edgeCount;
    } else {
      edges', edgeCount' := edges + [newEdge], edgeCount + 1;
    }
  }

  /** `findEdges` with the inner loop running `j < bound`. */
  method FindEdgesUpTo(faces: seq<Face>, bound: int) returns (edges: seq<Edge>, edgeCount: nat)
    requires bound <= |faces|
    ensures edges == EdgesOf(faces, bound)
    ensures edgeCount == |edges|
  {
    edges, edgeCount := [], 0;
    var i := 0;
    while i < |faces|
      invariant 0 <= i <= |faces|
      invariant edges == InsertAll([], Candidates(faces, i, bound))
      invariant edgeCount == |edges|
    {
      ghost var before := edges;
      edges, edgeCount := ExamineRow(faces, i, bound, edges, edgeCount);
      RowResultOffersRow(faces, i, bound, before);
      InsertAllAppend([], Candidates(faces, i, bound), RowCandidates(faces, i, bound));
      assert Candidates(faces, i + 1, bound) == Candidates(faces, i, bound) + RowCandidates(faces, i, bound);
      i := i + 1;
    }
  }

  /** What the inner loop for face `i` leaves behind when it stops
      before face `jEnd`: the proposals of each pair `(i, j)` are offered
      in turn, starting from `es`. */
  function RowResult(faces: seq<Face>, i: nat, jEnd: int, es: seq<Edge>): seq<Edge>
    requires i < |faces| && jEnd <= |faces|
    decreases jEnd - i
  {
    if jEnd <= i + 1 then es
    else InsertAll(RowResult(faces, i, jEnd - 1, es), PairCandidates(faces, i, jEnd - 1))
  }

  /** The row, folded pair by pair, is the row's proposals offered in
      one go. */
  lemma {:induction false} RowResultOffersRow(faces: seq<Face>, i: nat, jEnd: int, es: seq<Edge>)
    requires i < |faces| && jEnd <= |faces|
    ensures RowResult(faces, i, jEnd, es) == InsertAll(es, RowCandidates(faces, i, jEnd))
    decreases jEnd - i
  {
    if jEnd > i + 1 {
      RowResultOffersRow(faces, i, jEnd - 1, es);
      InsertAllAppend(es, RowCandidates(faces, i, jEnd - 1), PairCandidates(faces, i, jEnd - 1));
    }
  }

  /** The inner loop for face `i`: pair it with every face `j` from
      `i + 1` up to `bound` exclusive. */
  method ExamineRow(faces: seq<Face>, i: nat, bound: int, edges: seq<Edge>, edgeCount: nat)
    returns (edges': seq<Edge>, edgeCount': nat)
    requires i < |faces| && bound <= |faces| && edgeCount == |edges|
    ensures edges' == RowResult(faces, i, bound, edges)
    ensures edgeCount' == |edges'|
  {
    edges', edgeCount' := edges, edgeCount;
    if bound <= i + 1 {
      // the loop condition fails at once
      RowResultEmpty(faces, i, bound, edges);
      return;
    }
    var j := i + 1;
    while j < bound
      invariant i + 1 <= j <= bound
      invariant edges' == RowResult(faces, i, j, edges)
      invariant edgeCount' == |edges'|
    {
      edges', edgeCount' := ExtendRow(faces, i, j, edges, edges', edgeCount');
      j := j + 1;
    }
  }

  /** A row that stops at or before `i + 1` offers nothing. */
  lemma RowResultEmpty(faces: seq<Face>, i: nat, jEnd: int, es: seq<Edge>)
    requires i < |faces| && jEnd <= i + 1
    ensures RowResult(faces, i, jEnd, es) == es
  {
  }

  /** Examine the pair `(i, j)` and carry the row's result forward from
      stopping before `j` to stopping before `j + 1`. */
  method ExtendRow(faces: seq<Face>, i: nat, j: nat, ghost es: seq<Edge>, edges: seq<Edge>, edgeCount: nat)
    returns (edges': seq<Edge>, edgeCount': nat)
    requires i < j < |faces| && edgeCount == |edges|
    requires edges == RowResult(faces, i, j, es)
    ensures edges' == RowResult(faces, i, j + 1, es)
    ensures edgeCount' == |edges'|
  {
    edges', edgeCount' := ExaminePair(faces, i, j, edges, edgeCount);
  }

  /** One iteration of the inner loop: test which vertices of face `j`
      occur in face `i` and offer the edge of each shared slot pair. */
  method ExaminePair(faces: seq<Face>, i: nat, j: nat, edges: seq<Edge>, edgeCount: nat)
    returns (edges': seq<Edge>, edgeCount': nat)
    requires i < j < |faces| && edgeCount == |edges|
    ensures edges' == InsertAll(edges, PairCandidates(faces, i, j))
    ensures edgeCount' == |edges'|
  {
    edges', edgeCount' := edges, edgeCount;
    var face1, face2 := faces[i], faces[j];
    var share0 := InFace(face2.vertexList[0], face1);
    var share1 := InFace(face2.vertexList[1], face1);
    var share2 := InFace(face2.vertexList[2], face1);
    if share0 && share1 {
      edges', edgeCount' := AddIfNew(edges', edgeCount', Candidate(faces, i, j, 0, 1));
    }
    if share0 && share2 {
      edges', edgeCount' := AddIfNew(edges', edgeCount', Candidate(faces, i, j, 0, 2));
    }
    if share1 && share2 {
      edges', edgeCount' := AddIfNew(edges', edgeCount', Candidate(faces, i, j, 1, 2));
    }
    PairStep(faces, i, j, edges);
  }

  lemma PairStep(faces: seq<Face>, i: nat, j: nat, es: seq<Edge>)
    requires i < j < |faces|
    ensures InsertAll(es, PairCandidates(faces, i, j)) ==
            var e1 := if PairShared(faces, i, j, 0, 1) then Insert(es, Candidate(faces, i, j, 0, 1)) else es;
            var e2 := if PairShared(faces, i, j, 0, 2) then Insert(e1, Candidate(faces, i, j, 0, 2)) else e1;
            if PairShared(faces, i, j, 1, 2) then Insert(e2, Candidate(faces, i, j, 1, 2)) else e2
  {
    var p01: seq<Edge> := if PairShared(faces, i, j, 0, 1) then [Candidate(faces, i, j, 0, 1)] else [];
    var p02: seq<Edge> := if PairShared(faces, i, j, 0, 2) then [Candidate(faces, i, j, 0, 2)] else [];
    var p12: seq<Edge> := if PairShared(faces, i, j, 1, 2) then [Candidate(faces, i, j, 1, 2)] else [];
    InsertAllAppend(es, p01 + p02, p12);
    InsertAllAppend(es, p01, p02);
    if PairShared(faces, i, j, 0, 1) { InsertAllSingle(es, Candidate(faces, i, j, 0, 1)); }
    var e1 := InsertAll(es, p01);
    if PairShared(faces, i, j, 0, 2) { InsertAllSingle(e1, Candidate(faces, i, j, 0, 2)); }
    var e2 := InsertAll(e1, p02);
    if PairShared(faces, i, j, 1, 2) { InsertAllSingle(e2, Candidate(faces, i, j, 1, 2)); }
  }

  /** `findEdges` as written: the inner loop stops at `faceCount - 1`.
      Every edge joins faces `i < j <= faceCount - 2`, so the last face is
      never a second face and no edge has a -1 face. */
  method FindEdges(faces: seq<Face>) returns (edges: seq<Edge>, edgeCount: nat)
    ensures edges == EdgesOf(faces, |faces| - 1)
    ensures edgeCount == |edges|
    ensures forall e :: e in edges ==> 0 <= e.faces[0] < e.faces[1] <= |faces| - 2
  {
    edges, edgeCount := FindEdgesUpTo(faces, |faces| - 1);
    EdgesSound(faces, |faces| - 1);
  }

  /** `findEdges` with the inner loop over every later face: every pair of
      faces `i < j` is examined. */
  method FindEdgesAllPairs(faces: seq<Face>) returns (edges: seq<Edge>, edgeCount: nat)
    ensures edges == EdgesOf(faces, |faces|)
    ensures edgeCount == |edges|
    ensures forall e :: e in edges ==> 0 <= e.faces[0] < e.faces[1] < |faces|
  {
    edges, edgeCount := FindEdgesUpTo(faces, |faces|);
    EdgesSound(faces, |faces|);
  }

  // ------------------------------------------------- the loop bound

  function Tri(a: int, b: int, c: int): Face
  {
    Face([a, b, c], Zero, 0)
  }

  /** Two triangles sharing the edge {1,2} (a square split along its
      diagonal): with the bound as written no face pair is examined and no
      edge is found; with every pair examined the shared edge is found. */
  lemma SharedDiagonalMissedAsWritten()
    ensures EdgesOf([Tri(0, 1, 2), Tri(2, 1, 3)], 1) == []
    ensures EdgesOf([Tri(0, 1, 2), Tri(2, 1, 3)], 2) == [Edge([2, 1], [0, 1])]
  {
    var faces := [Tri(0, 1, 2), Tri(2, 1, 3)];
    assert RowCandidates(faces, 0, 1) == [];
    assert RowCandidates(faces, 1, 1) == [];
    assert Candidates(faces, 2, 1) == [];
    assert PairShared(faces, 0, 1, 0, 1);
    assert !PairShared(faces, 0, 1, 0, 2);
    assert !PairShared(faces, 0, 1, 1, 2);
    assert PairCandidates(faces, 0, 1) == [Edge([2, 1], [0, 1])];
    assert RowCandidates(faces, 0, 2) == [Edge([2, 1], [0, 1])];
    assert RowCandidates(faces, 1, 2) == [];
    assert Candidates(faces, 2, 2) == [Edge([2, 1], [0, 1])];
    assert InsertAll([], [Edge([2, 1], [0, 1])]) == [Edge([2, 1], [0, 1])];
  }

  /** As written, the last face is never the second face of an edge, so an
      edge it shares with an earlier face is recorded only if some other
      pair of faces also shares it. */
  lemma LastFaceNeverSecond(faces: seq<Face>)
    ensures forall e :: e in EdgesOf(faces, |faces| - 1) ==> e.faces[1] != |faces| - 1
  {
    EdgesSound(faces, |faces| - 1);
  }
}
