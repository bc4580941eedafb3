/** Reading a PLY mesh from lines that are already split into tokens at
    blanks and carriage returns: the header scan, then exactly
    `vertexCount` vertex lines, then exactly `faceCount` face lines.

    The C library's `atoi` is a parameter. Where the reader would pull a
    token that is not there (a NULL from the tokenizer, which crashes the
    reader) the model has a precondition instead. */
module PlyParse {
  import opened Geometry

  type Token = string
  type Line = seq<Token>

  /** Reading past the end of the input yields an empty line: `getline`
      clears the string once a file that ends in a newline is exhausted. */
  function LineAt(lines: seq<Line>, k: int): (l: Line)
    ensures 0 <= k < |lines| ==> l == lines[k]
    ensures !(0 <= k < |lines|) ==> |l| == 0
  {
    if 0 <= k < |lines| then lines[k] else []
  }

  /** Line `i` of a block that starts at line `start`. */
  function BodyLine(lines: seq<Line>, start: int, i: int): Line
  {
    LineAt(lines, start + i)
  }

  // ---------------------------------------------------------------- header

  /** The header state: the two declared element counts and the running
      property tally, which starts at -2. */
  datatype Header = Header(vertexCount: int, faceCount: int, properties: int)

  /** The state on entry to the header scan. */
  const InitialHeader: Header := Header(0, 0, -2)

  /** Position of the token the reader holds after the `element vertex N`
      step of an `element` line: the count token when the second token is
      `vertex`, the second token otherwise. */
  function AfterVertex(line: Line): nat
    requires |line| >= 2
  {
    if line[1] == "vertex" then 2 else 1
  }

  /** Every token the reader pulls from this header line is present. */
  predicate LineReadable(line: Line)
  {
    |line| >= 1 &&
    (line[0] == "element" ==>
       |line| >= 2 &&
       |line| > AfterVertex(line) &&
       (line[AfterVertex(line)] == "face" ==> |line| > AfterVertex(line) + 1))
  }

  predicate SetsVertexCount(line: Line)
    requires LineReadable(line)
  {
    line[0] == "element" && line[1] == "vertex"
  }

  /** The face count is set when the token held after the vertex step is
      `face`; so `element vertex face N` sets both counts. */
  predicate SetsFaceCount(line: Line)
    requires LineReadable(line)
  {
    line[0] == "element" && line[AfterVertex(line)] == "face"
  }

  function FaceCountToken(line: Line): Token
    requires LineReadable(line) && SetsFaceCount(line)
  {
    line[AfterVertex(line) + 1]
  }

  /** The token that the `property` and `end_header` tests look at: the
      first token, except on an `element` line, where it is the last token
      the element step pulled. */
  function ClassToken(line: Line): (t: Token)
    requires LineReadable(line)
    ensures line[0] != "element" ==> t == line[0]
    ensures line[0] == "element" ==> t in line[1..]
  {
    if line[0] != "element" then line[0]
    else if SetsFaceCount(line) then FaceCountToken(line)
    else line[AfterVertex(line)]
  }

  predicate IsTerminator(line: Line)
    requires LineReadable(line)
  {
    ClassToken(line) == "end_header"
  }

  /** Every line the header scan visits from line `k` on, up to and
      including the first terminator, is readable. */
  predicate HeaderReadable(lines: seq<Line>, k: nat)
    requires k <= |lines|
    decreases |lines| - k
  {
    k == |lines| ||
    (LineReadable(lines[k]) && (IsTerminator(lines[k]) || HeaderReadable(lines, k + 1)))
  }

  /** The index of the first terminator at or after `k`, or `|lines|` when
      there is none. */
  function HeaderEnd(lines: seq<Line>, k: nat): (e: nat)
    requires k <= |lines| && HeaderReadable(lines, k)
    ensures k <= e <= |lines|
    ensures forall m :: k <= m < e ==> LineReadable(lines[m]) && !IsTerminator(lines[m])
    ensures e < |lines| ==> LineReadable(lines[e]) && IsTerminator(lines[e])
    decreases |lines| - k
  {
    if k == |lines| then k
    else if IsTerminator(lines[k]) then k
    else HeaderEnd(lines, k + 1)
  }

  /** The number of lines the header scan consumes, terminator included. */
  function HeaderLength(lines: seq<Line>): (n: nat)
    requires HeaderReadable(lines, 0)
    ensures n <= |lines|
    ensures forall m :: 0 <= m < n ==> LineReadable(lines[m])
    ensures forall m :: 0 <= m < n - 1 ==> !IsTerminator(lines[m])
    ensures n < |lines| ==> 0 < n && IsTerminator(lines[n - 1])
  {
    var e := HeaderEnd(lines, 0);
    if e < |lines| then e + 1 else e
  }

  /** One iteration of the header loop. */
  function ApplyHeaderLine(h: Header, line: Line, atoi: string -> int): (r: Header)
    requires LineReadable(line)
    ensures r.properties == h.properties || r.properties == h.properties + 1
    ensures !SetsVertexCount(line) ==> r.vertexCount == h.vertexCount
    ensures !SetsFaceCount(line) ==> r.faceCount == h.faceCount
  {
    Header(
      if SetsVertexCount(line) then atoi(line[2]) else h.vertexCount,
      if SetsFaceCount(line) then atoi(FaceCountToken(line)) else h.faceCount,
      if ClassToken(line) == "property" then h.properties + 1 else h.properties)
  }

  predicate AllReadable(ls: seq<Line>)
  {
    forall m :: 0 <= m < |ls| ==> LineReadable(ls[m])
  }

  /** Indices of the lines that the tally counts as `property` lines. */
  function PropertyLines(ls: seq<Line>): set<nat>
    requires AllReadable(ls)
  {
    set m: nat | m < |ls| && ClassToken(ls[m]) == "property"
  }

  lemma PropertyLinesStep(ls: seq<Line>)
    requires AllReadable(ls) && |ls| > 0
    ensures PropertyLines(ls) ==
              PropertyLines(ls[..|ls| - 1]) +
              (if ClassToken(ls[|ls| - 1]) == "property" then {|ls| - 1} else {})
    ensures |ls| - 1 !in PropertyLines(ls[..|ls| - 1])
  {
  }

  /** The header state after scanning the lines `ls` in order; the tally
      counts the property lines. */
  function ScanHeaderLines(ls: seq<Line>, atoi: string -> int): (h: Header)
    requires AllReadable(ls)
    ensures h.properties == -2 + |PropertyLines(ls)|
    decreases |ls|
  {
    if |ls| == 0 then InitialHeader
    else
      var prefix := ls[..|ls| - 1];
      assert AllReadable(prefix);
      PropertyLinesStep(ls);
      ApplyHeaderLine(ScanHeaderLines(prefix, atoi), ls[|ls| - 1], atoi)
  }

  /** With no line declaring a vertex count, the count stays 0. */
  lemma {:induction false} ScanHeaderNoVertexCount(ls: seq<Line>, atoi: string -> int)
    requires AllReadable(ls)
    requires forall m :: 0 <= m < |ls| ==> !SetsVertexCount(ls[m])
    ensures ScanHeaderLines(ls, atoi).vertexCount == 0
    decreases |ls|
  {
    if |ls| > 0 {
      var prefix := ls[..|ls| - 1];
      assert forall m :: 0 <= m < |prefix| ==> prefix[m] == ls[m];
      ScanHeaderNoVertexCount(prefix, atoi);
    }
  }

  /** The vertex count is the one declared by the LAST line that sets it. */
  lemma {:induction false} ScanHeaderVertexCount(ls: seq<Line>, atoi: string -> int, m: nat)
    requires AllReadable(ls) && m < |ls| && SetsVertexCount(ls[m])
    requires forall m' :: m < m' < |ls| ==> !SetsVertexCount(ls[m'])
    ensures ScanHeaderLines(ls, atoi).vertexCount == atoi(ls[m][2])
    decreases |ls|
  {
    var prefix := ls[..|ls| - 1];
    assert AllReadable(prefix);
    assert ScanHeaderLines(ls, atoi) ==
           ApplyHeaderLine(ScanHeaderLines(prefix, atoi), ls[|ls| - 1], atoi);
    if m < |ls| - 1 {
      assert forall m' :: m < m' < |prefix| ==> prefix[m'] == ls[m'];
      assert prefix[m] == ls[m];
      ScanHeaderVertexCount(prefix, atoi, m);
    }
  }

  /** With no line declaring a face count, the count stays 0. */
  lemma {:induction false} ScanHeaderNoFaceCount(ls: seq<Line>, atoi: string -> int)
    requires AllReadable(ls)
    requires forall m :: 0 <= m < |ls| ==> !SetsFaceCount(ls[m])
    ensures ScanHeaderLines(ls, atoi).faceCount == 0
    decreases |ls|
  {
    if |ls| > 0 {
      var prefix := ls[..|ls| - 1];
      assert forall m :: 0 <= m < |prefix| ==> prefix[m] == ls[m];
      ScanHeaderNoFaceCount(prefix, atoi);
    }
  }

  /** The face count is the one declared by the LAST line that sets it. */
  lemma {:induction false} ScanHeaderFaceCount(ls: seq<Line>, atoi: string -> int, m: nat)
    requires AllReadable(ls) && m < |ls| && SetsFaceCount(ls[m])
    requires forall m' :: m < m' < |ls| ==> !SetsFaceCount(ls[m'])
    ensures ScanHeaderLines(ls, atoi).faceCount == atoi(FaceCountToken(ls[m]))
    decreases |ls|
  {
    var prefix := ls[..|ls| - 1];
    assert AllReadable(prefix);
    assert ScanHeaderLines(ls, atoi) ==
           ApplyHeaderLine(ScanHeaderLines(prefix, atoi), ls[|ls| - 1], atoi);
    if m < |ls| - 1 {
      assert forall m' :: m < m' < |prefix| ==> prefix[m'] == ls[m'];
      assert prefix[m] == ls[m];
      ScanHeaderFaceCount(prefix, atoi, m);
    }
  }

  /** The header as read by `loadGeometry`: every line up to and including
      the first terminator is scanned, later lines are not. */
  function ParseHeader(lines: seq<Line>, atoi: string -> int): (h: Header)
    requires HeaderReadable(lines, 0)
    ensures h.properties ==
              -2 + |set m: nat | m < HeaderLength(lines) && ClassToken(lines[m]) == "property"|
  {
    var prefix := lines[..HeaderLength(lines)];
    assert forall m :: 0 <= m < |prefix| ==> prefix[m] == lines[m];
    assert PropertyLines(prefix) ==
           set m: nat | m < HeaderLength(lines) && ClassToken(lines[m]) == "property";
    ScanHeaderLines(prefix, atoi)
  }

  /** Every count the header sets is non-negative: each `element` line
      allocates its array at once, so a negative count on any of them
      throws, even one a later line would overwrite. */
  predicate CountsNonNegative(ls: seq<Line>, atoi: string -> int)
    requires AllReadable(ls)
  {
    forall m :: 0 <= m < |ls| ==>
      (SetsVertexCount(ls[m]) ==> atoi(ls[m][2]) >= 0) &&
      (SetsFaceCount(ls[m]) ==> atoi(FaceCountToken(ls[m])) >= 0)
  }

  /** When no allocation throws, the counts the scan ends with are
      non-negative. */
  lemma {:induction false} ScanHeaderCountsNonNegative(ls: seq<Line>, atoi: string -> int)
    requires AllReadable(ls) && CountsNonNegative(ls, atoi)
    ensures ScanHeaderLines(ls, atoi).vertexCount >= 0
    ensures ScanHeaderLines(ls, atoi).faceCount >= 0
    decreases |ls|
  {
    if |ls| > 0 {
      var prefix := ls[..|ls| - 1];
      assert forall m :: 0 <= m < |prefix| ==> prefix[m] == ls[m];
      assert AllReadable(prefix) && CountsNonNegative(prefix, atoi);
      ScanHeaderCountsNonNegative(prefix, atoi);
      assert ScanHeaderLines(ls, atoi) ==
             ApplyHeaderLine(ScanHeaderLines(prefix, atoi), ls[|ls| - 1], atoi);
    }
  }

  /** No allocation in the header of `lines` throws. */
  predicate HeaderCountsNonNegative(lines: seq<Line>, atoi: string -> int)
    requires HeaderReadable(lines, 0)
  {
    forall m :: 0 <= m < HeaderLength(lines) ==>
      (SetsVertexCount(lines[m]) ==> atoi(lines[m][2]) >= 0) &&
      (SetsFaceCount(lines[m]) ==> atoi(FaceCountToken(lines[m])) >= 0)
  }

  /** The header's final counts are non-negative when none of its
      allocations throws. */
  lemma HeaderCountsFinal(lines: seq<Line>, atoi: string -> int)
    requires HeaderReadable(lines, 0) && HeaderCountsNonNegative(lines, atoi)
    ensures ParseHeader(lines, atoi).vertexCount >= 0
    ensures ParseHeader(lines, atoi).faceCount >= 0
  {
    var prefix := lines[..HeaderLength(lines)];
    assert forall m :: 0 <= m < |prefix| ==> prefix[m] == lines[m];
    assert AllReadable(prefix) && CountsNonNegative(prefix, atoi);
    ScanHeaderCountsNonNegative(prefix, atoi);
  }

  /** Once a terminator has been seen, whatever follows it has no
      influence on the header. */
  lemma HeaderIgnoresBody(lines: seq<Line>, more: seq<Line>, atoi: string -> int)
    requires HeaderReadable(lines, 0) && HeaderEnd(lines, 0) < |lines|
    ensures HeaderReadable(lines + more, 0)
    ensures HeaderLength(lines + more) == HeaderLength(lines)
    ensures ParseHeader(lines + more, atoi) == ParseHeader(lines, atoi)
  {
    var e := HeaderEnd(lines, 0);
    HeaderReadablePrefix(lines, more, 0, e);
    HeaderEndPrefix(lines, more, 0, e);
    assert (lines + more)[..e + 1] == lines[..e + 1];
  }

  lemma {:induction false} HeaderReadablePrefix(lines: seq<Line>, more: seq<Line>, k: nat, e: nat)
    requires k <= e < |lines| && HeaderReadable(lines, k) && e == HeaderEnd(lines, k)
    ensures HeaderReadable(lines + more, k)
    decreases e - k
  {
    assert (lines + more)[k] == lines[k];
    if !IsTerminator(lines[k]) {
      HeaderReadablePrefix(lines, more, k + 1, e);
    }
  }

  lemma {:induction false} HeaderEndPrefix(lines: seq<Line>, more: seq<Line>, k: nat, e: nat)
    requires k <= e < |lines| && HeaderReadable(lines, k) && e == HeaderEnd(lines, k)
    requires HeaderReadable(lines + more, k)
    ensures HeaderEnd(lines + more, k) == e
    decreases e - k
  {
    assert (lines + more)[k] == lines[k];
    if !IsTerminator(lines[k]) {
      HeaderEndPrefix(lines, more, k + 1, e);
    }
  }

  /** In a header whose `element` lines do not end in a keyword, the tally
      is the number of lines whose first token is `property`, minus 2. */
  lemma PropertiesCountFirstTokens(ls: seq<Line>, atoi: string -> int)
    requires AllReadable(ls)
    requires forall m :: 0 <= m < |ls| && ls[m][0] == "element" ==> ClassToken(ls[m]) != "property"
    ensures ScanHeaderLines(ls, atoi).properties ==
              -2 + |set m: nat | m < |ls| && ls[m][0] == "property"|
  {
    assert PropertyLines(ls) == set m: nat | m < |ls| && ls[m][0] == "property";
  }

  // -------------------------------------------------------------- vertices

  /** The vertex reader pulls one token for x when the tally is at least
      0, one more for y at 1 and one more for z at 2. */
  function TokensPerVertex(properties: int): nat
  {
    if properties < 0 then 0 else if properties >= 2 then 3 else properties + 1
  }

  predicate VertexLineReadable(line: Line, properties: int)
  {
    |line| >= TokensPerVertex(properties)
  }

  /** A vertex line: x, y and z come from the first three tokens, each
      only when the tally reaches 0, 1 and 2; later tokens are ignored. */
  function ParseVertex(line: Line, properties: int): (v: Vertex)
    requires VertexLineReadable(line, properties)
    ensures v.x.Read? <==> properties >= 0
    ensures v.y.Read? <==> properties >= 1
    ensures v.z.Read? <==> properties >= 2
    ensures v.x.Read? ==> v.x.text == line[0]
    ensures v.y.Read? ==> v.y.text == line[1]
    ensures v.z.Read? ==> v.z.text == line[2]
  {
    var v0 := NewVertex();
    var v1 := if properties >= 0 then v0.(x := Read(line[0])) else v0;
    var v2 := if properties >= 1 then v1.(y := Read(line[1])) else v1;
    if properties >= 2 then v2.(z := Read(line[2])) else v2
  }

  /** Tokens after the ones the reader pulls make no difference. */
  lemma ParseVertexIgnoresExtraTokens(line: Line, extra: Line, properties: int)
    requires VertexLineReadable(line, properties)
    ensures VertexLineReadable(line + extra, properties)
    ensures ParseVertex(line + extra, properties) == ParseVertex(line, properties)
  {
  }

  /** The vertex loop: `count` vertices, vertex i from line `start + i`. */
  function ParseVertices(lines: seq<Line>, start: int, count: nat, properties: int): (vs: seq<Vertex>)
    requires forall i :: 0 <= i < count ==> VertexLineReadable(BodyLine(lines, start, i), properties)
    ensures |vs| == count
    ensures forall i :: 0 <= i < count ==> vs[i] == ParseVertex(BodyLine(lines, start, i), properties)
  {
    if count == 0 then []
    else ParseVertices(lines, start, count - 1, properties) +
         [ParseVertex(BodyLine(lines, start, count - 1), properties)]
  }

  // ----------------------------------------------------------------- faces

  predicate FaceLineReadable(line: Line)
  {
    |line| >= 4
  }

  /** A face line: the leading vertex-count token is read and discarded,
      the next three tokens are the vertex indices in order; the face is
      otherwise a default face, so not front-facing. */
  function ParseFace(line: Line, atoi: string -> int): (f: Face)
    requires FaceLineReadable(line)
    ensures forall j :: 0 <= j < 3 ==> f.vertexList[j] == atoi(line[j + 1])
    ensures f.frontFace == 0 && f.faceNormal == NewFace().faceNormal
  {
    NewFace().(vertexList := [atoi(line[1]), atoi(line[2]), atoi(line[3])])
  }

  /** The count token has no effect, and neither do tokens after the third
      index (only triangles are read). */
  lemma ParseFaceIgnoresCountAndExtra(line: Line, count: Token, extra: Line, atoi: string -> int)
    requires FaceLineReadable(line)
    ensures FaceLineReadable([count] + line[1..] + extra)
    ensures ParseFace([count] + line[1..] + extra, atoi) == ParseFace(line, atoi)
  {
    var l' := [count] + line[1..] + extra;
    assert l'[1] == line[1] && l'[2] == line[2] && l'[3] == line[3];
  }

  /** The face loop: `count` faces, face i from line `start + i`. */
  function ParseFaces(lines: seq<Line>, start: int, count: nat, atoi: string -> int): (fs: seq<Face>)
    requires forall i :: 0 <= i < count ==> FaceLineReadable(BodyLine(lines, start, i))
    ensures |fs| == count
    ensures forall i :: 0 <= i < count ==> fs[i] == ParseFace(BodyLine(lines, start, i), atoi)
  {
    if count == 0 then []
    else ParseFaces(lines, start, count - 1, atoi) +
         [ParseFace(BodyLine(lines, start, count - 1), atoi)]
  }

  // ---------------------------------------------------------------- a file

  /** What the reader produces before the geometry passes run. */
  datatype Parsed = Parsed(header: Header, vertices: seq<Vertex>, faces: seq<Face>)

  /** First line of the vertex block. */
  function VertexStart(lines: seq<Line>): nat
    requires HeaderReadable(lines, 0)
  {
    HeaderLength(lines)
  }

  /** First line of the face block: right after the declared vertex lines. */
  function FaceStart(lines: seq<Line>, atoi: string -> int): int
    requires HeaderReadable(lines, 0)
  {
    HeaderLength(lines) + ParseHeader(lines, atoi).vertexCount
  }

  /** The whole input can be read without the tokenizer running dry, and
      every count the header sets is non-negative (a negative array size
      makes the allocation throw). */
  predicate Readable(lines: seq<Line>, atoi: string -> int)
  {
    HeaderReadable(lines, 0) &&
    HeaderCountsNonNegative(lines, atoi) &&
    var h := ParseHeader(lines, atoi);
    (forall i :: 0 <= i < h.vertexCount ==>
       VertexLineReadable(BodyLine(lines, VertexStart(lines), i), h.properties)) &&
    (forall i :: 0 <= i < h.faceCount ==>
       FaceLineReadable(BodyLine(lines, FaceStart(lines, atoi), i)))
  }

  /** `loadGeometry` up to the end of the face loop. */
  function Parse(lines: seq<Line>, atoi: string -> int): (p: Parsed)
    requires Readable(lines, atoi)
    ensures p.header == ParseHeader(lines, atoi)
    ensures |p.vertices| == p.header.vertexCount && |p.faces| == p.header.faceCount
    ensures forall i :: 0 <= i < |p.vertices| ==>
              p.vertices[i] == ParseVertex(BodyLine(lines, VertexStart(lines), i), p.header.properties)
    ensures forall i :: 0 <= i < |p.faces| ==>
              p.faces[i] == ParseFace(BodyLine(lines, FaceStart(lines, atoi), i), atoi)
    ensures forall i :: 0 <= i < |p.faces| ==> p.faces[i].frontFace == 0
  {
    var h := ParseHeader(lines, atoi);
    HeaderCountsFinal(lines, atoi);
    Parsed(h,
           ParseVertices(lines, VertexStart(lines), h.vertexCount, h.properties),
           ParseFaces(lines, FaceStart(lines, atoi), h.faceCount, atoi))
  }

  /** A negative count on an early `element vertex` line makes the input
      unreadable even though a later line sets a valid count. */
  lemma EarlierNegativeCountUnreadable(atoi: string -> int)
    requires atoi("-1") == -1
    ensures !Readable([["element", "vertex", "-1"], ["element", "vertex", "2"], ["end_header"], ["a"], ["b"]], atoi)
  {
  }
}
