/** LoadMeshFromPlyFile: reads a PLY mesh through rply's callbacks. The face callback
    accumulates each face's vertex indices and files the face under triangles or quads;
    afterwards every quad (a, b, c, d) is split into the triangles (a, b, c) and (a, c, d)
    and appended after the triangles.

    rply itself (opening, parsing, the header walk and the read) is not part of this
    model: the header's elements and the parsed faces and vertices are parameters, and
    DeliverFace / DeliverFaces / DeliverVertices call the callbacks in the order rply's
    ply_read does: for each face the list length (value index -1), then each index; for
    each vertex its x, y and z. */
module PlyMesh {
  import opened SizeT

  /** A vertex coordinate: the bits of the float the vertex callback stores. Floating-point
      values are opaque here. */
  type Float = bv32

  /** One PLY header element: its name and instance count, as ply_get_element_info reports
      them, and the names of its properties. */
  datatype Element = Element(name: string, numInstances: int, properties: seq<string>)

  /** The mesh LoadMeshFromPlyFile fills: Positions as x, y, z floats per vertex, and the
      triangle list Indices. */
  datatype Mesh = Mesh(positions: seq<Float>, indices: seq<u32>)

  // ----- Header -----

  /** The instance count of the last header element called `name` (long stored into
      size_t), 0 if there is none. */
  function LastCount(elements: seq<Element>, name: string): u64
  {
    if |elements| == 0 then 0
    else
      var last := elements[|elements| - 1];
      if last.name == name then Wrap64(last.numInstances)
      else LastCount(elements[..|elements| - 1], name)
  }

  /** LastCount is 0 when no element has the name, and otherwise the count of the one
      element with that name that no later element shares. */
  lemma {:induction false} LastCountIsLastMatch(elements: seq<Element>, name: string)
    ensures (forall k :: 0 <= k < |elements| ==> elements[k].name != name) ==>
              LastCount(elements, name) == 0
    ensures (exists k :: 0 <= k < |elements| && elements[k].name == name) ==>
              exists k :: 0 <= k < |elements| && elements[k].name == name &&
                LastCount(elements, name) == Wrap64(elements[k].numInstances) &&
                forall j :: k < j < |elements| ==> elements[j].name != name
  {
    if |elements| > 0 {
      var n := |elements| - 1;
      var earlier := elements[..n];
      LastCountIsLastMatch(earlier, name);
      assert forall k :: 0 <= k < n ==> earlier[k] == elements[k];
      if elements[n].name != name {
        assert LastCount(elements, name) == LastCount(earlier, name);
        if exists k :: 0 <= k < |elements| && elements[k].name == name {
          var k :| 0 <= k < |elements| && elements[k].name == name;
          assert earlier[k].name == name;
          var m :| 0 <= m < n && earlier[m].name == name &&
                   LastCount(earlier, name) == Wrap64(earlier[m].numInstances) &&
                   forall j :: m < j < n ==> earlier[j].name != name;
          assert forall j :: m < j < |elements| ==> elements[j].name != name;
        }
      }
    }
  }

  /** The header loop: walks every element and keeps the instance count of the last
      "vertex" and the last "face" element. */
  method CountElements(elements: seq<Element>) returns (vertexCount: u64, faceCount: u64)
    ensures vertexCount == LastCount(elements, "vertex")
    ensures faceCount == LastCount(elements, "face")
  {
    vertexCount, faceCount := 0, 0;
    for i := 0 to |elements|
      invariant vertexCount == LastCount(elements[..i], "vertex")
      invariant faceCount == LastCount(elements[..i], "face")
    {
      assert elements[..i + 1][..i] == elements[..i];
      var element := elements[i];
      if element.name == "vertex" {
        vertexCount := Wrap64(element.numInstances);
      } else if element.name == "face" {
        faceCount := Wrap64(element.numInstances);
      }
    }
    assert elements[..|elements|] == elements;
  }

  /** ply_set_read_cb(ply, elementName, propertyName, ...): rply looks up the first header
      element with that name and, in it, the property; the call returns that element's
      instance count, or 0 when the element or the property is missing. */
  function SetReadCallback(elements: seq<Element>, elementName: string, propertyName: string)
    : int
  {
    if |elements| == 0 then 0
    else if elements[0].name == elementName then
      (if propertyName in elements[0].properties then elements[0].numInstances else 0)
    else SetReadCallback(elements[1..], elementName, propertyName)
  }

  /** SetReadCallback answers for the first element with the name: 0 when there is none,
      and otherwise that element's count if it has the property and 0 if it does not. */
  lemma {:induction false} SetReadCallbackFindsFirst(elements: seq<Element>, elementName: string,
                                                      propertyName: string)
    ensures (forall k :: 0 <= k < |elements| ==> elements[k].name != elementName) ==>
              SetReadCallback(elements, elementName, propertyName) == 0
    ensures forall k :: 0 <= k < |elements| && elements[k].name == elementName &&
                        (forall j :: 0 <= j < k ==> elements[j].name != elementName) ==>
              SetReadCallback(elements, elementName, propertyName)
                == if propertyName in elements[k].properties then elements[k].numInstances else 0
  {
    if |elements| > 0 {
      var rest := elements[1..];
      SetReadCallbackFindsFirst(rest, elementName, propertyName);
      forall k | 0 < k < |elements|
        ensures elements[k] == rest[k - 1]
      {
      }
    }
  }

  /** The header names a vertex and a face element with non-zero counts. */
  predicate HasVertexAndFace(elements: seq<Element>)
  {
    LastCount(elements, "vertex") != 0 && LastCount(elements, "face") != 0
  }

  /** The vertex callbacks can be set for x, y and z. */
  predicate VertexDataFound(elements: seq<Element>)
  {
    SetReadCallback(elements, "vertex", "x") != 0 &&
    SetReadCallback(elements, "vertex", "y") != 0 &&
    SetReadCallback(elements, "vertex", "z") != 0
  }

  /** The face callback can be set for the "vertex_indices" list. */
  predicate VertexIndicesFound(elements: seq<Element>)
  {
    SetReadCallback(elements, "face", "vertex_indices") != 0
  }

  /** A "face_indices" list, which the loader refuses, can be read. */
  predicate FaceIndicesFound(elements: seq<Element>)
  {
    SetReadCallback(elements, "face", "face_indices") != 0
  }

  /** Every header check of LoadMeshFromPlyFile passes. */
  predicate HeaderAccepted(elements: seq<Element>)
  {
    HasVertexAndFace(elements) && VertexDataFound(elements) &&
    VertexIndicesFound(elements) && !FaceIndicesFound(elements)
  }

  // ----- Vertices -----

  /** Slot of coordinate `offset` of vertex `index` in Positions seen as floats. */
  function Slot(index: nat, offset: nat): nat
  {
    index * 3 + offset
  }

  /** Distinct (vertex, coordinate) pairs land in distinct slots, all inside a buffer of
      3 * vertexCount floats: Point3's x, y, z of vertex i are floats 3i, 3i+1, 3i+2. */
  lemma {:induction false} SlotsDistinct(vertexCount: nat, i: nat, o: nat, j: nat, p: nat)
    requires i < vertexCount && j < vertexCount && o < 3 && p < 3
    ensures Slot(i, o) < 3 * vertexCount
    ensures Slot(i, o) == Slot(j, p) <==> i == j && o == p
  {
    if i < j {
      assert Slot(i, o) < Slot(j, p) by { MulSucc(i, 3); MulMonotone(i + 1, j, 3); }
    } else if j < i {
      assert Slot(j, p) < Slot(i, o) by { MulSucc(j, 3); MulMonotone(j + 1, i, 3); }
    }
    MulSucc(i, 3);
    MulMonotone(i + 1, vertexCount, 3);
  }

  /** PlyVertexCallback: buffer[index * 3 + offset] = value, nothing else. */
  method VertexCallback(buffer: array<Float>, index: nat, offset: nat, value: Float)
    requires Slot(index, offset) < buffer.Length
    modifies buffer
    ensures buffer[..] == old(buffer[..])[Slot(index, offset) := value]
  {
    buffer[index * 3 + offset] := value;
  }

  /** The floats x, y, z of each vertex in turn. */
  function Flatten(vertices: seq<(Float, Float, Float)>): (floats: seq<Float>)
    ensures |floats| == 3 * |vertices|
  {
    if |vertices| == 0 then []
    else
      var v := vertices[|vertices| - 1];
      Flatten(vertices[..|vertices| - 1]) + [v.0, v.1, v.2]
  }

  /** rply's vertex reads: x, y and z of vertex 0, then of vertex 1, and so on. */
  method DeliverVertices(buffer: array<Float>, vertices: seq<(Float, Float, Float)>)
    requires buffer.Length == 3 * |vertices|
    modifies buffer
    ensures buffer[..] == Flatten(vertices)
  {
    for i := 0 to |vertices|
      invariant buffer[..3 * i] == Flatten(vertices[..i])
    {
      assert vertices[..i + 1][..i] == vertices[..i];
      ghost var done := buffer[..3 * i];
      MulSucc(i, 3);
      MulMonotone(i + 1, |vertices|, 3);
      VertexCallback(buffer, i, 0, vertices[i].0);
      VertexCallback(buffer, i, 1, vertices[i].1);
      VertexCallback(buffer, i, 2, vertices[i].2);
      assert buffer[..3 * (i + 1)] == done + [vertices[i].0, vertices[i].1, vertices[i].2];
    }
    assert vertices[..|vertices|] == vertices;
    assert buffer[..] == buffer[..3 * |vertices|];
  }

  // ----- Faces -----

  /** The indices of the triangle faces, in file order. */
  function TriangleIndices(faces: seq<seq<u32>>): seq<u32>
  {
    if |faces| == 0 then []
    else
      var f := faces[|faces| - 1];
      TriangleIndices(faces[..|faces| - 1]) + (if |f| == 3 then f else [])
  }

  /** The indices of the quad faces, in file order. */
  function QuadIndices(faces: seq<seq<u32>>): seq<u32>
  {
    if |faces| == 0 then []
    else
      var f := faces[|faces| - 1];
      QuadIndices(faces[..|faces| - 1]) + (if |f| == 4 then f else [])
  }

  /** Every face is a triangle or a quad. */
  predicate TrianglesAndQuads(faces: seq<seq<u32>>)
  {
    forall k :: 0 <= k < |faces| ==> |faces[k]| == 3 || |faces[k]| == 4
  }

  /** The two lists hold whole faces: their lengths are multiples of 3 and of 4. */
  lemma {:induction false} WholeFaces(faces: seq<seq<u32>>)
    ensures |TriangleIndices(faces)| % 3 == 0
    ensures |QuadIndices(faces)| % 4 == 0
  {
    if |faces| > 0 {
      WholeFaces(faces[..|faces| - 1]);
    }
  }

  /** Every filed index is an index of some face. */
  lemma {:induction false} FiledIndicesComeFromFaces(faces: seq<seq<u32>>, x: u32)
    requires x in TriangleIndices(faces) || x in QuadIndices(faces)
    ensures exists k :: 0 <= k < |faces| && x in faces[k]
  {
    var n := |faces| - 1;
    var f := faces[n];
    if x in f && (|f| == 3 || |f| == 4) {
      assert x in faces[n];
    } else {
      FiledIndicesComeFromFaces(faces[..n], x);
      var k :| 0 <= k < n && x in faces[..n][k];
      assert x in faces[k];
    }
  }

  /** FaceCallbackContext: the face being read and the triangle and quad lists. */
  class FaceCallbackContext {
    /** Face[4]. */
    const face: array<u32>
    /** TriIndices. */
    var triIndices: seq<u32>
    /** QuadIndices. */
    var quadIndices: seq<u32>

    /** Face holds four slots, and both lists hold whole faces. */
    ghost predicate Valid()
      reads this
    {
      face.Length == 4 && |triIndices| % 3 == 0 && |quadIndices| % 4 == 0
    }

    /** FaceCallbackContext context{}: zeroed face, empty lists. */
    constructor ()
      ensures Valid() && fresh(face)
      ensures face[..] == [0, 0, 0, 0] && triIndices == [] && quadIndices == []
    {
      face := new u32[4](_ => 0);
      triIndices := [];
      quadIndices := [];
    }

    /** PlyFaceCallback for value `index` of a face list of `length` values (index -1 is
        the length itself). A length other than 3 or 4 is rejected before anything else;
        the length callback stores nothing; an index is stored in Face[index]; the last
        index files the face's indices, in received order, under triangles or quads. */
    method FaceCallback(length: int, index: int, value: u32) returns (r: Result<()>)
      requires Valid()
      requires -1 <= index < length
      modifies this, face
      ensures Valid()
      ensures length != 3 && length != 4 ==>
                r == Failure("Only triangles and quads supported.") &&
                face[..] == old(face[..]) &&
                triIndices == old(triIndices) && quadIndices == old(quadIndices)
      ensures (length == 3 || length == 4) && index < 0 ==>
                r == Success(()) && face[..] == old(face[..]) &&
                triIndices == old(triIndices) && quadIndices == old(quadIndices)
      ensures (length == 3 || length == 4) && 0 <= index ==>
                r == Success(()) && face[..] == old(face[..])[index := value] &&
                triIndices == (if length == 3 && index == 2 then old(triIndices) + face[..3]
                               else old(triIndices)) &&
                quadIndices == (if length == 4 && index == 3 then old(quadIndices) + face[..4]
                                else old(quadIndices))
    {
      if length != 3 && length != 4 {
        return Failure("Only triangles and quads supported.");
      }

      if index < 0 {
        return Success(());
      }

      face[index] := value;

      if index == length - 1 {
        if length == 3 {
          triIndices := triIndices + [face[0], face[1], face[2]];
        } else if length == 4 {
          quadIndices := quadIndices + [face[0], face[1], face[2], face[3]];
        } else {
          assert false;
        }
      }

      return Success(());
    }
  }

  /** rply's calls for one face: the list length (value index -1), then each index in
      order. A triangle or quad is filed whole; any other face is rejected at once. */
  method DeliverFace(context: FaceCallbackContext, list: seq<u32>) returns (r: Result<()>)
    requires context.Valid()
    modifies context, context.face
    ensures context.Valid()
    ensures r.Success? <==> |list| == 3 || |list| == 4
    ensures r.Failure? ==>
              r == Failure("Only triangles and quads supported.") &&
              context.triIndices == old(context.triIndices) &&
              context.quadIndices == old(context.quadIndices)
    ensures r.Success? ==>
              context.triIndices == old(context.triIndices) + (if |list| == 3 then list else []) &&
              context.quadIndices == old(context.quadIndices) + (if |list| == 4 then list else [])
  {
    r := context.FaceCallback(|list|, -1, (|list| % 0x1_0000_0000) as u32);
    if r.Failure? {
      return;
    }
    for j := 0 to |list|
      invariant context.Valid() && r == Success(())
      invariant context.face[..j] == list[..j]
      invariant j < |list| ==> context.triIndices == old(context.triIndices) &&
                               context.quadIndices == old(context.quadIndices)
      invariant j == |list| ==>
                  context.triIndices == old(context.triIndices) + (if |list| == 3 then list else []) &&
                  context.quadIndices == old(context.quadIndices) + (if |list| == 4 then list else [])
    {
      r := context.FaceCallback(|list|, j, list[j]);
      assert context.face[..j + 1] == list[..j + 1];
      if j + 1 == |list| {
        assert list[..j + 1] == list;
      }
    }
  }

  /** One more face: it is filed after the earlier faces' indices, under triangles or
      quads by its length, and the prefix is all triangles and quads exactly when the
      earlier faces are and it is one too. */
  lemma FacesPrefixStep(faces: seq<seq<u32>>, i: nat)
    requires i < |faces|
    ensures TriangleIndices(faces[..i + 1])
            == TriangleIndices(faces[..i]) + (if |faces[i]| == 3 then faces[i] else [])
    ensures QuadIndices(faces[..i + 1])
            == QuadIndices(faces[..i]) + (if |faces[i]| == 4 then faces[i] else [])
    ensures TrianglesAndQuads(faces[..i + 1])
            <==> TrianglesAndQuads(faces[..i]) && (|faces[i]| == 3 || |faces[i]| == 4)
  {
    assert faces[..i + 1][..i] == faces[..i];
  }

  /** rply's calls for every face in file order, stopping at the first rejected face. */
  method DeliverFaces(context: FaceCallbackContext, faces: seq<seq<u32>>)
    returns (r: Result<()>)
    requires context.Valid()
    modifies context, context.face
    ensures context.Valid()
    ensures r.Success? <==> TrianglesAndQuads(faces)
    ensures r.Failure? ==> r == Failure("Only triangles and quads supported.")
    ensures r.Success? ==>
              context.triIndices == old(context.triIndices) + TriangleIndices(faces) &&
              context.quadIndices == old(context.quadIndices) + QuadIndices(faces)
  {
    for i := 0 to |faces|
      invariant context.Valid()
      invariant TrianglesAndQuads(faces[..i])
      invariant context.triIndices == old(context.triIndices) + TriangleIndices(faces[..i])
      invariant context.quadIndices == old(context.quadIndices) + QuadIndices(faces[..i])
    {
      FacesPrefixStep(faces, i);
      r := DeliverFace(context, faces[i]);
      if r.Failure? {
        assert !TrianglesAndQuads(faces) by {
          assert !(|faces[i]| == 3 || |faces[i]| == 4);
        }
        return;
      }
    }
    assert faces[..|faces|] == faces;
    return Success(());
  }

  // ----- Quad split -----

  /** Each quad (a, b, c, d) as the triangles (a, b, c) and (a, c, d). */
  function SplitQuads(quads: seq<u32>): (triangles: seq<u32>)
    requires |quads| % 4 == 0
  {
    if |quads| == 0 then []
    else
      var n := |quads| - 4;
      var a, b, c, d := quads[n], quads[n + 1], quads[n + 2], quads[n + 3];
      SplitQuads(quads[..n]) + [a, b, c, a, c, d]
  }

  /** Six indices per quad: two triangles. */
  lemma {:induction false} SplitQuadsLength(quads: seq<u32>)
    requires |quads| % 4 == 0
    ensures |SplitQuads(quads)| == 6 * (|quads| / 4)
  {
    if |quads| > 0 {
      SplitQuadsLength(quads[..|quads| - 4]);
    }
  }

  /** Quad k becomes output triangles 2k and 2k + 1: (a, b, c) then (a, c, d). */
  lemma {:induction false} SplitQuadsAt(quads: seq<u32>, k: nat)
    requires |quads| % 4 == 0 && k < |quads| / 4
    ensures 6 * k + 6 <= |SplitQuads(quads)|
    ensures SplitQuads(quads)[6 * k..6 * k + 6]
            == [quads[4 * k], quads[4 * k + 1], quads[4 * k + 2],
                quads[4 * k], quads[4 * k + 2], quads[4 * k + 3]]
  {
    var n := |quads| - 4;
    SplitQuadsLength(quads);
    SplitQuadsLength(quads[..n]);
    if k < n / 4 {
      SplitQuadsAt(quads[..n], k);
    }
  }

  /** The split introduces no index that is not one of the quads' indices. */
  lemma {:induction false} SplitQuadsUsesQuadIndices(quads: seq<u32>, x: u32)
    requires |quads| % 4 == 0
    requires x in SplitQuads(quads)
    ensures x in quads
  {
    var n := |quads| - 4;
    if x !in SplitQuads(quads[..n]) {
      assert x in quads[n..];
    } else {
      SplitQuadsUsesQuadIndices(quads[..n], x);
      assert x in quads[..n];
    }
  }

  /** The loop that appends the split quads after the triangle indices, four quad
      indices at a time. */
  method AppendSplitQuads(triIndices: seq<u32>, quadIndices: seq<u32>) returns (indices: seq<u32>)
    requires |quadIndices| % 4 == 0
    ensures indices == triIndices + SplitQuads(quadIndices)
  {
    indices := triIndices;
    if |quadIndices| != 0 {
      var i := 0;
      while i < |quadIndices|
        invariant i <= |quadIndices| && i % 4 == 0
        invariant indices == triIndices + SplitQuads(quadIndices[..i])
      {
        assert quadIndices[..i + 4][..i] == quadIndices[..i];
        indices := indices + [quadIndices[i], quadIndices[i + 1], quadIndices[i + 2]];
        indices := indices + [quadIndices[i], quadIndices[i + 2], quadIndices[i + 3]];
        i := i + 4;
      }
      assert quadIndices[..i] == quadIndices;
    }
  }

  /** The final triangle list holds |tri| + 6 * (|quads| / 4) indices, a whole number of
      triangles, and uses only indices the faces gave: whatever bound the faces' indices
      keep (such as the vertex count, which nothing checks) the list keeps too. */
  lemma IndicesFromFaces(faces: seq<seq<u32>>, bound: nat)
    requires forall k, x :: 0 <= k < |faces| && x in faces[k] ==> x < bound
    ensures |QuadIndices(faces)| % 4 == 0
    ensures |TriangleIndices(faces) + SplitQuads(QuadIndices(faces))|
            == |TriangleIndices(faces)| + 6 * (|QuadIndices(faces)| / 4)
    ensures |TriangleIndices(faces) + SplitQuads(QuadIndices(faces))| % 3 == 0
    ensures forall x :: x in TriangleIndices(faces) + SplitQuads(QuadIndices(faces)) ==> x < bound
  {
    WholeFaces(faces);
    var tri := TriangleIndices(faces);
    var quads := QuadIndices(faces);
    var split := SplitQuads(quads);
    SplitQuadsLength(quads);
    forall x | x in tri + split
      ensures x < bound
    {
      assert x in tri || x in split;
      if x in split {
        SplitQuadsUsesQuadIndices(quads, x);
      }
      FiledIndicesComeFromFaces(faces, x);
      var k :| 0 <= k < |faces| && x in faces[k];
    }
  }

  // ----- The whole load -----

  /** LoadMeshFromPlyFile for a file rply opens and parses. The checks run in source
      order: the header must name a vertex and a face element with a non-zero count; the
      x, y and z vertex callbacks must be set; the "vertex_indices" face callback must be
      set; a "face_indices" list is refused. Then ply_read delivers the vertices and the
      faces (a face that is neither a triangle nor a quad throws out of the read), and
      `readSucceeds` is what ply_read reports once it has delivered them. Positions gets
      3 floats per vertex; Indices is the triangle indices followed by the split quads. */
  method LoadMeshFromPlyFile(elements: seq<Element>, vertices: seq<(Float, Float, Float)>,
                             faces: seq<seq<u32>>, readSucceeds: bool)
    returns (r: Result<Mesh>)
    requires |vertices| == LastCount(elements, "vertex")
    ensures !HasVertexAndFace(elements) ==>
              r == Failure("No face or vertex elements found.")
    ensures HasVertexAndFace(elements) && !VertexDataFound(elements) ==>
              r == Failure("Could not find vertex data.")
    ensures HasVertexAndFace(elements) && VertexDataFound(elements) &&
            !VertexIndicesFound(elements) ==>
              r == Failure("Could not find vertex indices.")
    ensures HasVertexAndFace(elements) && VertexDataFound(elements) &&
            VertexIndicesFound(elements) && FaceIndicesFound(elements) ==>
              r == Failure("Face indices not supported.")
    ensures HeaderAccepted(elements) && !TrianglesAndQuads(faces) ==>
              r == Failure("Only triangles and quads supported.")
    ensures HeaderAccepted(elements) && TrianglesAndQuads(faces) && !readSucceeds ==>
              r == Failure("Could not read ply file.")
    ensures r.Success? <==> HeaderAccepted(elements) && TrianglesAndQuads(faces) && readSucceeds
    ensures r.Success? ==>
              |QuadIndices(faces)| % 4 == 0 &&
              r.value == Mesh(Flatten(vertices),
                              TriangleIndices(faces) + SplitQuads(QuadIndices(faces)))
  {
    var vertexCount, faceCount := CountElements(elements);

    if vertexCount == 0 || faceCount == 0 {
      return Failure("No face or vertex elements found.");
    }

    var positions := new Float[3 * vertexCount](_ => 0);

    if SetReadCallback(elements, "vertex", "x") == 0 ||
       SetReadCallback(elements, "vertex", "y") == 0 ||
       SetReadCallback(elements, "vertex", "z") == 0 {
      return Failure("Could not find vertex data.");
    }

    var context := new FaceCallbackContext();

    if SetReadCallback(elements, "face", "vertex_indices") == 0 {
      return Failure("Could not find vertex indices.");
    }

    if SetReadCallback(elements, "face", "face_indices") != 0 {
      return Failure("Face indices not supported.");
    }

    DeliverVertices(positions, vertices);
    var read := DeliverFaces(context, faces);
    if read.Failure? {
      return Failure("Only triangles and quads supported.");
    }
    if !readSucceeds {
      return Failure("Could not read ply file.");
    }

    assert context.triIndices == TriangleIndices(faces);
    assert context.quadIndices == QuadIndices(faces);
    WholeFaces(faces);
    var indices := AppendSplitQuads(context.triIndices, context.quadIndices);
    var points := positions[..];
    assert points == Flatten(vertices);
    return Success(Mesh(points, indices));
  }
}
