/** Indexed triangle meshes as every builder of the system emits them: a vertex list
    whose positions are the vertex indices, and faces that are ordered index triples
    (the order is the winding, and the winding gives the outward normal). */
module Mesh {

  /** What a step yields when it may yield nothing (Python's `None`). */
  datatype Option<T> = None | Some(value: T)

  datatype Vertex = Vertex(x: real, y: real, z: real)

  datatype Face = Face(a: int, b: int, c: int)

  /** One STL facet: the three corner positions of a face. */
  datatype Triangle = Triangle(p: Vertex, q: Vertex, r: Vertex)

  /** A directed edge `from -> to` of a face, in the face's winding order. */
  datatype Edge = Edge(from: int, to: int)

  const Origin := Vertex(0.0, 0.0, 0.0)

  predicate InRange(f: Face, n: int)
  {
    0 <= f.a < n && 0 <= f.b < n && 0 <= f.c < n
  }

  /** All three corners lie in the index block `lo .. hi-1`. */
  predicate InBlock(f: Face, lo: int, hi: int)
  {
    lo <= f.a < hi && lo <= f.b < hi && lo <= f.c < hi
  }

  /** The three corners are pairwise distinct, so the face spans a real triangle. */
  predicate NonDegenerate(f: Face)
  {
    f.a != f.b && f.b != f.c && f.a != f.c
  }

  predicate AllInRange(faces: seq<Face>, n: int)
  {
    forall k :: 0 <= k < |faces| ==> InRange(faces[k], n)
  }

  predicate AllNonDegenerate(faces: seq<Face>)
  {
    forall k :: 0 <= k < |faces| ==> NonDegenerate(faces[k])
  }

  function Shift(f: Face, k: int): Face
  {
    Face(f.a + k, f.b + k, f.c + k)
  }

  function Edges(f: Face): set<Edge>
  {
    {Edge(f.a, f.b), Edge(f.b, f.c), Edge(f.c, f.a)}
  }

  /** No two faces of the list traverse the same directed edge: wherever two faces
      meet along an edge, they run along it in opposite directions. */
  predicate WindingConsistent(faces: seq<Face>)
  {
    forall i, j :: 0 <= i < j < |faces| ==> Edges(faces[i]) !! Edges(faces[j])
  }

  /** Some face of the list runs along the directed edge `e`. */
  predicate EdgeUsed(faces: seq<Face>, e: Edge)
  {
    exists k :: 0 <= k < |faces| && e in Edges(faces[k])
  }

  /** Every face of `xs` is edge-disjoint from every face of `ys`. */
  predicate EdgeDisjoint(xs: seq<Face>, ys: seq<Face>)
  {
    forall i, j :: 0 <= i < |xs| && 0 <= j < |ys| ==> Edges(xs[i]) !! Edges(ys[j])
  }

  lemma ConsistentConcat(xs: seq<Face>, ys: seq<Face>)
    requires WindingConsistent(xs) && WindingConsistent(ys) && EdgeDisjoint(xs, ys)
    ensures WindingConsistent(xs + ys)
  {
    var zs := xs + ys;
    forall i, j | 0 <= i < j < |zs|
      ensures Edges(zs[i]) !! Edges(zs[j])
    {
      if j < |xs| {
        assert zs[i] == xs[i] && zs[j] == xs[j];
      } else if i < |xs| {
        assert zs[i] == xs[i] && zs[j] == ys[j - |xs|];
      } else {
        assert zs[i] == ys[i - |xs|] && zs[j] == ys[j - |xs|];
      }
    }
  }

  /** A vertex list and a face list over it. */
  datatype MeshData = MeshData(vertices: seq<Vertex>, faces: seq<Face>)

  /** Every face refers to vertices of the list. */
  predicate WellFormed(md: MeshData)
  {
    AllInRange(md.faces, |md.vertices|)
  }

  /** Edge `e` belongs to face `k` of the list. */
  predicate FaceEdge(faces: seq<Face>, k: int, e: Edge)
  {
    0 <= k < |faces| && e in Edges(faces[k])
  }

  /** The faces close up: every directed edge of a face is run along in the opposite
      direction by some face of the list. */
  ghost predicate Closed(faces: seq<Face>)
  {
    forall k, e :: FaceEdge(faces, k, e) ==> EdgeUsed(faces, Edge(e.to, e.from))
  }

  lemma ClosedConcat(xs: seq<Face>, ys: seq<Face>)
    requires Closed(xs) && Closed(ys)
    ensures Closed(xs + ys)
  {
    var zs := xs + ys;
    forall k, e | FaceEdge(zs, k, e)
      ensures EdgeUsed(zs, Edge(e.to, e.from))
    {
      var r := Edge(e.to, e.from);
      if k < |xs| {
        assert zs[k] == xs[k];
        assert FaceEdge(xs, k, e);
        var j :| 0 <= j < |xs| && r in Edges(xs[j]);
        assert zs[j] == xs[j];
      } else {
        assert zs[k] == ys[k - |xs|];
        assert FaceEdge(ys, k - |xs|, e);
        var j :| 0 <= j < |ys| && r in Edges(ys[j]);
        assert zs[|xs| + j] == ys[j];
      }
    }
  }

  function Corners(vertices: seq<Vertex>, f: Face): Triangle
    requires InRange(f, |vertices|)
  {
    Triangle(vertices[f.a], vertices[f.b], vertices[f.c])
  }

  /** The STL export loop shared by every builder: a zero-filled facet buffer with one
      slot per face, whose slot `i` receives the corners `vertices[faces[i][j]]`. */
  method FillVectors(vertices: seq<Vertex>, faces: seq<Face>) returns (vectors: array<Triangle>)
    requires AllInRange(faces, |vertices|)
    ensures fresh(vectors) && vectors.Length == |faces|
    ensures forall i :: 0 <= i < |faces| ==> vectors[i] == Corners(vertices, faces[i])
  {
    vectors := new Triangle[|faces|](_ => Triangle(Origin, Origin, Origin));
    var i := 0;
    while i < |faces|
      invariant 0 <= i <= |faces|
      invariant forall k :: 0 <= k < i ==> vectors[k] == Corners(vertices, faces[k])
    {
      var f := faces[i];
      vectors[i] := Triangle(vertices[f.a], vertices[f.b], vertices[f.c]);
      i := i + 1;
    }
  }

  // ----- the optional quarter turns applied to the finished vertex list -----

  function RotateX(v: Vertex): Vertex { Vertex(v.x, v.z, -v.y) }

  function RotateY(v: Vertex): Vertex { Vertex(v.z, v.y, -v.x) }

  function RotateZ(v: Vertex): Vertex { Vertex(v.y, -v.x, v.z) }

  /** The selected turns, applied in the order X, then Y, then Z. */
  function Rotate(v: Vertex, rx: bool, ry: bool, rz: bool): Vertex
  {
    var v1 := if rx then RotateX(v) else v;
    var v2 := if ry then RotateY(v1) else v1;
    if rz then RotateZ(v2) else v2
  }

  /** Rewrites the coordinate columns in place; the face list is not touched. */
  method ApplyRotations(vertices: array<Vertex>, rx: bool, ry: bool, rz: bool)
    modifies vertices
    ensures forall k :: 0 <= k < vertices.Length ==> vertices[k] == Rotate(old(vertices[k]), rx, ry, rz)
  {
    if rx {
      forall k | 0 <= k < vertices.Length {
        vertices[k] := RotateX(vertices[k]);
      }
    }
    if ry {
      forall k | 0 <= k < vertices.Length {
        vertices[k] := RotateY(vertices[k]);
      }
    }
    if rz {
      forall k | 0 <= k < vertices.Length {
        vertices[k] := RotateZ(vertices[k]);
      }
    }
  }

  function Sub(u: Vertex, v: Vertex): Vertex { Vertex(u.x - v.x, u.y - v.y, u.z - v.z) }

  function Dot(u: Vertex, v: Vertex): real { u.x * v.x + u.y * v.y + u.z * v.z }

  function Cross(u: Vertex, v: Vertex): Vertex
  {
    Vertex(u.y * v.z - u.z * v.y, u.z * v.x - u.x * v.z, u.x * v.y - u.y * v.x)
  }

  /** The (unnormalised) normal the right-hand rule gives a facet. */
  function Normal(t: Triangle): Vertex
  {
    Cross(Sub(t.q, t.p), Sub(t.r, t.p))
  }

  function RotateTriangle(t: Triangle, rx: bool, ry: bool, rz: bool): Triangle
  {
    Triangle(Rotate(t.p, rx, ry, rz), Rotate(t.q, rx, ry, rz), Rotate(t.r, rx, ry, rz))
  }

  /** A quarter turn about one axis keeps dot products, and the normal of a turned
      facet is the turned normal. */
  lemma TurnIsRigid(turn: Vertex -> Vertex, u: Vertex, v: Vertex, t: Triangle)
    requires turn == RotateX || turn == RotateY || turn == RotateZ
    ensures Dot(turn(u), turn(v)) == Dot(u, v)
    ensures Normal(Triangle(turn(t.p), turn(t.q), turn(t.r))) == turn(Normal(t))
  {
    var d1, d2 := Sub(t.q, t.p), Sub(t.r, t.p);
    TurnProducts(turn, u, v);
    TurnProducts(turn, d1, d2);
    assert Sub(turn(t.q), turn(t.p)) == turn(d1);
    assert Sub(turn(t.r), turn(t.p)) == turn(d2);
  }

  /** A quarter turn commutes with the dot and the cross product. */
  lemma TurnProducts(turn: Vertex -> Vertex, a: Vertex, b: Vertex)
    requires turn == RotateX || turn == RotateY || turn == RotateZ
    ensures Dot(turn(a), turn(b)) == Dot(a, b)
    ensures Cross(turn(a), turn(b)) == turn(Cross(a, b))
  {
    if turn == RotateX {
      assert turn(a) == RotateX(a) && turn(b) == RotateX(b);
    } else if turn == RotateY {
      assert turn(a) == RotateY(a) && turn(b) == RotateY(b);
    } else {
      assert turn(a) == RotateZ(a) && turn(b) == RotateZ(b);
    }
  }

  /** Each selected turn is a proper rotation: it keeps lengths and angles, and a
      facet's normal turns with the facet, so the unchanged face indices keep every
      facet facing the same way relative to the solid. */
  lemma {:induction false} RotationIsRigid(u: Vertex, v: Vertex, t: Triangle, rx: bool, ry: bool, rz: bool)
    ensures Dot(Rotate(u, rx, ry, rz), Rotate(v, rx, ry, rz)) == Dot(u, v)
    ensures Normal(RotateTriangle(t, rx, ry, rz)) == Rotate(Normal(t), rx, ry, rz)
  {
    var u1, v1, t1 := u, v, t;
    if rx {
      TurnIsRigid(RotateX, u1, v1, t1);
      u1, v1, t1 := RotateX(u1), RotateX(v1), Triangle(RotateX(t1.p), RotateX(t1.q), RotateX(t1.r));
    }
    if ry {
      TurnIsRigid(RotateY, u1, v1, t1);
      u1, v1, t1 := RotateY(u1), RotateY(v1), Triangle(RotateY(t1.p), RotateY(t1.q), RotateY(t1.r));
    }
    if rz {
      TurnIsRigid(RotateZ, u1, v1, t1);
      u1, v1, t1 := RotateZ(u1), RotateZ(v1), Triangle(RotateZ(t1.p), RotateZ(t1.q), RotateZ(t1.r));
    }
    assert t1 == RotateTriangle(t, rx, ry, rz);
  }
}
