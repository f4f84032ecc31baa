/** The winding of the closed solid. A mesh is consistently wound when no two faces
    run along the same directed edge; for a closed solid this means every face is
    oriented the same way, all outward or all inward.

    The solid as the converters write it is not: `AsWrittenInconsistent` shows a top
    triangle and a front-wall triangle running along the same edge. The corrected
    solid, with both surfaces reversed, is consistently wound (`SolidConsistent`).

    The proof gives every directed edge between two grid points an `Owner`, the one
    face of the corrected solid that can run along it, and checks that each face is
    the owner of its three edges. Two faces sharing a directed edge then have the
    same owner, so they are the same face. */
module SolidWinding {
  import opened Mesh
  import opened Tiling
  import opened ClosedSolid

  // ----- the owner of a directed edge -----

  /** Edges from a top point to a top point: along the top surface's outline or
      across one of its squares. */
  function TopOwner(r: int, c: int, y1: int, x1: int, y2: int, x2: int): FaceId
  {
    if y2 == y1 + 1 && x2 == x1 then
      (if x1 < c - 1 then FaceId(TopCap, y1, x1, 0) else FaceId(RightWall, 0, y1, 0))
    else if y2 == y1 - 1 && x2 == x1 then
      (if x1 > 0 then FaceId(TopCap, y2, x1 - 1, 1) else FaceId(LeftWall, 0, y2, 0))
    else if y2 == y1 && x2 == x1 + 1 then
      (if y1 > 0 then FaceId(TopCap, y1 - 1, x1, 1) else FaceId(FrontWall, 0, x1, 0))
    else if y2 == y1 && x2 == x1 - 1 then
      (if y1 < r - 1 then FaceId(TopCap, y1, x2, 0) else FaceId(BackWall, 0, x2, 0))
    else if y2 == y1 - 1 && x2 == x1 + 1 then FaceId(TopCap, y2, x1, 0)
    else FaceId(TopCap, y1, x2, 1)
  }

  /** Edges from a bottom point to a bottom point. */
  function BottomOwner(r: int, c: int, y1: int, x1: int, y2: int, x2: int): FaceId
  {
    if y2 == y1 && x2 == x1 + 1 then
      (if y1 < r - 1 then FaceId(BottomCap, y1, x1, 0) else FaceId(BackWall, 0, x1, 1))
    else if y2 == y1 && x2 == x1 - 1 then
      (if y1 > 0 then FaceId(BottomCap, y1 - 1, x2, 1) else FaceId(FrontWall, 0, x2, 1))
    else if y2 == y1 + 1 && x2 == x1 then
      (if x1 > 0 then FaceId(BottomCap, y1, x1 - 1, 1) else FaceId(LeftWall, 0, y1, 1))
    else if y2 == y1 - 1 && x2 == x1 then
      (if x1 < c - 1 then FaceId(BottomCap, y2, x1, 0) else FaceId(RightWall, 0, y2, 1))
    else if y2 == y1 + 1 && x2 == x1 - 1 then FaceId(BottomCap, y1, x2, 0)
    else FaceId(BottomCap, y2, x1, 1)
  }

  /** Edges going down a wall, from a top point to a bottom point. */
  function DownOwner(r: int, c: int, y1: int, x1: int, y2: int, x2: int): FaceId
  {
    if y1 == y2 && x1 == x2 then
      if y1 == 0 && x1 > 0 then FaceId(FrontWall, 0, x1 - 1, 1)
      else if x1 == c - 1 then FaceId(RightWall, 0, y1 - 1, 1)
      else if y1 == r - 1 then FaceId(BackWall, 0, x1, 0)
      else FaceId(LeftWall, 0, y1, 0)
    else if y1 == y2 then
      (if y1 == 0 then FaceId(FrontWall, 0, x2, 0) else FaceId(BackWall, 0, x2, 1))
    else
      (if x1 == 0 then FaceId(LeftWall, 0, y2, 1) else FaceId(RightWall, 0, y2, 0))
  }

  /** Edges going up a wall, from a bottom point to a top point. */
  function UpOwner(r: int, c: int, y1: int, x1: int, y2: int, x2: int): FaceId
  {
    if y1 == y2 && x1 == x2 then
      if y1 == 0 && x1 < c - 1 then FaceId(FrontWall, 0, x1, 0)
      else if x1 == c - 1 && y1 < r - 1 then FaceId(RightWall, 0, y1, 0)
      else if y1 == r - 1 && x1 > 0 then FaceId(BackWall, 0, x1 - 1, 1)
      else FaceId(LeftWall, 0, y1 - 1, 1)
    else if y1 == y2 then
      (if y1 == 0 then FaceId(FrontWall, 0, x1, 1) else FaceId(BackWall, 0, x1, 0))
    else
      (if x1 == 0 then FaceId(LeftWall, 0, y1, 0) else FaceId(RightWall, 0, y1, 1))
  }

  /** The face of the solid that runs from `p` to `q`, when one does. */
  function Owner(r: int, c: int, p: Point, q: Point): FaceId
  {
    match p
    case Top(y1, x1) =>
      (match q
       case Top(y2, x2) => TopOwner(r, c, y1, x1, y2, x2)
       case Bottom(y2, x2) => DownOwner(r, c, y1, x1, y2, x2))
    case Bottom(y1, x1) =>
      (match q
       case Top(y2, x2) => UpOwner(r, c, y1, x1, y2, x2)
       case Bottom(y2, x2) => BottomOwner(r, c, y1, x1, y2, x2))
  }

  /** Every face of a solid at least two cells each way owns its three edges. */
  lemma OwnsOutline(r: int, c: int, id: FaceId)
    requires r >= 2 && c >= 2 && ValidId(r, c, id)
    ensures var t := Outline(r, c, id);
      Owner(r, c, t.a, t.b) == id && Owner(r, c, t.b, t.c) == id && Owner(r, c, t.c, t.a) == id
  {
  }

  /** A directed edge of an existing face joins two grid points that the face owns. */
  lemma EdgeEnds(r: int, c: int, id: FaceId, e: Edge) returns (p: Point, q: Point)
    requires r >= 2 && c >= 2 && ValidId(r, c, id) && e in Edges(PartFace(r, c, id))
    ensures OnGrid(r, c, p) && OnGrid(r, c, q)
    ensures e == Edge(Index(r, c, p), Index(r, c, q)) && Owner(r, c, p, q) == id
  {
    var t := Outline(r, c, id);
    OwnsOutline(r, c, id);
    OutlineOnGrid(r, c, id);
    if e == Edge(Index(r, c, t.a), Index(r, c, t.b)) {
      p, q := t.a, t.b;
    } else if e == Edge(Index(r, c, t.b), Index(r, c, t.c)) {
      p, q := t.b, t.c;
    } else {
      p, q := t.c, t.a;
    }
  }

  /** Two faces that run along the same directed edge are the same face. */
  lemma SharedEdgeSameFace(r: int, c: int, id: FaceId, id': FaceId)
    requires r >= 2 && c >= 2 && ValidId(r, c, id) && ValidId(r, c, id')
    requires id != id'
    ensures Edges(PartFace(r, c, id)) !! Edges(PartFace(r, c, id'))
  {
    if e :| e in Edges(PartFace(r, c, id)) && e in Edges(PartFace(r, c, id')) {
      var p, q := EdgeEnds(r, c, id, e);
      var p', q' := EdgeEnds(r, c, id', e);
      IndexInjective(r, c, p, p');
      IndexInjective(r, c, q, q');
      assert false;
    }
  }

  // ----- the parts and the solid -----

  /** The faces of one part, told apart by cell and slot, share no directed edge. */
  lemma PartEdgeDistinct(r: int, c: int, part: Part, rows: nat, cols: nat)
    requires r >= 2 && c >= 2 && Extent(r, c, part, rows, cols)
    ensures FacesEdgeDistinct(rows, cols, PartCell(r, c, part))
  {
    var q := PartCell(r, c, part);
    forall y, x, t, y', x', t' |
      0 <= y < rows && 0 <= x < cols && 0 <= t < |q(y, x)| &&
      0 <= y' < rows && 0 <= x' < cols && 0 <= t' < |q(y', x')| &&
      (y != y' || x != x' || t != t')
      ensures Edges(q(y, x)[t]) !! Edges(q(y', x')[t'])
    {
      var id, id' := FaceId(part, y, x, t), FaceId(part, y', x', t');
      assert q(y, x)[t] == PartFace(r, c, id) && ValidId(r, c, id);
      assert q(y', x')[t'] == PartFace(r, c, id') && ValidId(r, c, id');
      SharedEdgeSameFace(r, c, id, id');
    }
  }

  /** Each part on its own is consistently wound. */
  lemma PartConsistent(r: int, c: int, part: Part, rows: nat, cols: nat)
    requires r >= 2 && c >= 2 && Extent(r, c, part, rows, cols)
    ensures FromParts(r, c, Tile(rows, cols, PartCell(r, c, part)), {part})
    ensures WindingConsistent(Tile(rows, cols, PartCell(r, c, part)))
  {
    TileFromPart(r, c, part, rows, cols);
    PartEdgeDistinct(r, c, part, rows, cols);
    TileConsistentFromFaces(rows, cols, PartCell(r, c, part));
  }

  /** Faces of different parts share no directed edge. */
  lemma DisjointParts(r: int, c: int, xs: seq<Face>, ys: seq<Face>, p: set<Part>, q: set<Part>)
    requires r >= 2 && c >= 2 && FromParts(r, c, xs, p) && FromParts(r, c, ys, q) && p !! q
    ensures EdgeDisjoint(xs, ys)
  {
    forall i, j | 0 <= i < |xs| && 0 <= j < |ys|
      ensures Edges(xs[i]) !! Edges(ys[j])
    {
      assert IsPartFace(r, c, xs[i], p) && IsPartFace(r, c, ys[j], q);
      var id :| ValidId(r, c, id) && id.part in p && xs[i] == PartFace(r, c, id);
      var id' :| ValidId(r, c, id') && id'.part in q && ys[j] == PartFace(r, c, id');
      SharedEdgeSameFace(r, c, id, id');
    }
  }

  /** Appending a consistent part that shares no edge with what is already there. */
  lemma AppendPart(r: int, c: int, xs: seq<Face>, ys: seq<Face>, p: set<Part>, part: Part)
    requires r >= 2 && c >= 2 && part !in p
    requires FromParts(r, c, xs, p) && WindingConsistent(xs)
    requires FromParts(r, c, ys, {part}) && WindingConsistent(ys)
    ensures FromParts(r, c, xs + ys, p + {part}) && WindingConsistent(xs + ys)
  {
    DisjointParts(r, c, xs, ys, p, {part});
    ConsistentConcat(xs, ys);
    FromPartsConcat(r, c, xs, ys, p, {part});
  }

  /** Six consistent parts, one of each kind, make a consistent list. */
  lemma SixConsistent(r: int, c: int, top: seq<Face>, bottom: seq<Face>, front: seq<Face>, back: seq<Face>,
                      left: seq<Face>, right: seq<Face>)
    requires r >= 2 && c >= 2
    requires FromParts(r, c, top, {TopCap}) && WindingConsistent(top)
    requires FromParts(r, c, bottom, {BottomCap}) && WindingConsistent(bottom)
    requires FromParts(r, c, front, {FrontWall}) && WindingConsistent(front)
    requires FromParts(r, c, back, {BackWall}) && WindingConsistent(back)
    requires FromParts(r, c, left, {LeftWall}) && WindingConsistent(left)
    requires FromParts(r, c, right, {RightWall}) && WindingConsistent(right)
    ensures WindingConsistent(top + bottom + front + back + left + right)
  {
    AppendPart(r, c, top, bottom, {TopCap}, BottomCap);
    AppendPart(r, c, top + bottom, front, {TopCap} + {BottomCap}, FrontWall);
    AppendPart(r, c, top + bottom + front, back, {TopCap} + {BottomCap} + {FrontWall}, BackWall);
    AppendPart(r, c, top + bottom + front + back, left, {TopCap} + {BottomCap} + {FrontWall} + {BackWall}, LeftWall);
    AppendPart(r, c, top + bottom + front + back + left, right,
      {TopCap} + {BottomCap} + {FrontWall} + {BackWall} + {LeftWall}, RightWall);
  }

  /** The corrected solid over a map of at least two cells each way is consistently
      wound: wherever two of its faces meet, they cross the shared edge in opposite
      directions. */
  lemma SolidConsistent(r: nat, c: nat)
    requires r >= 2 && c >= 2
    ensures WindingConsistent(CorrectedSolidFaces(r, c))
  {
    CorrectedSplit(r, c);
    PartConsistent(r, c, TopCap, Less(r), Less(c));
    PartConsistent(r, c, BottomCap, Less(r), Less(c));
    PartConsistent(r, c, FrontWall, 1, Less(c));
    PartConsistent(r, c, BackWall, 1, Less(c));
    PartConsistent(r, c, LeftWall, 1, Less(r));
    PartConsistent(r, c, RightWall, 1, Less(r));
    SixConsistent(r, c, Tile(Less(r), Less(c), PartCell(r, c, TopCap)), Tile(Less(r), Less(c), PartCell(r, c, BottomCap)),
      Tile(1, Less(c), PartCell(r, c, FrontWall)), Tile(1, Less(c), PartCell(r, c, BackWall)),
      Tile(1, Less(r), PartCell(r, c, LeftWall)), Tile(1, Less(r), PartCell(r, c, RightWall)));
  }

  // ----- the surfaces as written -----

  /** The reversed triangle runs along each of the original's edges backwards. */
  lemma ReversedEdges(f: Face)
    ensures Edges(Reversed(f)) == set e | e in Edges(f) :: Edge(e.to, e.from)
  {
  }

  lemma AsWrittenTopFirst(r: nat, c: nat)
    requires r >= 2 && c >= 2
    ensures var top := Tile(Less(r), Less(c), CapCell(r, c, TopCap));
      |top| == 2 * ((r - 1) * (c - 1)) && 0 < |top| && top[0] == Face(0, 1, c)
  {
    TileAt(Less(r), Less(c), CapCell(r, c, TopCap), 0, 0, 0);
    TileLength(Less(r), Less(c), CapCell(r, c, TopCap), 2);
    Twice(r - 1, c - 1);
  }

  lemma AsWrittenBottomLength(r: nat, c: nat)
    requires r >= 2 && c >= 2
    ensures |Tile(Less(r), Less(c), CapCell(r, c, BottomCap))| == 2 * ((r - 1) * (c - 1))
  {
    TileLength(Less(r), Less(c), CapCell(r, c, BottomCap), 2);
    Twice(r - 1, c - 1);
  }

  lemma FrontFirst(r: nat, c: nat)
    requires c >= 2
    ensures |Walls(r, c)| > 0 && Walls(r, c)[0] == Face(0, 1, r * c)
  {
    var front := Tile(1, Less(c), PartCell(r, c, FrontWall));
    TileAt(1, Less(c), PartCell(r, c, FrontWall), 0, 0, 0);
    assert Walls(r, c)[0] == front[0];
  }

  /** As written, the first top triangle `[0, 1, c]` and the first front-wall triangle
      `[0, 1, r*c]` both run from vertex 0 to vertex 1, so the solid is not
      consistently wound for any map of at least two cells each way. */
  lemma AsWrittenInconsistent(r: nat, c: nat)
    requires r >= 2 && c >= 2
    ensures var fs, n := SolidFaces(r, c), 4 * ((r - 1) * (c - 1));
      0 <= n < |fs| && fs[0] == Face(0, 1, c) && fs[n] == Face(0, 1, r * c)
    ensures !WindingConsistent(SolidFaces(r, c))
  {
    var top := Tile(Less(r), Less(c), CapCell(r, c, TopCap));
    var bottom := Tile(Less(r), Less(c), CapCell(r, c, BottomCap));
    AsWrittenTopFirst(r, c);
    AsWrittenBottomLength(r, c);
    FrontFirst(r, c);
    FirstAndAfter(top, bottom, Walls(r, c));
  }

  /** In `top + bottom + walls`, the first face and the first wall face. */
  lemma FirstAndAfter(top: seq<Face>, bottom: seq<Face>, walls: seq<Face>)
    requires |top| > 0 && |walls| > 0
    ensures var fs := top + bottom + walls;
      |top| + |bottom| < |fs| && fs[0] == top[0] && fs[|top| + |bottom|] == walls[0]
    ensures top[0].a == walls[0].a && top[0].b == walls[0].b ==> !WindingConsistent(top + bottom + walls)
  {
    var fs := top + bottom + walls;
    var e := Edge(top[0].a, top[0].b);
    assert e in Edges(fs[0]);
    if top[0].a == walls[0].a && top[0].b == walls[0].b {
      assert e in Edges(fs[|top| + |bottom|]);
    }
  }
}
