/** Row-major quad tilings: every grid mesh of the system is produced by two nested
    loops, rows outside and columns inside, that append the faces of one cell at a
    time. `Tile(rows, cols, q)` is the face list such loops leave behind when cell
    `(y, x)` contributes `q(y, x)`. */
module Tiling {
  import opened Mesh

  type Cells = (int, int) -> seq<Face>

  /** The flat index of grid point `(r, c)` in a row-major vertex list of width `w`. */
  function Flat(w: int, r: int, c: int): int { r * w + c }

  function TileRow<T>(y: int, x: nat, q: (int, int) -> seq<T>): seq<T>
  {
    if x == 0 then [] else TileRow(y, x - 1, q) + q(y, x - 1)
  }

  function Tile<T>(rows: nat, cols: nat, q: (int, int) -> seq<T>): seq<T>
  {
    if rows == 0 then [] else Tile(rows - 1, cols, q) + TileRow(rows - 1, cols, q)
  }

  lemma MulLe(a: int, b: int, w: int)
    requires a <= b && 0 <= w
    ensures a * w <= b * w
  {
    assert (b - a) * w >= 0;
  }

  lemma RowStep(r: int, n: int)
    ensures (r + 1) * n == r * n + n
  {
  }

  /** Distinct grid points of width `w` have distinct flat indices. */
  lemma FlatInjective(w: int, r: int, c: int, r': int, c': int)
    requires 0 <= c < w && 0 <= c' < w
    requires Flat(w, r, c) == Flat(w, r', c')
    ensures r == r' && c == c'
  {
    if r < r' {
      MulLe(r + 1, r', w);
    } else if r' < r {
      MulLe(r' + 1, r, w);
    }
  }

  /** A grid point of an `rows x w` grid has a flat index in `0 .. rows*w - 1`. */
  lemma FlatBounds(w: int, rows: int, r: int, c: int)
    requires 0 <= r < rows && 0 <= c < w
    ensures 0 <= Flat(w, r, c) < rows * w
  {
    MulLe(0, r, w);
    MulLe(r + 1, rows, w);
  }

  lemma {:induction false} TileRowLength<T>(y: int, x: nat, q: (int, int) -> seq<T>, k: nat)
    requires forall x' :: 0 <= x' < x ==> |q(y, x')| == k
    ensures |TileRow(y, x, q)| == x * k
  {
    if x > 0 {
      TileRowLength(y, x - 1, q, k);
    }
  }

  /** When every cell contributes `k` faces, the tiling has `rows * cols * k`. */
  lemma {:induction false} TileLength<T>(rows: nat, cols: nat, q: (int, int) -> seq<T>, k: nat)
    requires forall y, x :: 0 <= y < rows && 0 <= x < cols ==> |q(y, x)| == k
    ensures |Tile(rows, cols, q)| == rows * (cols * k)
  {
    if rows > 0 {
      TileLength(rows - 1, cols, q, k);
      TileRowLength(rows - 1, cols, q, k);
      RowStep(rows - 1, cols * k);
    }
  }

  lemma {:induction false} TileRowPrefix<T>(y: int, x: nat, x': nat, q: (int, int) -> seq<T>)
    requires x <= x'
    ensures TileRow(y, x, q) <= TileRow(y, x', q)
  {
    if x < x' {
      TileRowPrefix(y, x, x' - 1, q);
    }
  }

  lemma {:induction false} TilePrefix<T>(rows: nat, rows': nat, cols: nat, q: (int, int) -> seq<T>)
    requires rows <= rows'
    ensures Tile(rows, cols, q) <= Tile(rows', cols, q)
  {
    if rows < rows' {
      TilePrefix(rows, rows' - 1, cols, q);
    }
  }

  /** The faces of cell `(y, x)` sit in the tiling right after the complete rows above
      it and the earlier cells of its own row. */
  lemma TileAt<T>(rows: nat, cols: nat, q: (int, int) -> seq<T>, y: nat, x: nat, t: nat)
    requires y < rows && x < cols && t < |q(y, x)|
    ensures |Tile(y, cols, q)| + |TileRow(y, x, q)| + t < |Tile(rows, cols, q)|
    ensures Tile(rows, cols, q)[|Tile(y, cols, q)| + |TileRow(y, x, q)| + t] == q(y, x)[t]
  {
    var j := |TileRow(y, x, q)| + t;
    TileRowStep(y, x, q);
    ConcatAt(TileRow(y, x, q), q(y, x), t);
    TileRowPrefixAt(y, x + 1, cols, q, j);
    var i := |Tile(y, cols, q)| + j;
    TileStep(y, cols, q);
    ConcatAt(Tile(y, cols, q), TileRow(y, cols, q), j);
    TilePrefixAt(y + 1, rows, cols, q, i);
  }

  lemma {:induction false} TileRowPrefixAt<T>(y: int, x: nat, x': nat, q: (int, int) -> seq<T>, j: nat)
    requires x <= x' && j < |TileRow(y, x, q)|
    ensures j < |TileRow(y, x', q)| && TileRow(y, x', q)[j] == TileRow(y, x, q)[j]
  {
    TileRowPrefix(y, x, x', q);
  }

  lemma {:induction false} TilePrefixAt<T>(rows: nat, rows': nat, cols: nat, q: (int, int) -> seq<T>, j: nat)
    requires rows <= rows' && j < |Tile(rows, cols, q)|
    ensures j < |Tile(rows', cols, q)| && Tile(rows', cols, q)[j] == Tile(rows, cols, q)[j]
  {
    TilePrefix(rows, rows', cols, q);
  }

  lemma TileRowStep<T>(y: int, x: nat, q: (int, int) -> seq<T>)
    ensures TileRow(y, x + 1, q) == TileRow(y, x, q) + q(y, x)
  {
  }

  lemma TileStep<T>(rows: nat, cols: nat, q: (int, int) -> seq<T>)
    ensures Tile(rows + 1, cols, q) == Tile(rows, cols, q) + TileRow(rows, cols, q)
  {
  }

  /** Appending to a sequence built as `a + b` extends its second part. */
  lemma AppendStep<T>(vs: seq<T>, a: seq<T>, b: seq<T>, c: seq<T>)
    requires vs == a + b
    ensures vs + c == a + (b + c)
  {
  }

  lemma ConcatAt<T>(a: seq<T>, b: seq<T>, j: nat)
    requires j < |b|
    ensures (a + b)[|a| + j] == b[j]
  {
  }

  lemma {:induction false} TileRowSlot<T>(y: int, x: nat, q: (int, int) -> seq<T>, k: nat) returns (x': int, t: int)
    requires k < |TileRow(y, x, q)|
    ensures 0 <= x' < x && 0 <= t < |q(y, x')| && TileRow(y, x, q)[k] == q(y, x')[t]
    decreases x
  {
    var r := TileRow(y, x - 1, q);
    TileRowStep(y, x - 1, q);
    if k < |r| {
      x', t := TileRowSlot(y, x - 1, q, k);
    } else {
      x', t := x - 1, k - |r|;
    }
  }

  lemma {:induction false} TileSlot<T>(rows: nat, cols: nat, q: (int, int) -> seq<T>, k: nat) returns (y: int, x: int, t: int)
    requires k < |Tile(rows, cols, q)|
    ensures 0 <= y < rows && 0 <= x < cols && 0 <= t < |q(y, x)| && Tile(rows, cols, q)[k] == q(y, x)[t]
    decreases rows
  {
    var a := Tile(rows - 1, cols, q);
    TileStep(rows - 1, cols, q);
    if k < |a| {
      y, x, t := TileSlot(rows - 1, cols, q, k);
    } else {
      y := rows - 1;
      x, t := TileRowSlot(rows - 1, cols, q, k - |a|);
    }
  }

  /** Every element of a tiling comes from some cell inside the grid. */
  lemma TileOwner<T>(rows: nat, cols: nat, q: (int, int) -> seq<T>, f: T) returns (y: int, x: int)
    requires f in Tile(rows, cols, q)
    ensures 0 <= y < rows && 0 <= x < cols && f in q(y, x)
  {
    var k :| 0 <= k < |Tile(rows, cols, q)| && Tile(rows, cols, q)[k] == f;
    var t;
    y, x, t := TileSlot(rows, cols, q, k);
  }

  /** Faces emitted by different cells never share a directed edge. */
  predicate CellsDisjoint(rows: int, cols: int, q: Cells)
  {
    forall y, x, y', x' ::
      0 <= y < rows && 0 <= x < cols && 0 <= y' < rows && 0 <= x' < cols && (y != y' || x != x')
      ==> EdgeDisjoint(q(y, x), q(y', x'))
  }

  predicate CellsConsistent(rows: int, cols: int, q: Cells)
  {
    forall y, x :: 0 <= y < rows && 0 <= x < cols ==> WindingConsistent(q(y, x))
  }

  lemma {:induction false} DisjointFromTileRow(y: int, x: nat, q: Cells, fs: seq<Face>)
    requires forall x' :: 0 <= x' < x ==> EdgeDisjoint(fs, q(y, x'))
    ensures EdgeDisjoint(fs, TileRow(y, x, q))
  {
    if x > 0 {
      DisjointFromTileRow(y, x - 1, q, fs);
      var r := TileRow(y, x - 1, q);
      assert TileRow(y, x, q) == r + q(y, x - 1);
      forall i, j | 0 <= i < |fs| && 0 <= j < |TileRow(y, x, q)|
        ensures Edges(fs[i]) !! Edges(TileRow(y, x, q)[j])
      {
        if j >= |r| {
          assert TileRow(y, x, q)[j] == q(y, x - 1)[j - |r|];
        }
      }
    }
  }

  lemma {:induction false} RowConsistent(y: int, x: nat, q: Cells)
    requires forall x' :: 0 <= x' < x ==> WindingConsistent(q(y, x'))
    requires forall x0, x1 :: 0 <= x0 < x1 < x ==> EdgeDisjoint(q(y, x1), q(y, x0))
    ensures WindingConsistent(TileRow(y, x, q))
  {
    if x > 0 {
      RowConsistent(y, x - 1, q);
      DisjointFromTileRow(y, x - 1, q, q(y, x - 1));
      SwapDisjoint(q(y, x - 1), TileRow(y, x - 1, q));
      ConsistentConcat(TileRow(y, x - 1, q), q(y, x - 1));
    }
  }

  lemma SwapDisjoint(xs: seq<Face>, ys: seq<Face>)
    requires EdgeDisjoint(xs, ys)
    ensures EdgeDisjoint(ys, xs)
  {
  }

  lemma {:induction false} RowDisjointFromTile(rows: nat, cols: nat, y: int, q: Cells)
    requires rows <= y
    requires forall y', x, x' :: 0 <= y' < rows && 0 <= x < cols && 0 <= x' < cols
               ==> EdgeDisjoint(q(y, x), q(y', x'))
    ensures EdgeDisjoint(TileRow(y, cols, q), Tile(rows, cols, q))
  {
    forall x | 0 <= x < cols
      ensures EdgeDisjoint(Tile(rows, cols, q), q(y, x))
    {
      TileDisjoint(rows, cols, q, q(y, x));
      SwapDisjoint(q(y, x), Tile(rows, cols, q));
    }
    DisjointFromTileRow(y, cols, q, Tile(rows, cols, q));
    SwapDisjoint(Tile(rows, cols, q), TileRow(y, cols, q));
  }

  lemma {:induction false} TileDisjoint(rows: nat, cols: nat, q: Cells, fs: seq<Face>)
    requires forall y', x' :: 0 <= y' < rows && 0 <= x' < cols ==> EdgeDisjoint(fs, q(y', x'))
    ensures EdgeDisjoint(fs, Tile(rows, cols, q))
  {
    if rows > 0 {
      TileDisjoint(rows - 1, cols, q, fs);
      DisjointFromTileRow(rows - 1, cols, q, fs);
      var a, b := Tile(rows - 1, cols, q), TileRow(rows - 1, cols, q);
      forall i, j | 0 <= i < |fs| && 0 <= j < |a + b|
        ensures Edges(fs[i]) !! Edges((a + b)[j])
      {
        if j >= |a| {
          assert (a + b)[j] == b[j - |a|];
        }
      }
    }
  }

  /** A tiling whose cells are each consistently wound, and whose distinct cells share
      no directed edge, is consistently wound as a whole. */
  lemma {:induction false} TileConsistent(rows: nat, cols: nat, q: Cells)
    requires CellsConsistent(rows, cols, q) && CellsDisjoint(rows, cols, q)
    ensures WindingConsistent(Tile(rows, cols, q))
  {
    if rows > 0 {
      TileConsistent(rows - 1, cols, q);
      RowConsistent(rows - 1, cols, q);
      RowDisjointFromTile(rows - 1, cols, rows - 1, q);
      SwapDisjoint(TileRow(rows - 1, cols, q), Tile(rows - 1, cols, q));
      ConsistentConcat(Tile(rows - 1, cols, q), TileRow(rows - 1, cols, q));
    }
  }

  // ----- the two-triangle cell shared by the surface builders -----

  /** Cell `(y, x)` of a grid surface `w` points wide: the upper-left triangle
      `i, i+1, i+w` and the lower-right triangle `i+1, i+w+1, i+w`, where `i` is the
      flat index of the cell's top-left corner. */
  function GridSquare(w: int, y: int, x: int): seq<Face>
  {
    [Face(Flat(w, y, x), Flat(w, y, x + 1), Flat(w, y + 1, x)),
     Face(Flat(w, y, x + 1), Flat(w, y + 1, x + 1), Flat(w, y + 1, x))]
  }

  function GridCell(w: int): Cells
  {
    (y: int, x: int) => GridSquare(w, y, x)
  }

  /** The faces of an `h x w` grid surface: one cell per grid square. */
  function GridFaces(h: nat, w: nat): seq<Face>
  {
    if h == 0 || w == 0 then [] else Tile(h - 1, w - 1, GridCell(w))
  }

  /** Face-by-face content of a grid surface: slots `2k` and `2k+1` hold the two
      triangles of cell `k = y*(w-1) + x`, whose top-left corner is grid point
      `i = y*w + x`. */
  lemma GridFacesAt(h: nat, w: nat, y: nat, x: nat)
    requires y < h - 1 && x < w - 1
    ensures 2 * Flat(w - 1, y, x) + 1 < |GridFaces(h, w)|
    ensures
      var i := Flat(w, y, x);
      GridFaces(h, w)[2 * Flat(w - 1, y, x)] == Face(i, i + 1, i + w) &&
      GridFaces(h, w)[2 * Flat(w - 1, y, x) + 1] == Face(i + 1, i + w + 1, i + w)
  {
    PairSlots(h - 1, w - 1, y, x, GridCell(w));
    GridCellShape(w, y, x);
  }

  /** In a tiling of two-face cells, cell `(y, x)` starts at slot `2 * (y*cols + x)`. */
  lemma PairSlots<T>(rows: nat, cols: nat, y: nat, x: nat, q: (int, int) -> seq<T>)
    requires forall y', x' :: 0 <= y' < rows && 0 <= x' < cols ==> |q(y', x')| == 2
    requires y < rows && x < cols
    ensures 2 * Flat(cols, y, x) + 1 < |Tile(rows, cols, q)|
    ensures Tile(rows, cols, q)[2 * Flat(cols, y, x)] == q(y, x)[0]
    ensures Tile(rows, cols, q)[2 * Flat(cols, y, x) + 1] == q(y, x)[1]
  {
    TileAt(rows, cols, q, y, x, 0);
    TileAt(rows, cols, q, y, x, 1);
    TileLength(y, cols, q, 2);
    TileRowLength(y, x, q, 2);
    Twice(y, cols);
  }

  lemma GridCellShape(w: int, y: int, x: int)
    ensures
      var i := Flat(w, y, x);
      GridCell(w)(y, x) == [Face(i, i + 1, i + w), Face(i + 1, i + w + 1, i + w)]
  {
    RowStep(y, w);
  }

  lemma Twice(y: int, m: int)
    ensures y * (m * 2) == 2 * (y * m)
  {
  }

  /** Every face of a tiling is a proper triangle over `n` vertices when every cell's
      faces are. */
  lemma TileWellFormed(rows: nat, cols: nat, q: Cells, n: int)
    requires forall y, x :: 0 <= y < rows && 0 <= x < cols ==>
               AllInRange(q(y, x), n) && AllNonDegenerate(q(y, x))
    ensures AllInRange(Tile(rows, cols, q), n) && AllNonDegenerate(Tile(rows, cols, q))
  {
    forall k | 0 <= k < |Tile(rows, cols, q)|
      ensures InRange(Tile(rows, cols, q)[k], n) && NonDegenerate(Tile(rows, cols, q)[k])
    {
      var f := Tile(rows, cols, q)[k];
      var y, x := TileOwner(rows, cols, q, f);
      var t :| 0 <= t < |q(y, x)| && q(y, x)[t] == f;
    }
  }

  lemma GridCellWellFormed(h: int, w: int, y: int, x: int)
    requires 0 <= y < h - 1 && 0 <= x < w - 1
    ensures AllInRange(GridCell(w)(y, x), h * w) && AllNonDegenerate(GridCell(w)(y, x))
  {
    GridCellShape(w, y, x);
    FlatBounds(w, h, y, x);
    FlatBounds(w, h, y + 1, x + 1);
  }

  lemma GridCellsWellFormed(h: int, w: int)
    ensures forall y, x :: 0 <= y < h - 1 && 0 <= x < w - 1 ==>
              AllInRange(GridCell(w)(y, x), h * w) && AllNonDegenerate(GridCell(w)(y, x))
  {
    forall y, x | 0 <= y < h - 1 && 0 <= x < w - 1
      ensures AllInRange(GridCell(w)(y, x), h * w) && AllNonDegenerate(GridCell(w)(y, x))
    {
      GridCellWellFormed(h, w, y, x);
    }
  }

  /** A grid surface of `h x w` points has two faces per grid square. */
  lemma GridFacesCount(h: nat, w: nat)
    requires h >= 1 && w >= 1
    ensures |GridFaces(h, w)| == 2 * ((h - 1) * (w - 1))
  {
    TileLength(h - 1, w - 1, GridCell(w), 2);
    Twice(h - 1, w - 1);
  }

  /** Every face of a grid surface is a proper triangle over its `h*w` points. */
  lemma GridFacesWellFormed(h: nat, w: nat)
    ensures AllInRange(GridFaces(h, w), h * w) && AllNonDegenerate(GridFaces(h, w))
  {
    if h >= 1 && w >= 1 {
      GridCellsWellFormed(h, w);
      TileWellFormed(h - 1, w - 1, GridCell(w), h * w);
    }
  }

  lemma FlatInjectiveAll(w: int)
    ensures forall r, c, r', c' :: 0 <= c < w && 0 <= c' < w && Flat(w, r, c) == Flat(w, r', c')
              ==> r == r' && c == c'
  {
    forall r, c, r', c' | 0 <= c < w && 0 <= c' < w && Flat(w, r, c) == Flat(w, r', c')
      ensures r == r' && c == c'
    {
      FlatInjective(w, r, c, r', c');
    }
  }

  /** Two different triangles of a grid surface never run along the same directed
      edge. */
  lemma GridCellEdges(w: int, y: int, x: int, y': int, x': int, t: int, t': int)
    requires 0 <= x < w - 1 && 0 <= x' < w - 1 && 0 <= t < 2 && 0 <= t' < 2
    requires y != y' || x != x' || t != t'
    ensures Edges(GridCell(w)(y, x)[t]) !! Edges(GridCell(w)(y', x')[t'])
  {
    FlatInjectiveAll(w);
  }

  /** Different faces of a tiling, told apart by cell and slot, share no directed edge. */
  predicate FacesEdgeDistinct(rows: int, cols: int, q: Cells)
  {
    forall y, x, t, y', x', t' ::
      0 <= y < rows && 0 <= x < cols && 0 <= t < |q(y, x)| &&
      0 <= y' < rows && 0 <= x' < cols && 0 <= t' < |q(y', x')| &&
      (y != y' || x != x' || t != t')
      ==> Edges(q(y, x)[t]) !! Edges(q(y', x')[t'])
  }

  lemma TileConsistentFromFaces(rows: nat, cols: nat, q: Cells)
    requires FacesEdgeDistinct(rows, cols, q)
    ensures WindingConsistent(Tile(rows, cols, q))
  {
    TileConsistent(rows, cols, q);
  }

  lemma GridFacesEdgeDistinct(rows: int, w: int)
    ensures FacesEdgeDistinct(rows, w - 1, GridCell(w))
  {
    forall y, x, t, y', x', t' |
      0 <= y < rows && 0 <= x < w - 1 && 0 <= t < 2 &&
      0 <= y' < rows && 0 <= x' < w - 1 && 0 <= t' < 2 &&
      (y != y' || x != x' || t != t')
      ensures Edges(GridCell(w)(y, x)[t]) !! Edges(GridCell(w)(y', x')[t'])
    {
      GridCellEdges(w, y, x, y', x', t, t');
    }
  }

  /** The grid surfaces (height map, text relief) are consistently wound. */
  lemma GridConsistent(h: nat, w: nat)
    ensures WindingConsistent(GridFaces(h, w))
  {
    if h >= 1 && w >= 1 {
      GridFacesEdgeDistinct(h - 1, w);
      TileConsistentFromFaces(h - 1, w - 1, GridCell(w));
    }
  }
}
