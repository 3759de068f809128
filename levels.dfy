/**
 * The board: its geometry (cell indices, rows and columns, wrap-around on warp
 * boards), the board-wide operations of Level as functions on the cell sequence,
 * the invariants play relies on, and the Level class itself.
 */
module Levels {
  import opened Bytes
  import opened Squares
  import LevelFormat

  /** The shape of a board: columns, rows and whether moves wrap around. */
  datatype Geometry = Geometry(width: int, height: int, warp: bool)

  /** A board of n cells with this shape: width and height are bytes, neither zero. */
  predicate Sized(g: Geometry, n: int)
  {
    1 <= g.width < 256 && 1 <= g.height < 256 && n == g.width * g.height
  }

  /** Truncation to 16 bits, as the u16 return values of the index moves do. */
  function U16(x: int): u16
  {
    x % 0x1_0000
  }

  /**
   * The column of cell idx, idx % width, by subtracting whole rows.  Written
   * recursively so that only the geometry lemmas, through ColumnIsMod, reason
   * about the division.
   */
  function Column(w: int, idx: int): int
    requires w >= 1
    decreases idx
  {
    if idx < w then idx else Column(w, idx - w)
  }

  lemma {:induction false} ColumnIsMod(w: int, idx: int)
    requires w >= 1 && idx >= 0
    ensures Column(w, idx) == idx % w
    decreases idx
  {
    if idx >= w {
      ColumnIsMod(w, idx - w);
      var q, r := (idx - w) / w, (idx - w) % w;
      assert idx - w == q * w + r && 0 <= r < w;
      assert idx == (q + 1) * w + r;
      DivModOf(w, q + 1, r);
    } else {
      DivModOf(w, 0, idx);
    }
  }

  /**
   * square_is_top_row / bottom_row / left_column / right_column (main.cpp:508-523),
   * named by the edge a move toward d leaves through.
   */
  predicate OnEdge(g: Geometry, idx: int, d: Dir)
    requires g.width >= 1
  {
    match d
    case North => idx < g.width
    case South => idx >= (g.height - 1) * g.width
    case West => Column(g.width, idx) == 0
    case East => Column(g.width, idx) == g.width - 1
  }

  /** The wrap-around branch of the checked moves: the cell on the opposite edge. */
  function Wrapped(g: Geometry, n: int, idx: int, d: Dir): u16
  {
    match d
    case North => U16(n - (g.width - idx))
    case South => U16(idx + g.width - n)
    case West => U16(idx + g.width - 1)
    case East => U16(idx - g.width + 1)
  }

  /** move_idx_up / down / left / right (main.cpp:824-839). */
  function Adjacent(g: Geometry, idx: int, d: Dir): u16
  {
    match d
    case North => U16(idx - g.width)
    case South => U16(idx + g.width)
    case West => U16(idx - 1)
    case East => U16(idx + 1)
  }

  lemma MulLe(a: int, b: int, w: int)
    requires a <= b && 0 <= w
    ensures a * w <= b * w
  {
    assert b * w - a * w == (b - a) * w;
  }

  /** Euclidean division recovers the row and column of row * w + col. */
  lemma DivModOf(w: int, q: int, r: int)
    requires 1 <= w && 0 <= r < w
    ensures (q * w + r) / w == q && (q * w + r) % w == r
  {
    var x := q * w + r;
    var q', r' := x / w, x % w;
    assert x == q' * w + r';
    assert (q' - q) * w == r - r';
    if q' > q {
      MulLe(1, q' - q, w);
    } else if q' < q {
      MulLe(1, q - q', w);
    }
  }

  lemma RowCol(w: int, h: int, idx: int)
    requires 1 <= w && 0 <= idx < w * h
    ensures idx == (idx / w) * w + idx % w && 0 <= idx / w < h && 0 <= idx % w < w
  {
    var q := idx / w;
    if q >= h {
      MulLe(h, q, w);
    } else if q < 0 {
      MulLe(q, -1, w);
    }
  }

  /** Cell (row, col) of a board of width w: its index, and which edges it lies on. */
  lemma Cell(w: int, h: int, row: int, col: int)
    requires 1 <= w && 0 <= row < h && 0 <= col < w
    ensures (row * w + col) / w == row && (row * w + col) % w == col
    ensures 0 <= row * w + col < w * h
    ensures (row == 0) == (row * w + col < w)
    ensures (row == h - 1) == (row * w + col >= (h - 1) * w)
  {
    DivModOf(w, row, col);
    MulLe(row, h - 1, w);
    MulLe(0, row, w);
    if row >= 1 {
      MulLe(1, row, w);
    }
    if row <= h - 2 {
      MulLe(row, h - 2, w);
    }
  }

  /** The neighbour of cell idx toward d: where a move that does not look at walls lands. */
  function Neighbour(g: Geometry, n: int, idx: int, d: Dir): u16
    requires g.width >= 1
  {
    if OnEdge(g, idx, d) then Wrapped(g, n, idx, d) else Adjacent(g, idx, d)
  }

  lemma U16Id(x: int)
    requires 0 <= x < 0x1_0000
    ensures U16(x) == x
  {
  }

  lemma BoardFits(g: Geometry, n: int)
    requires Sized(g, n)
    ensures g.width <= n <= 255 * 255
  {
    MulLe(g.height, 255, g.width);
    MulLe(g.width, 255, 255);
    MulLe(1, g.height, g.width);
  }

  lemma WestOnTorus(g: Geometry, n: int, row: int, col: int)
    requires Sized(g, n) && 0 <= row < g.height && 0 <= col < g.width
    ensures Neighbour(g, n, row * g.width + col, West) ==
      row * g.width + (if col == 0 then g.width - 1 else col - 1)
  {
    var w := g.width;
    var idx := row * w + col;
    var col' := if col == 0 then w - 1 else col - 1;
    Cell(w, g.height, row, col);
    Cell(w, g.height, row, col');
    BoardFits(g, n);
    ColumnIsMod(w, idx);
    assert Column(w, idx) == col;
    var r := row * w + col';
    assert 0 <= r < n;
    U16Id(r);
    if col == 0 {
      assert idx + w - 1 == r;
    } else {
      assert idx - 1 == r;
    }
  }

  lemma EastOnTorus(g: Geometry, n: int, row: int, col: int)
    requires Sized(g, n) && 0 <= row < g.height && 0 <= col < g.width
    ensures Neighbour(g, n, row * g.width + col, East) ==
      row * g.width + (if col == g.width - 1 then 0 else col + 1)
  {
    var w := g.width;
    var idx := row * w + col;
    var col' := if col == w - 1 then 0 else col + 1;
    Cell(w, g.height, row, col);
    Cell(w, g.height, row, col');
    BoardFits(g, n);
    ColumnIsMod(w, idx);
    assert Column(w, idx) == col;
    var r := row * w + col';
    assert 0 <= r < n;
    U16Id(r);
    if col == w - 1 {
      assert idx - w + 1 == r;
    } else {
      assert idx + 1 == r;
    }
  }

  /** One row fewer is one width less. */
  lemma {:induction false} RowBefore(row: int, w: int)
    ensures (row - 1) * w == row * w - w
  {
  }

  /** The cell above (row, col), wrapping from the top row to the bottom one. */
  lemma {:induction false} NorthOnTorus(g: Geometry, n: int, row: int, col: int)
    requires Sized(g, n) && 0 <= row < g.height && 0 <= col < g.width
    ensures Neighbour(g, n, row * g.width + col, North) ==
      (if row == 0 then g.height - 1 else row - 1) * g.width + col
  {
    var w, h := g.width, g.height;
    var idx := row * w + col;
    var row' := if row == 0 then h - 1 else row - 1;
    Cell(w, h, row, col);
    Cell(w, h, row', col);
    BoardFits(g, n);
    var r := row' * w + col;
    U16Id(r);
    if row == 0 {
      RowBefore(h, w);
      assert idx == col;
      assert n - (w - idx) == r;
    } else {
      RowBefore(row, w);
      assert idx - w == r;
    }
  }

  /** The cell below (row, col), wrapping from the bottom row to the top one. */
  lemma {:induction false} SouthOnTorus(g: Geometry, n: int, row: int, col: int)
    requires Sized(g, n) && 0 <= row < g.height && 0 <= col < g.width
    ensures Neighbour(g, n, row * g.width + col, South) ==
      (if row == g.height - 1 then 0 else row + 1) * g.width + col
  {
    var w, h := g.width, g.height;
    var idx := row * w + col;
    var row' := if row == h - 1 then 0 else row + 1;
    Cell(w, h, row, col);
    Cell(w, h, row', col);
    BoardFits(g, n);
    var r := row' * w + col;
    U16Id(r);
    if row == h - 1 {
      RowBefore(h, w);
      assert r == col;
      assert idx + w - n == r;
    } else {
      RowBefore(row', w);
      assert idx + w == r;
    }
  }

  /** Every cell's neighbour is on the board. */
  lemma NeighbourInBoard(g: Geometry, n: int, idx: int, d: Dir)
    requires Sized(g, n) && 0 <= idx < n
    ensures 0 <= Neighbour(g, n, idx, d) < n
  {
    var w, h := g.width, g.height;
    RowCol(w, h, idx);
    var row, col := idx / w, idx % w;
    match d {
      case North =>
        NorthOnTorus(g, n, row, col);
        Cell(w, h, if row == 0 then h - 1 else row - 1, col);
      case South =>
        SouthOnTorus(g, n, row, col);
        Cell(w, h, if row == h - 1 then 0 else row + 1, col);
      case West =>
        WestOnTorus(g, n, row, col);
        Cell(w, h, row, if col == 0 then w - 1 else col - 1);
      case East =>
        EastOnTorus(g, n, row, col);
        Cell(w, h, row, if col == w - 1 then 0 else col + 1);
    }
  }

  /** Moving toward d and then toward the opposite direction returns to the start. */
  lemma {:induction false} NeighbourInverse(g: Geometry, n: int, idx: int, d: Dir)
    requires Sized(g, n) && 0 <= idx < n
    ensures Neighbour(g, n, Neighbour(g, n, idx, d), d.Opposite()) == idx
  {
    var w, h := g.width, g.height;
    RowCol(w, h, idx);
    var row, col := idx / w, idx % w;
    assert idx == row * w + col;
    match d {
      case North => VerticalInverse(g, n, row, col, true);
      case South => VerticalInverse(g, n, row, col, false);
      case West => HorizontalInverse(g, n, row, col, true);
      case East => HorizontalInverse(g, n, row, col, false);
    }
  }

  /**
   * A vertical and a horizontal step from the same cell reach the same cell only
   * when neither leaves it (a board one row high and one column wide).
   */
  lemma {:induction false} CrossNeighbours(g: Geometry, n: int, idx: int, e: Dir, f: Dir)
    requires Sized(g, n) && 0 <= idx < n && e.Vertical() && !f.Vertical()
    ensures Neighbour(g, n, idx, e) == Neighbour(g, n, idx, f) ==> Neighbour(g, n, idx, e) == idx
  {
    var w, h := g.width, g.height;
    RowCol(w, h, idx);
    var row, col := idx / w, idx % w;
    assert idx == row * w + col;
    var row' := if e == North then (if row == 0 then h - 1 else row - 1) else (if row == h - 1 then 0 else row + 1);
    var col' := if f == West then (if col == 0 then w - 1 else col - 1) else (if col == w - 1 then 0 else col + 1);
    if e == North {
      NorthOnTorus(g, n, row, col);
    } else {
      SouthOnTorus(g, n, row, col);
    }
    if f == West {
      WestOnTorus(g, n, row, col);
    } else {
      EastOnTorus(g, n, row, col);
    }
    if Neighbour(g, n, idx, e) == Neighbour(g, n, idx, f) {
      DivModOf(w, row', col);
      DivModOf(w, row, col');
    }
  }

  lemma {:induction false} VerticalInverse(g: Geometry, n: int, row: int, col: int, north: bool)
    requires Sized(g, n) && 0 <= row < g.height && 0 <= col < g.width
    ensures var d := if north then North else South;
      Neighbour(g, n, Neighbour(g, n, row * g.width + col, d), d.Opposite()) == row * g.width + col
  {
    var w, h := g.width, g.height;
    if north {
      var row' := if row == 0 then h - 1 else row - 1;
      NorthOnTorus(g, n, row, col);
      SouthOnTorus(g, n, row', col);
    } else {
      var row' := if row == h - 1 then 0 else row + 1;
      SouthOnTorus(g, n, row, col);
      NorthOnTorus(g, n, row', col);
    }
  }

  lemma {:induction false} HorizontalInverse(g: Geometry, n: int, row: int, col: int, west: bool)
    requires Sized(g, n) && 0 <= row < g.height && 0 <= col < g.width
    ensures var d := if west then West else East;
      Neighbour(g, n, Neighbour(g, n, row * g.width + col, d), d.Opposite()) == row * g.width + col
  {
    var w := g.width;
    if west {
      var col' := if col == 0 then w - 1 else col - 1;
      WestOnTorus(g, n, row, col);
      EastOnTorus(g, n, row, col');
    } else {
      var col' := if col == w - 1 then 0 else col + 1;
      EastOnTorus(g, n, row, col);
      WestOnTorus(g, n, row, col');
    }
  }

  /**
   * move_idx_{up,down,left,right}_checked (main.cpp:526-561).  With walls checked,
   * a wall toward d keeps the index; a move off an edge wraps only on warp boards
   * and otherwise falls through to the plain u16 arithmetic.
   */
  function MoveChecked(g: Geometry, sq: seq<Square>, idx: u16, d: Dir, checkWalls: bool): (r: u16)
    requires g.width >= 1 && (checkWalls ==> 0 <= idx < |sq|)
    ensures !checkWalls ==> r == Neighbour(g, |sq|, idx, d)
  {
    if checkWalls && sq[idx].walls.Has(d) then idx
    else if (g.warp || !checkWalls) && OnEdge(g, idx, d) then Wrapped(g, |sq|, idx, d)
    else Adjacent(g, idx, d)
  }

  /**
   * Without wall checks a move always lands on the cell one step away on the torus,
   * warp board or not: off the top row to the bottom row of the same column, off
   * the right column to the left column of the same row, and so on.
   */
  lemma UncheckedMoveWraps(g: Geometry, sq: seq<Square>, idx: u16, row: int, col: int, d: Dir)
    requires Sized(g, |sq|) && 0 <= row < g.height && 0 <= col < g.width
    requires idx == row * g.width + col
    ensures MoveChecked(g, sq, idx, d, false) ==
      match d
      case North => (if row == 0 then g.height - 1 else row - 1) * g.width + col
      case South => (if row == g.height - 1 then 0 else row + 1) * g.width + col
      case West => row * g.width + (if col == 0 then g.width - 1 else col - 1)
      case East => row * g.width + (if col == g.width - 1 then 0 else col + 1)
  {
    match d {
      case North => NorthOnTorus(g, |sq|, row, col);
      case South => SouthOnTorus(g, |sq|, row, col);
      case West => WestOnTorus(g, |sq|, row, col);
      case East => EastOnTorus(g, |sq|, row, col);
    }
  }

  /** The cell one step from cell i toward d on the torus. */
  function Next(g: Geometry, sq: seq<Square>, i: int, d: Dir): Square
    requires Sized(g, |sq|) && 0 <= i < |sq|
  {
    NeighbourInBoard(g, |sq|, i, d);
    sq[Neighbour(g, |sq|, i, d)]
  }

  /**
   * Every open side of a cell that is not a hole leads to another such cell
   * without leaving a non-warp board: the borders of non-warp boards and the
   * sides facing holes are walled.
   */
  ghost predicate EdgesWalled(g: Geometry, sq: seq<Square>)
  {
    && Sized(g, |sq|)
    && forall i, d {:trigger Next(g, sq, i, d)} :: 0 <= i < |sq| && !sq[i].hole && !sq[i].walls.Has(d) ==>
         (g.warp || !OnEdge(g, i, d)) && !Next(g, sq, i, d).hole
  }

  /** Walls between two cells that are not holes are present on both sides or on neither. */
  ghost predicate WallsMatch(g: Geometry, sq: seq<Square>)
    requires Sized(g, |sq|)
  {
    forall i, d {:trigger Next(g, sq, i, d)} :: 0 <= i < |sq| && !sq[i].hole && !Next(g, sq, i, d).hole ==>
      Next(g, sq, i, d).walls.Has(d.Opposite()) == sq[i].walls.Has(d)
  }

  /** The boards play is defined on. */
  ghost predicate Playable(g: Geometry, sq: seq<Square>)
  {
    EdgesWalled(g, sq) && WallsMatch(g, sq)
  }

  /** Cell i of the board has a connection toward d. */
  predicate LinkAt(sq: seq<Square>, i: int, d: Dir)
  {
    0 <= i < |sq| && sq[i].HasLink(d)
  }

  /**
   * Paths are drawn consistently: every connection leaves a cell that is not a
   * hole through an open side, and the cell it reaches connects back; bridges carry
   * their east-west connections in the overlay only.
   */
  ghost predicate LinksConsistent(g: Geometry, sq: seq<Square>)
    requires Sized(g, |sq|)
  {
    && (forall i, d {:trigger LinkAt(sq, i, d)} :: LinkAt(sq, i, d) ==>
          !sq[i].hole && !sq[i].walls.Has(d) && Next(g, sq, i, d).HasLink(d.Opposite()))
    && (forall i :: 0 <= i < |sq| && sq[i].bridge ==> !sq[i].direction.east && !sq[i].direction.west)
  }

  /**
   * On a board whose edges are walled, a wall-checked move from a cell that is not
   * a hole stays put at a wall and otherwise reaches the torus neighbour, which is
   * on the board and not a hole.
   */
  lemma CheckedMoveOnBoard(g: Geometry, sq: seq<Square>, idx: u16, d: Dir)
    requires EdgesWalled(g, sq) && 0 <= idx < |sq| && !sq[idx].hole
    ensures var r := MoveChecked(g, sq, idx, d, true);
      && r == (if sq[idx].walls.Has(d) then idx else Neighbour(g, |sq|, idx, d))
      && r < |sq| && !sq[r].hole
  {
    NeighbourInBoard(g, |sq|, idx, d);
    var next := Next(g, sq, idx, d);
  }

  /** Every wall-checked move from cell idx stays on the board. */
  predicate MovesStayOn(g: Geometry, sq: seq<Square>, idx: u16)
    requires g.width >= 1 && 0 <= idx < |sq|
  {
    forall d :: MoveChecked(g, sq, idx, d, true) < |sq|
  }

  lemma MovesStayOnWalled(g: Geometry, sq: seq<Square>, idx: u16)
    requires EdgesWalled(g, sq) && 0 <= idx < |sq| && !sq[idx].hole
    ensures MovesStayOn(g, sq, idx)
  {
    forall d {
      CheckedMoveOnBoard(g, sq, idx, d);
    }
  }

  /** Level::remove_direction (main.cpp:664-678) on the cell sequence. */
  function RemovedDirection(sq: seq<Square>, idx: int, d: Dir): (r: seq<Square>)
    requires 0 <= idx < |sq|
    ensures |r| == |sq|
  {
    sq[idx := sq[idx].WithoutDirection(d)]
  }

  /** The connection remove_single_connection follows on a cell that is not a bridge. */
  function FirstLink(m: Dirs): (d: Dir)
    requires m != NoDirs
    ensures m.Has(d)
  {
    if m.north then North else if m.east then East else if m.south then South else West
  }

  /**
   * Level::remove_single_connection (main.cpp:679-735): clears the connections of
   * one layer of cell idx and the matching back-connection of the neighbour the
   * first of them leads to.  The vertical layer and plain cells lose their colour
   * (sources keep theirs), the overlay its colour.
   */
  function RemovedSingleConnection(g: Geometry, sq: seq<Square>, idx: u16, vertical: bool): (r: seq<Square>)
    requires g.width >= 1 && 0 <= idx < |sq| && MovesStayOn(g, sq, idx)
    ensures |r| == |sq|
  {
    var s := sq[idx];
    if s.bridge then
      if !s.IsConnected() && s.aboveDirection == NoHalves then sq
      else if vertical then
        var sq1 :=
          if s.direction.north then RemovedDirection(sq, MoveChecked(g, sq, idx, North, true), South)
          else if s.direction.south then RemovedDirection(sq, MoveChecked(g, sq, idx, South, true), North)
          else sq;
        sq1[idx := sq1[idx].(color := 0, direction := NoDirs)]
      else
        var sq1 :=
          if s.aboveDirection.east then RemovedDirection(sq, MoveChecked(g, sq, idx, East, true), West)
          else if s.aboveDirection.west then RemovedDirection(sq, MoveChecked(g, sq, idx, West, true), East)
          else sq;
        sq1[idx := sq1[idx].(aboveColor := 0, aboveDirection := NoHalves)]
    else if !s.IsConnected() then sq
    else
      var d := FirstLink(s.direction);
      var sq1 := RemovedDirection(sq, MoveChecked(g, sq, idx, d, true), d.Opposite());
      sq1[idx := sq1[idx].(direction := NoDirs, color := if sq1[idx].source then sq1[idx].color else 0)]
  }

  /** Whether direction e belongs to the layer `vertical` selects: every direction on a plain cell. */
  predicate OnLayer(s: Square, vertical: bool, e: Dir)
  {
    !s.bridge || e.Vertical() == vertical
  }

  /** The layer of s that `vertical` selects holds exactly one connection, toward d. */
  predicate SingleLinkOn(s: Square, vertical: bool, d: Dir)
  {
    OnLayer(s, vertical, d) && s.HasLink(d) &&
    forall e :: e != d && OnLayer(s, vertical, e) ==> !s.HasLink(e)
  }

  /** The cell once remove_single_connection has cleared the layer `vertical` selects. */
  function ClearedLayer(s: Square, vertical: bool): (r: Square)
    ensures SameLayout(s, r)
    ensures forall e :: r.HasLink(e) == (s.HasLink(e) && !OnLayer(s, vertical, e))
  {
    if !s.bridge then s.(direction := NoDirs, color := if s.source then s.color else 0)
    else if vertical then s.(color := 0, direction := NoDirs)
    else s.(aboveColor := 0, aboveDirection := NoHalves)
  }

  /** Bridges hold no east-west bits in their direction mask. */
  predicate Layered(s: Square)
  {
    s.bridge ==> !s.direction.east && !s.direction.west
  }

  lemma DropPairAt(g: Geometry, sq: seq<Square>, r: seq<Square>, i: int, d: Dir, k: int, e: Dir)
    requires Sized(g, |sq|) && LinksConsistent(g, sq) && |r| == |sq|
    requires 0 <= i < |sq| && sq[i].HasLink(d) && Neighbour(g, |sq|, i, d) != i
    requires forall k :: 0 <= k < |sq| ==> SameLayout(sq[k], r[k])
    requires forall e :: r[i].HasLink(e) == (sq[i].HasLink(e) && e != d)
    requires forall e :: Next(g, r, i, d).HasLink(e) == (Next(g, sq, i, d).HasLink(e) && e != d.Opposite())
    requires forall k, e :: 0 <= k < |sq| && k != i && k != Neighbour(g, |sq|, i, d) ==> r[k].HasLink(e) == sq[k].HasLink(e)
    requires 0 <= k < |r| && r[k].HasLink(e)
    ensures !r[k].hole && !r[k].walls.Has(e) && Next(g, r, k, e).HasLink(e.Opposite())
  {
    var n := |sq|;
    NeighbourInBoard(g, n, i, d);
    var j := Neighbour(g, n, i, d);
    assert Next(g, r, i, d) == r[j] && Next(g, sq, i, d) == sq[j];
    NeighbourInverse(g, n, i, d);
    OppositeInvolutive(d);
    assert sq[k].HasLink(e) by {
      if k == j {
        assert r[j].HasLink(e);
      }
    }
    assert LinkAt(sq, k, e);
    NeighbourInBoard(g, n, k, e);
    var p := Neighbour(g, n, k, e);
    assert Next(g, sq, k, e) == sq[p] && Next(g, r, k, e) == r[p];
    assert sq[p].HasLink(e.Opposite());
    NeighbourInverse(g, n, k, e);
    OppositeInvolutive(e);
    assert !(p == i && e.Opposite() == d);
    assert !(p == j && e == d);
    assert r[p].HasLink(e.Opposite());
  }

  /**
   * Dropping a connection pair keeps paths consistent: cell i loses its connection
   * toward d, the neighbour it reaches loses the connection back, nothing else
   * changes its connections, and no cell gains one.
   */
  lemma DropPairConsistent(g: Geometry, sq: seq<Square>, r: seq<Square>, i: int, d: Dir)
    requires Sized(g, |sq|) && LinksConsistent(g, sq) && |r| == |sq|
    requires 0 <= i < |sq| && sq[i].HasLink(d) && Neighbour(g, |sq|, i, d) != i
    requires forall k :: 0 <= k < |sq| ==> SameLayout(sq[k], r[k]) && Layered(r[k])
    requires forall e :: r[i].HasLink(e) == (sq[i].HasLink(e) && e != d)
    requires forall e :: Next(g, r, i, d).HasLink(e) == (Next(g, sq, i, d).HasLink(e) && e != d.Opposite())
    requires forall k, e :: 0 <= k < |sq| && k != i && k != Neighbour(g, |sq|, i, d) ==> r[k].HasLink(e) == sq[k].HasLink(e)
    ensures LinksConsistent(g, r)
  {
    forall k, e | LinkAt(r, k, e)
      ensures !r[k].hole && !r[k].walls.Has(e) && Next(g, r, k, e).HasLink(e.Opposite())
    {
      DropPairAt(g, sq, r, i, d, k, e);
    }
  }

  lemma AddPairAt(g: Geometry, sq: seq<Square>, r: seq<Square>, i: int, d: Dir, k: int, e: Dir)
    requires Sized(g, |sq|) && LinksConsistent(g, sq) && |r| == |sq|
    requires 0 <= i < |sq| && Neighbour(g, |sq|, i, d) != i
    requires !sq[i].hole && !sq[i].walls.Has(d)
    requires !Next(g, sq, i, d).hole && !Next(g, sq, i, d).walls.Has(d.Opposite())
    requires forall k :: 0 <= k < |sq| ==> SameLayout(sq[k], r[k])
    requires forall e :: r[i].HasLink(e) == (sq[i].HasLink(e) || e == d)
    requires forall e :: Next(g, r, i, d).HasLink(e) == (Next(g, sq, i, d).HasLink(e) || e == d.Opposite())
    requires forall k, e :: 0 <= k < |sq| && k != i && k != Neighbour(g, |sq|, i, d) ==> r[k].HasLink(e) == sq[k].HasLink(e)
    requires 0 <= k < |r| && r[k].HasLink(e)
    ensures !r[k].hole && !r[k].walls.Has(e) && Next(g, r, k, e).HasLink(e.Opposite())
  {
    var n := |sq|;
    NeighbourInBoard(g, n, i, d);
    var j := Neighbour(g, n, i, d);
    assert Next(g, r, i, d) == r[j] && Next(g, sq, i, d) == sq[j];
    NeighbourInverse(g, n, i, d);
    OppositeInvolutive(d);
    NeighbourInBoard(g, n, k, e);
    var p := Neighbour(g, n, k, e);
    assert Next(g, sq, k, e) == sq[p] && Next(g, r, k, e) == r[p];
    if k == i && e == d {
      assert p == j;
    } else if k == j && e == d.Opposite() {
      assert p == i;
    } else {
      assert sq[k].HasLink(e) by {
        if k == j {
          assert r[j].HasLink(e);
        }
      }
      assert LinkAt(sq, k, e);
      assert sq[p].HasLink(e.Opposite());
      assert r[p].HasLink(e.Opposite()) by {
        if p == j {
          assert r[j].HasLink(e.Opposite());
        }
      }
    }
  }

  /**
   * Adding a connection pair across an open side keeps paths consistent: cell i
   * gains the connection toward d, its neighbour the connection back, neither is a
   * hole, the side is open from both cells, and no other cell changes its connections.
   */
  lemma AddPairConsistent(g: Geometry, sq: seq<Square>, r: seq<Square>, i: int, d: Dir)
    requires Sized(g, |sq|) && LinksConsistent(g, sq) && |r| == |sq|
    requires 0 <= i < |sq| && Neighbour(g, |sq|, i, d) != i
    requires !sq[i].hole && !sq[i].walls.Has(d)
    requires !Next(g, sq, i, d).hole && !Next(g, sq, i, d).walls.Has(d.Opposite())
    requires forall k :: 0 <= k < |sq| ==> SameLayout(sq[k], r[k]) && Layered(r[k])
    requires forall e :: r[i].HasLink(e) == (sq[i].HasLink(e) || e == d)
    requires forall e :: Next(g, r, i, d).HasLink(e) == (Next(g, sq, i, d).HasLink(e) || e == d.Opposite())
    requires forall k, e :: 0 <= k < |sq| && k != i && k != Neighbour(g, |sq|, i, d) ==> r[k].HasLink(e) == sq[k].HasLink(e)
    ensures LinksConsistent(g, r)
  {
    forall k, e | LinkAt(r, k, e)
      ensures !r[k].hole && !r[k].walls.Has(e) && Next(g, r, k, e).HasLink(e.Opposite())
    {
      AddPairAt(g, sq, r, i, d, k, e);
    }
  }

  /** Paths stay consistent when no cell changes its layout or its connections. */
  lemma SameLinksConsistent(g: Geometry, sq: seq<Square>, r: seq<Square>)
    requires Sized(g, |sq|) && LinksConsistent(g, sq) && |r| == |sq|
    requires forall k :: 0 <= k < |sq| ==> SameLayout(sq[k], r[k]) && Layered(r[k])
    requires forall k, e :: 0 <= k < |sq| ==> r[k].HasLink(e) == sq[k].HasLink(e)
    ensures LinksConsistent(g, r)
  {
    forall k, e | LinkAt(r, k, e)
      ensures !r[k].hole && !r[k].walls.Has(e) && Next(g, r, k, e).HasLink(e.Opposite())
    {
      assert LinkAt(sq, k, e);
      NeighbourInBoard(g, |sq|, k, e);
      var p := Neighbour(g, |sq|, k, e);
      assert Next(g, sq, k, e) == sq[p] && Next(g, r, k, e) == r[p];
    }
  }

  /** The layer of s that `vertical` selects holds no connection. */
  predicate NoLinkOn(s: Square, vertical: bool)
  {
    forall e :: OnLayer(s, vertical, e) ==> !s.HasLink(e)
  }

  /** How remove_single_connection acts on a layer holding one connection, toward d. */
  lemma RemoveSingleShape(g: Geometry, sq: seq<Square>, idx: u16, vertical: bool, d: Dir)
    requires EdgesWalled(g, sq) && LinksConsistent(g, sq) && idx < |sq| && !sq[idx].hole
    requires SingleLinkOn(sq[idx], vertical, d)
    ensures MovesStayOn(g, sq, idx)
    ensures var j := Neighbour(g, |sq|, idx, d);
      && j < |sq| && j != idx
      && RemovedSingleConnection(g, sq, idx, vertical) ==
         RemovedDirection(sq, j, d.Opposite())[idx := ClearedLayer(sq[idx], vertical)]
  {
    var n := |sq|;
    MovesStayOnWalled(g, sq, idx);
    NeighbourInBoard(g, n, idx, d);
    var j := Neighbour(g, n, idx, d);
    var s := sq[idx];
    assert LinkAt(sq, idx, d);
    assert Next(g, sq, idx, d) == sq[j];
    CheckedMoveOnBoard(g, sq, idx, d);
    OppositeInvolutive(d);
    forall e | e != d && OnLayer(s, vertical, e)
      ensures !s.HasLink(e)
    {
    }
    assert !s.HasLink(d.Opposite()) && sq[j].HasLink(d.Opposite());
    assert Layered(s);
    if s.bridge {
      assert s.IsConnected() || s.aboveDirection != NoHalves;
      if vertical {
        assert d == South ==> !s.HasLink(North);
      } else {
        assert d == West ==> !s.HasLink(East);
      }
    } else {
      assert s.IsConnected();
      assert d != North ==> !s.HasLink(North);
      assert d != East ==> !s.HasLink(East);
      assert d != South ==> !s.HasLink(South);
      assert FirstLink(s.direction) == d;
    }
  }

  /**
   * remove_single_connection on a layer holding exactly one connection, toward d:
   * that layer of cell idx is cleared, the neighbour toward d loses its connection
   * back, every other cell is unchanged, and paths stay consistent.
   */
  lemma RemoveSingleConnectionEffect(g: Geometry, sq: seq<Square>, idx: u16, vertical: bool, d: Dir)
    requires EdgesWalled(g, sq) && LinksConsistent(g, sq) && idx < |sq| && !sq[idx].hole
    requires SingleLinkOn(sq[idx], vertical, d)
    ensures MovesStayOn(g, sq, idx) && Neighbour(g, |sq|, idx, d) < |sq|
    ensures var r := RemovedSingleConnection(g, sq, idx, vertical);
      var j := Neighbour(g, |sq|, idx, d);
      && j != idx
      && r[idx] == ClearedLayer(sq[idx], vertical)
      && r[j] == sq[j].WithoutDirection(d.Opposite())
      && (forall k :: 0 <= k < |sq| && k != idx && k != j ==> r[k] == sq[k])
      && LinksConsistent(g, r)
  {
    RemoveSingleShape(g, sq, idx, vertical, d);
    var n := |sq|;
    var j := Neighbour(g, n, idx, d);
    var s := sq[idx];
    var r := RemovedSingleConnection(g, sq, idx, vertical);
    assert Layered(s) && Layered(sq[j]);
    forall e | e != d && OnLayer(s, vertical, e)
      ensures !s.HasLink(e)
    {
    }
    forall k | 0 <= k < n
      ensures SameLayout(sq[k], r[k]) && Layered(r[k])
    {
    }
    assert Next(g, r, idx, d) == r[j] && Next(g, sq, idx, d) == sq[j];
    DropPairConsistent(g, sq, r, idx, d);
  }

  /**
   * remove_single_connection on a layer without connections changes no connection:
   * a plain cell, or a bridge with nothing on either layer, is left as it is, and a
   * bridge whose other layer is connected has the selected layer's colour cleared.
   */
  lemma RemoveSingleConnectionIdle(g: Geometry, sq: seq<Square>, idx: u16, vertical: bool)
    requires EdgesWalled(g, sq) && LinksConsistent(g, sq) && idx < |sq| && !sq[idx].hole
    requires NoLinkOn(sq[idx], vertical)
    ensures MovesStayOn(g, sq, idx)
    ensures var r := RemovedSingleConnection(g, sq, idx, vertical);
      var s := sq[idx];
      && r == (if !s.bridge || (!s.IsConnected() && s.aboveDirection == NoHalves) then sq
               else sq[idx := ClearedLayer(s, vertical)])
      && LinksConsistent(g, r)
  {
    MovesStayOnWalled(g, sq, idx);
    var s := sq[idx];
    assert Layered(s);
    if s.bridge {
      if vertical {
        assert !s.HasLink(North) && !s.HasLink(South);
      } else {
        assert !s.HasLink(East) && !s.HasLink(West);
      }
    } else {
      assert !s.HasLink(North) && !s.HasLink(East) && !s.HasLink(South) && !s.HasLink(West);
      assert !s.IsConnected();
    }
    var r := RemovedSingleConnection(g, sq, idx, vertical);
    forall k | 0 <= k < |sq|
      ensures SameLayout(sq[k], r[k]) && Layered(r[k])
    {
    }
    SameLinksConsistent(g, sq, r);
  }

  /** The layout of every cell is the same on both boards. */
  predicate SameLayouts(a: seq<Square>, b: seq<Square>)
  {
    |a| == |b| && forall k :: 0 <= k < |a| ==> SameLayout(a[k], b[k])
  }

  /** Whether a board is playable depends on its layout only. */
  lemma PlayableByLayout(g: Geometry, sq: seq<Square>, r: seq<Square>)
    requires Playable(g, sq) && SameLayouts(sq, r)
    ensures Playable(g, r)
  {
    forall i, d | 0 <= i < |r|
      ensures SameLayout(Next(g, sq, i, d), Next(g, r, i, d)) && SameLayout(sq[i], r[i])
    {
      NeighbourInBoard(g, |r|, i, d);
      var j := Neighbour(g, |r|, i, d);
      assert Next(g, r, i, d) == r[j] && Next(g, sq, i, d) == sq[j];
    }
    forall i, d | 0 <= i < |r| && !r[i].hole && !r[i].walls.Has(d)
      ensures (g.warp || !OnEdge(g, i, d)) && !Next(g, r, i, d).hole
    {
      assert SameLayout(Next(g, sq, i, d), Next(g, r, i, d)) && SameLayout(sq[i], r[i]);
    }
  }

  /** The per-cell part of Level::reset_board (main.cpp:641-662). */
  function ResetSquare(s: Square): (r: Square)
    ensures SameLayout(s, r)
    ensures r.direction == NoDirs
    ensures r.aboveDirection == (if s.bridge then NoHalves else s.aboveDirection)
    ensures r.color == (if s.IsConnected() && !s.source then 0 else s.color)
    ensures r.aboveColor == (if s.bridge && s.aboveDirection != NoHalves then 0 else s.aboveColor)
  {
    var s1 := if s.IsConnected() then s.(direction := NoDirs, color := if s.source then s.color else 0) else s;
    if s1.bridge && s1.aboveDirection != NoHalves then s1.(aboveDirection := NoHalves, aboveColor := 0) else s1
  }

  function ResetSquares(sq: seq<Square>): (r: seq<Square>)
    ensures |r| == |sq| && forall i :: 0 <= i < |sq| ==> r[i] == ResetSquare(sq[i])
  {
    seq(|sq|, i requires 0 <= i < |sq| => ResetSquare(sq[i]))
  }

  /**
   * After reset_board no cell holds a connection on either layer, so paths are
   * trivially consistent; sources keep their colour, and layouts are unchanged.
   */
  lemma ResetClearsPaths(g: Geometry, sq: seq<Square>)
    requires Sized(g, |sq|)
    ensures var r := ResetSquares(sq);
      && SameLayouts(sq, r)
      && (forall i, d :: 0 <= i < |r| ==> !r[i].HasLink(d))
      && (forall i :: 0 <= i < |r| && sq[i].source ==> r[i].color == sq[i].color)
      && LinksConsistent(g, r)
  {
    var r := ResetSquares(sq);
    forall i, d | 0 <= i < |r|
      ensures !r[i].HasLink(d)
    {
    }
  }

  /** Resetting twice is resetting once. */
  lemma ResetIdempotent(sq: seq<Square>)
    ensures ResetSquares(ResetSquares(sq)) == ResetSquares(sq)
  {
    var r := ResetSquares(sq);
    forall i | 0 <= i < |sq|
      ensures ResetSquare(r[i]) == r[i]
    {
    }
  }

  /** Level::completed (main.cpp:633-640): every cell is complete. */
  predicate AllComplete(sq: seq<Square>)
  {
    forall i :: 0 <= i < |sq| ==> sq[i].Complete()
  }

  /** A reset cell is complete only when it is a hole: no source is connected and no cell holds two connections. */
  lemma ResetIncomplete(s: Square)
    ensures ResetSquare(s).Complete() <==> s.hole
  {
    var r := ResetSquare(s);
    assert !r.IsConnected() && r.ConnectionCount() == 0;
  }

  /** Right after reset_board, completed() holds only on a board made of holes. */
  lemma ResetUnsolved(sq: seq<Square>)
    ensures AllComplete(ResetSquares(sq)) <==> forall k :: 0 <= k < |sq| ==> sq[k].hole
  {
    forall k | 0 <= k < |sq|
      ensures ResetSquares(sq)[k].Complete() == sq[k].hole
    {
      ResetIncomplete(sq[k]);
    }
  }

  /** Level::load_save (main.cpp:811-822): word i goes to cell i unless that cell is a hole. */
  function LoadedSquares(sq: seq<Square>, data: seq<byte>): (r: seq<Square>)
    requires 2 * |sq| <= |data|
    ensures SameLayouts(sq, r)
  {
    seq(|sq|, i requires 0 <= i < |sq| =>
      if sq[i].hole then sq[i] else sq[i].LoadFrom(ReadU16(data, 2 * i)))
  }

  /** The save words of a board: pack_into of every cell, holes included. */
  function SaveWords(sq: seq<Square>): (r: seq<u16>)
    ensures |r| == |sq|
  {
    seq(|sq|, i requires 0 <= i < |sq| => sq[i].PackInto())
  }

  /** 16-bit words as the little-endian bytes the save file holds. */
  function WordBytes(ws: seq<u16>): (r: seq<byte>)
    ensures |r| == 2 * |ws|
    ensures forall i :: 0 <= i < |ws| ==> ReadU16(r, 2 * i) == ws[i]
  {
    if ws == [] then []
    else
      var pre := WordBytes(ws[..|ws| - 1]);
      ReadLE16(pre, ws[|ws| - 1], []);
      assert pre + LE16(ws[|ws| - 1]) + [] == pre + LE16(ws[|ws| - 1]);
      pre + LE16(ws[|ws| - 1])
  }

  /**
   * Saving a board and loading the words into a board of the same layout restores
   * every cell that is not a hole, provided the colours fit the save word's five
   * bits and plain cells agree on their (unused) overlay; holes keep the target's value.
   */
  lemma SaveLoadRestores(t: seq<Square>, s: seq<Square>)
    requires SameLayouts(t, s)
    requires forall i :: 0 <= i < |s| ==> s[i].color < 32 && (s[i].bridge ==> s[i].aboveColor < 32)
    requires forall i :: 0 <= i < |s| && !s[i].bridge ==>
      s[i].aboveDirection == t[i].aboveDirection && s[i].aboveColor == t[i].aboveColor
    ensures var r := LoadedSquares(t, WordBytes(SaveWords(s)));
      forall i :: 0 <= i < |t| ==> r[i] == if t[i].hole then t[i] else s[i]
  {
    var data := WordBytes(SaveWords(s));
    forall i | 0 <= i < |t| && !t[i].hole
      ensures t[i].LoadFrom(ReadU16(data, 2 * i)) == s[i]
    {
      LoadPacked(s[i], t[i]);
    }
  }

  /** A board saved and loaded back onto itself is unchanged when its colours fit five bits. */
  lemma SaveLoadIdentity(sq: seq<Square>)
    requires forall i :: 0 <= i < |sq| ==> sq[i].color < 32 && (sq[i].bridge ==> sq[i].aboveColor < 32)
    ensures LoadedSquares(sq, WordBytes(SaveWords(sq))) == sq
  {
    SaveLoadRestores(sq, sq);
  }

  /**
   * class Level (main.cpp:498-840): the dimensions, colour count and warp flag the
   * level buffer fixes, and the row-major squares play changes in place.
   */
  class Level {
    const width: int
    const height: int
    const colorCount: int
    const warp: bool
    var squares: seq<Square>

    function Shape(): Geometry
    {
      Geometry(width, height, warp)
    }

    ghost predicate Valid()
      reads this
    {
      0 <= width < 256 && 0 <= height < 256 && 0 <= colorCount < 256 && |squares| == width * height
    }

    /** Level(DataHolder) (main.cpp:563-631). */
    constructor (data: seq<byte>)
      requires LevelFormat.Readable(data)
      ensures width == data[4] as int && height == data[5] as int
      ensures colorCount == data[6] as int && warp == (data[7] != 0)
      ensures squares == LevelFormat.Decoded(data)
      ensures Valid()
    {
      width := data[4] as int;
      height := data[5] as int;
      colorCount := data[6] as int;
      warp := data[7] != 0;
      var cells := LevelFormat.DecodeSquares(data);
      squares := cells;
    }

    /** Level::completed (main.cpp:633-640). */
    method Completed() returns (r: bool)
      ensures r == AllComplete(squares)
    {
      var i := 0;
      while i < |squares|
        invariant 0 <= i <= |squares|
        invariant forall k :: 0 <= k < i ==> squares[k].Complete()
      {
        if !squares[i].Complete() {
          return false;
        }
        i := i + 1;
      }
      return true;
    }

    /** Level::reset_board (main.cpp:641-662). */
    method ResetBoard()
      requires Valid()
      modifies this
      ensures Valid()
      ensures squares == ResetSquares(old(squares))
    {
      var i := 0;
      while i < |squares|
        invariant 0 <= i <= |squares| == |old(squares)|
        invariant forall k :: 0 <= k < i ==> squares[k] == ResetSquare(old(squares)[k])
        invariant forall k :: i <= k < |squares| ==> squares[k] == old(squares)[k]
      {
        var s := squares[i];
        if s.IsConnected() {
          s := s.(direction := NoDirs, color := if s.source then s.color else 0);
        }
        if s.bridge && s.aboveDirection != NoHalves {
          s := s.(aboveDirection := NoHalves, aboveColor := 0);
        }
        squares := squares[i := s];
        i := i + 1;
      }
    }

    /** Level::remove_direction (main.cpp:664-678). */
    method RemoveDirection(idx: u16, d: Dir)
      requires Valid() && idx < |squares|
      modifies this
      ensures Valid()
      ensures squares == RemovedDirection(old(squares), idx, d)
    {
      squares := squares[idx := squares[idx].WithoutDirection(d)];
    }

    /** Level::remove_single_connection (main.cpp:679-735). */
    method RemoveSingleConnection(idx: u16, vertical: bool)
      requires Valid() && width >= 1 && idx < |squares| && MovesStayOn(Shape(), squares, idx)
      modifies this
      ensures Valid()
      ensures squares == RemovedSingleConnection(Shape(), old(squares), idx, vertical)
    {
      var g := Shape();
      var s := squares[idx];
      if s.bridge {
        if !s.IsConnected() && s.aboveDirection == NoHalves {
          return;
        }
        if vertical {
          if s.direction.north {
            RemoveDirection(MoveChecked(g, squares, idx, North, true), South);
          } else if s.direction.south {
            RemoveDirection(MoveChecked(g, squares, idx, South, true), North);
          }
          squares := squares[idx := squares[idx].(color := 0, direction := NoDirs)];
        } else {
          if s.aboveDirection.east {
            RemoveDirection(MoveChecked(g, squares, idx, East, true), West);
          } else if s.aboveDirection.west {
            RemoveDirection(MoveChecked(g, squares, idx, West, true), East);
          }
          squares := squares[idx := squares[idx].(aboveColor := 0, aboveDirection := NoHalves)];
        }
      } else {
        if !s.IsConnected() {
          return;
        }
        if s.direction.north {
          RemoveDirection(MoveChecked(g, squares, idx, North, true), South);
        } else if s.direction.east {
          RemoveDirection(MoveChecked(g, squares, idx, East, true), West);
        } else if s.direction.south {
          RemoveDirection(MoveChecked(g, squares, idx, South, true), North);
        } else {
          RemoveDirection(MoveChecked(g, squares, idx, West, true), East);
        }
        var t := squares[idx];
        squares := squares[idx := t.(direction := NoDirs, color := if t.source then t.color else 0)];
      }
    }

    /** add_direction_color (main.cpp:448-473) on cell idx, as the editor calls it through a reference. */
    method AddDirectionColor(idx: u16, d: Dir, col: byte)
      requires Valid() && idx < |squares|
      modifies this
      ensures Valid()
      ensures squares == old(squares)[idx := old(squares)[idx].AddDirectionColor(d, col)]
    {
      squares := squares[idx := squares[idx].AddDirectionColor(d, col)];
    }

    /** Level::load_save (main.cpp:811-822): one word per cell, holes skipped but counted. */
    method LoadSave(data: seq<byte>)
      requires Valid() && 2 * |squares| <= |data|
      modifies this
      ensures Valid()
      ensures squares == LoadedSquares(old(squares), data)
    {
      var off := 0;
      var i := 0;
      while i < |squares|
        invariant 0 <= i <= |squares| == |old(squares)| && off == 2 * i
        invariant forall k :: 0 <= k < i ==> squares[k] == LoadedSquares(old(squares), data)[k]
        invariant forall k :: i <= k < |squares| ==> squares[k] == old(squares)[k]
      {
        if !squares[i].hole {
          squares := squares[i := squares[i].LoadFrom(ReadU16(data, off))];
        }
        off := off + 2;
        i := i + 1;
      }
    }
  }
}
