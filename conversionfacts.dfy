/**
 * What process_level (convert_level_packs.py:26-177) promises about the walls it
 * collects and the bytes it emits: every wall pair closes both sides of its edge,
 * every cell next to a hole is walled toward it, the border of a non-warp board
 * is walled all round, and the Level constructor (main.cpp:563-631) reads the
 * emitted header and lists back as the converter meant them.
 */
module ConversionFacts {
  import opened Results
  import opened Bytes
  import opened Squares
  import opened WallDicts
  import opened Sorting
  import opened Conversion
  import opened PyText
  import LevelFormat
  import Levels
  import Packs

  // ---------------------------------------------------------------------------
  // The header field

  /**
   * Stripping the decorations of a size gives back the size and the flags W and B
   * set, whatever the characters that fill the decorations out to two.
   */
  lemma UndecoratedDecorated(dim: string, warp: bool, inv: bool, last: bool, w0: char, b0: char, i0: char)
    requires dim != [] && dim[0] != 'W' && dim[|dim| - 1] != 'I' && dim[|dim| - 1] != 'B'
    ensures Undecorated(Decorated(dim, warp, inv, last, w0, b0, i0)) == Some((dim, warp, inv))
  {
    var s2 := if inv then dim + [b0, 'B'] else dim;
    var s1 := if warp then ['W', w0] + s2 else s2;
    var s0 := if last then s1 + [i0, 'I'] else s1;
    StripB(dim, inv, b0);
    StripW(s2, warp, w0);
    StripI(s1, last, i0);
  }

  /** Undoing the B suffix: the last character says whether it was added. */
  lemma StripB(dim: string, inv: bool, b0: char)
    requires dim != [] && dim[|dim| - 1] != 'B'
    ensures var s2 := if inv then dim + [b0, 'B'] else dim;
      && s2 != [] && s2[0] == dim[0] && (s2[|s2| - 1] == 'B' <==> inv)
      && (inv || s2[|s2| - 1] == dim[|dim| - 1])
      && (if s2[|s2| - 1] == 'B' then DropLast2(s2) else s2) == dim
  {
    if inv {
      var s2 := dim + [b0, 'B'];
      assert s2[..|s2| - 2] == dim;
    }
  }

  /** Undoing the W prefix: the first character says whether it was added. */
  lemma StripW(s2: string, warp: bool, w0: char)
    requires s2 != [] && s2[0] != 'W'
    ensures var s1 := if warp then ['W', w0] + s2 else s2;
      && s1 != [] && (s1[0] == 'W' <==> warp) && s1[|s1| - 1] == s2[|s2| - 1]
      && (if s1[0] == 'W' then DropFirst2(s1) else s1) == s2
  {
    if warp {
      var s1 := ['W', w0] + s2;
      assert s1[2..] == s2;
    }
  }

  /** Undoing the I suffix: the last character says whether it was added. */
  lemma StripI(s1: string, last: bool, i0: char)
    requires s1 != [] && s1[|s1| - 1] != 'I'
    ensures var s0 := if last then s1 + [i0, 'I'] else s1;
      && s0 != [] && (s0[|s0| - 1] == 'I' <==> last)
      && (if s0[|s0| - 1] == 'I' then DropLast2(s0) else s0) == s1
  {
    if last {
      var s0 := s1 + [i0, 'I'];
      assert s0[..|s0| - 2] == s1;
    }
  }

  /** A run of digits holds no colon. */
  lemma NoColon(n: nat)
    ensures ':' !in NatText(n)
  {
  }

  /**
   * "u:v" gives both numbers, as width and height in that order exactly when one
   * of W and B is set and swapped otherwise.
   */
  lemma DimsPair(u: nat, v: nat, warp: bool, inv: bool)
    ensures Dims(NatText(u) + [':'] + NatText(v), warp, inv) == Some(if warp != inv then (u, v) else (v, u))
  {
    NoColon(u);
    NoColon(v);
    IntTextRoundTrip(u);
    IntTextRoundTrip(v);
    DimsOfPair(NatText(u), NatText(v), u, v, warp, inv);
  }

  /** Two colon-free fields that parse as u and v, joined by a colon. */
  lemma DimsOfPair(a: string, b: string, u: int, v: int, warp: bool, inv: bool)
    requires ':' !in a && ':' !in b && ParseInt(a) == Some(u) && ParseInt(b) == Some(v)
    ensures Dims(a + [':'] + b, warp, inv) == Some(if warp != inv then (u, v) else (v, u))
  {
    var s := a + [':'] + b;
    assert s[|a|] == ':';
    assert [a, b][1..] == [b];
    assert Join([a, b], ':') == s;
    SplitJoin([a, b], ':');
  }

  /** A single number gives a square board of that size. */
  lemma DimsSquare(n: nat, warp: bool, inv: bool)
    ensures Dims(NatText(n), warp, inv) == Some((n, n))
  {
    NoColon(n);
    IntTextRoundTrip(n);
  }

  /**
   * process_level returns no bytes exactly for a hex level, one whose level and
   * colour fields parse and whose dimension field starts with X; every other
   * level it emits at least a header.
   */
  lemma HexSkipped(l: string)
    ensures var first := Split(Split(l, ';')[0], ',');
      ParseLine(l) == Ok(Hex) <==>
        |first| >= 4 && ParseInt(first[2]).Some? && ParseInt(first[3]).Some? && first[0] != [] && first[0][0] == 'X'
    ensures Processed(l) == Ok([]) <==> ParseLine(l) == Ok(Hex)
  {
    var parsed := ParseLine(l);
    if parsed.Ok? && parsed.value.Text? {
      var t := parsed.value;
      if LevelWalls(t).Ok? && Points(t.rows, Times(t.colors)).Ok? {
        var w, p := LevelWalls(t).value, Points(t.rows, Times(t.colors)).value;
        if Emitted(t.board, t.colors, t.bridges, t.holes, w, p.0, p.1).Ok? {
          EmittedHeader(t.board, t.colors, t.bridges, t.holes, w, p.0, p.1);
        }
      }
    }
  }

  // ---------------------------------------------------------------------------
  // The wall dictionary

  /**
   * The side a wall pair a|c closes on a faces c: east when c is the next cell,
   * south when c is the cell below, and on a warp board north when c is a's cell
   * across the top/bottom seam and west when c ends a's row across the left/right
   * seam.
   */
  lemma PairSideFaces(b: Board, a: int, c: int)
    requires b.x >= 2 && b.y >= 2 && 0 <= a
    ensures c == a + 1 ==> PairSide(b, a, c) == Some(East)
    ensures c == a + b.x && (b.warp ==> b.y >= 3) ==> PairSide(b, a, c) == Some(South)
    ensures b.warp && a < b.x && c == a + b.x * (b.y - 1) ==> PairSide(b, a, c) == Some(North)
    ensures b.warp && b.x >= 3 && a % b.x == 0 && c == a + b.x - 1 ==> PairSide(b, a, c) == Some(West)
  {
    if c == a + b.x && (b.warp ==> b.y >= 3) {
      PairSideSouth(b, a);
    }
    if b.warp && a < b.x && c == a + b.x * (b.y - 1) {
      PairSideNorth(b, a);
    }
    if b.warp && b.x >= 3 && a % b.x == 0 && c == a + b.x - 1 {
      PairSideWest(b, a);
    }
  }

  /** A pair with the cell below, away from a seam. */
  lemma PairSideSouth(b: Board, a: int)
    requires b.x >= 2 && b.y >= 2 && 0 <= a && (b.warp ==> b.y >= 3)
    ensures PairSide(b, a, a + b.x) == Some(South)
  {
    var q, r := a / b.x, a % b.x;
    Levels.DivModOf(b.x, q + 1, r);
    assert a + b.x == (q + 1) * b.x + r;
    if b.warp {
      assert b.x * (b.y - 1) == b.x * (b.y - 3) + 2 * b.x;
      assert b.x * (b.y - 3) >= 0;
    }
  }

  /** A pair across the top/bottom seam of a warp board. */
  lemma PairSideNorth(b: Board, a: int)
    requires b.x >= 2 && b.y >= 2 && 0 <= a < b.x && b.warp
    ensures PairSide(b, a, a + b.x * (b.y - 1)) == Some(North)
  {
    assert b.x * (b.y - 1) == b.x * (b.y - 2) + b.x;
    assert b.x * (b.y - 2) >= 0;
  }

  /** A pair across the left/right seam of a warp board. */
  lemma PairSideWest(b: Board, a: int)
    requires b.x >= 3 && b.y >= 2 && 0 <= a && a % b.x == 0 && b.warp
    ensures PairSide(b, a, a + b.x - 1) == Some(West)
  {
    var q := a / b.x;
    assert a == q * b.x;
    Levels.DivModOf(b.x, q, b.x - 1);
    assert a + b.x - 1 == q * b.x + (b.x - 1);
    if a < b.x {
      assert b.x * (b.y - 1) == b.x * (b.y - 2) + b.x;
      assert b.x * (b.y - 2) >= 0;
    }
  }

  /**
   * Wall pair k of the line closes, on its first cell, the side PairSide picks
   * and, on its second cell, the opposite side; later pairs never reopen them.
   */
  lemma {:induction false} PairWallsHold(b: Board, ws: seq<string>, k: nat)
    requires k < |ws| && PairWalls(b, ws).Ok?
    ensures WallPair(ws[k]).Some?
    ensures var a, c := WallPair(ws[k]).value.0, WallPair(ws[k]).value.1;
      && PairSide(b, a, c).Some?
      && PairWalls(b, ws).value.Get(a).Has(PairSide(b, a, c).value)
      && PairWalls(b, ws).value.Get(c).Has(PairSide(b, a, c).value.Opposite())
    decreases |ws|
  {
    var init := ws[..|ws| - 1];
    var w0 := PairWalls(b, init).value;
    var pair := WallPair(ws[|ws| - 1]).value;
    var r := PairStep(b, w0, pair.0, pair.1);
    assert PairWalls(b, ws) == r;
    if k < |ws| - 1 {
      PairWallsHold(b, init, k);
      assert init[k] == ws[k];
    }
  }

  /** The wall HoleSide adds is on the cell next to the hole, on the side facing it, unless that cell is a hole. */
  lemma HoleSideFaces(b: Board, holes: seq<int>, w: Walls, h: int, d: Dir)
    requires w.Valid() && (b.x != 0 || d.Vertical())
    ensures var t := HoleTarget(b, h, d);
      t.Some? && t.value !in holes ==> HoleSide(b, holes, w, h, d).Get(t.value).Has(d.Opposite())
  {
  }

  /** One hole walls its four neighbours (those that are not holes) on the sides facing it. */
  lemma HoleStepFaces(b: Board, holes: seq<int>, w: Walls, h: int, d: Dir)
    requires w.Valid() && HoleStep(b, holes, w, h).Ok?
    ensures b.x != 0
    ensures var t := HoleTarget(b, h, d);
      t.Some? && t.value !in holes ==> HoleStep(b, holes, w, h).value.Get(t.value).Has(d.Opposite())
  {
    var w1 := HoleSide(b, holes, w, h, North);
    var w2 := HoleSide(b, holes, w1, h, South);
    var w3 := HoleSide(b, holes, w2, h, West);
    var w4 := HoleSide(b, holes, w3, h, East);
    assert HoleStep(b, holes, w, h).value == w4;
    match d {
      case North => HoleSideFaces(b, holes, w, h, North);
      case South => HoleSideFaces(b, holes, w1, h, South);
      case West => HoleSideFaces(b, holes, w2, h, West);
      case East => HoleSideFaces(b, holes, w3, h, East);
    }
  }

  /**
   * After the hole loop, the cell next to hole k toward d (wrapping on warp
   * boards, none past the edge of other boards) is walled on the side facing
   * the hole, unless it is a hole itself.
   */
  lemma {:induction false} HoleWallsFace(b: Board, holes: seq<int>, hs: seq<int>, w: Walls, k: nat, d: Dir)
    requires w.Valid() && k < |hs| && HoleWalls(b, holes, hs, w).Ok?
    ensures b.x != 0
    ensures var t := HoleTarget(b, hs[k], d);
      t.Some? && t.value !in holes ==> HoleWalls(b, holes, hs, w).value.Get(t.value).Has(d.Opposite())
    decreases |hs|
  {
    var init := hs[..|hs| - 1];
    var w1 := HoleWalls(b, holes, init, w).value;
    var r := HoleStep(b, holes, w1, hs[|hs| - 1]);
    assert HoleWalls(b, holes, hs, w) == r;
    if k < |hs| - 1 {
      HoleWallsFace(b, holes, init, w, k, d);
      assert init[k] == hs[k];
    } else {
      HoleStepFaces(b, holes, w1, hs[|hs| - 1], d);
    }
  }

  /** The first border loop walls the top of column k and the bottom of the k-th cell from the end. */
  lemma {:induction false} TopBottomHolds(b: Board, holes: seq<int>, w: Walls, n: nat, k: nat)
    requires w.Valid() && k < n
    ensures k !in holes ==> TopBottom(b, holes, w, n).Get(k).Has(North)
    ensures Total(b) - k - 1 !in holes ==> TopBottom(b, holes, w, n).Get(Total(b) - k - 1).Has(South)
    decreases n
  {
    var w0 := TopBottom(b, holes, w, n - 1);
    var w1 := AddCond(w0, holes, n - 1, North);
    var w2 := AddCond(w1, holes, Total(b) - (n - 1) - 1, South);
    assert TopBottom(b, holes, w, n) == w2;
    if k < n - 1 {
      TopBottomHolds(b, holes, w, n - 1, k);
    }
  }

  /** The second border loop walls the west side of the first cell of row k and the east side of its last cell. */
  lemma {:induction false} SidesHold(b: Board, holes: seq<int>, w: Walls, n: nat, k: nat)
    requires w.Valid() && k < n
    ensures k * b.x !in holes ==> Sides(b, holes, w, n).Get(k * b.x).Has(West)
    ensures k * b.x + b.x - 1 !in holes ==> Sides(b, holes, w, n).Get(k * b.x + b.x - 1).Has(East)
    decreases n
  {
    var w0 := Sides(b, holes, w, n - 1);
    var p1 := (n - 1) * b.x;
    var w1 := AddCond(w0, holes, p1, West);
    var w2 := AddCond(w1, holes, p1 + b.x - 1, East);
    assert Sides(b, holes, w, n) == w2;
    if k < n - 1 {
      SidesHold(b, holes, w, n - 1, k);
    }
  }

  /**
   * On a non-warp board every cell of the top row is walled to the north and
   * every cell of the bottom row to the south, holes excepted.
   */
  lemma BorderRows(b: Board, holes: seq<int>, w: Walls, col: int)
    requires w.Valid() && !b.warp && 0 <= col < b.x
    ensures col !in holes ==> BorderWalls(b, holes, w).Get(col).Has(North)
    ensures Total(b) - col - 1 !in holes ==> BorderWalls(b, holes, w).Get(Total(b) - col - 1).Has(South)
  {
    var w1 := TopBottom(b, holes, w, Times(b.x));
    TopBottomHolds(b, holes, w, Times(b.x), col);
    assert Sides(b, holes, w1, Times(b.y)).Covers(w1);
  }

  /**
   * On a non-warp board the first cell of every row is walled to the west and
   * the last cell to the east, holes excepted.
   */
  lemma BorderColumns(b: Board, holes: seq<int>, w: Walls, row: int)
    requires w.Valid() && !b.warp && 0 <= row < b.y
    ensures row * b.x !in holes ==> BorderWalls(b, holes, w).Get(row * b.x).Has(West)
    ensures row * b.x + b.x - 1 !in holes ==> BorderWalls(b, holes, w).Get(row * b.x + b.x - 1).Has(East)
  {
    var w1 := TopBottom(b, holes, w, Times(b.x));
    SidesHold(b, holes, w1, Times(b.y), row);
  }

  /** The walls of a level hold every wall pair of its line, on both cells. */
  lemma LevelWallsPair(t: LevelText, k: nat)
    requires t.Text? && LevelWalls(t).Ok? && k < |t.wallPairs|
    ensures WallPair(t.wallPairs[k]).Some?
    ensures var a, c := WallPair(t.wallPairs[k]).value.0, WallPair(t.wallPairs[k]).value.1;
      && PairSide(t.board, a, c).Some?
      && LevelWalls(t).value.Get(a).Has(PairSide(t.board, a, c).value)
      && LevelWalls(t).value.Get(c).Has(PairSide(t.board, a, c).value.Opposite())
  {
    var w1 := PairWalls(t.board, t.wallPairs).value;
    var w2 := HoleWalls(t.board, t.holes, t.holes, w1).value;
    PairWallsHold(t.board, t.wallPairs, k);
    assert BorderWalls(t.board, t.holes, w2).Covers(w1);
  }

  /** The walls of a level close every side that faces a hole from a cell that is not one. */
  lemma LevelWallsHole(t: LevelText, k: nat, d: Dir)
    requires t.Text? && LevelWalls(t).Ok? && k < |t.holes|
    ensures t.board.x != 0
    ensures var n := HoleTarget(t.board, t.holes[k], d);
      n.Some? && n.value !in t.holes ==> LevelWalls(t).value.Get(n.value).Has(d.Opposite())
  {
    var w1 := PairWalls(t.board, t.wallPairs).value;
    var w2 := HoleWalls(t.board, t.holes, t.holes, w1).value;
    HoleWallsFace(t.board, t.holes, t.holes, w1, k, d);
    assert BorderWalls(t.board, t.holes, w2).Covers(w2);
  }

  /** The walls of a non-warp level close its whole border, except on holes. */
  lemma LevelWallsBorder(t: LevelText, col: int, row: int)
    requires t.Text? && LevelWalls(t).Ok? && !t.board.warp
    requires 0 <= col < t.board.x && 0 <= row < t.board.y
    ensures var w, x := LevelWalls(t).value, t.board.x;
      && (col !in t.holes ==> w.Get(col).Has(North))
      && (Total(t.board) - col - 1 !in t.holes ==> w.Get(Total(t.board) - col - 1).Has(South))
      && (row * x !in t.holes ==> w.Get(row * x).Has(West))
      && (row * x + x - 1 !in t.holes ==> w.Get(row * x + x - 1).Has(East))
  {
    var w1 := PairWalls(t.board, t.wallPairs).value;
    var w2 := HoleWalls(t.board, t.holes, t.holes, w1).value;
    BorderRows(t.board, t.holes, w2, col);
    BorderColumns(t.board, t.holes, w2, row);
  }

  // ---------------------------------------------------------------------------
  // The source pairs

  /** Colour c (counted from 0) is listed on row c + 1 with at least two points. */
  predicate Listed(rows: seq<string>, c: nat)
  {
    c + 1 < |rows| && IntList(Split(rows[c + 1], ',')).Some? && |IntList(Split(rows[c + 1], ',')).value| >= 2
  }

  /** The points colour c lists. */
  function PointsOf(rows: seq<string>, c: nat): seq<int>
    requires Listed(rows, c)
  {
    IntList(Split(rows[c + 1], ',')).value
  }

  /** One more colour with two or more points adds its first and last point to the pairs. */
  lemma PointsStep(rows: seq<string>, k: nat, p: (seq<int>, seq<int>))
    requires 0 < k && Points(rows, k - 1) == Ok(p) && Listed(rows, k - 1)
    ensures var xs := PointsOf(rows, k - 1);
      Points(rows, k) == Ok((p.0 + [xs[0]], p.1 + [xs[|xs| - 1]]))
  {
  }

  /** The first point of a colour's list, and its last; 0 for an empty list. */
  function First(x: seq<int>): int { if x == [] then 0 else x[0] }
  function Last(x: seq<int>): int { if x == [] then 0 else x[|x| - 1] }

  /** The begins and the ends the point loop collects from the lists xs, colour by colour. */
  function Ends(xs: seq<seq<int>>): (r: (seq<int>, seq<int>))
    ensures |r.0| == |xs| && |r.1| == |xs|
  {
    if xs == [] then ([], [])
    else
      var p, x := Ends(xs[..|xs| - 1]), xs[|xs| - 1];
      (p.0 + [First(x)], p.1 + [Last(x)])
  }

  /** One more list adds its first point to the begins and its last to the ends. */
  lemma EndsSnoc(xs: seq<seq<int>>, x: seq<int>)
    ensures Ends(xs + [x]) == (Ends(xs).0 + [First(x)], Ends(xs).1 + [Last(x)])
  {
    assert (xs + [x])[..|xs|] == xs;
  }

  /** Begin c and end c are the first and last point of list c. */
  lemma {:induction false} EndsAt(xs: seq<seq<int>>, c: nat)
    requires c < |xs|
    ensures Ends(xs).0[c] == First(xs[c]) && Ends(xs).1[c] == Last(xs[c])
    decreases |xs|
  {
    if c < |xs| - 1 {
      var init := xs[..|xs| - 1];
      EndsAt(init, c);
      assert init[c] == xs[c];
    }
  }

  /** One more listed colour: the point loop collects the ends of one more list. */
  lemma EndsStep(rows: seq<string>, k: nat, xs0: seq<seq<int>>)
    requires 0 < k && Points(rows, k - 1) == Ok(Ends(xs0)) && Listed(rows, k - 1)
    ensures Points(rows, k) == Ok(Ends(xs0 + [PointsOf(rows, k - 1)]))
  {
    PointsStep(rows, k, Ends(xs0));
    EndsSnoc(xs0, PointsOf(rows, k - 1));
  }

  /** The point loop over colours that each list two points or more collects the ends of their lists. */
  lemma {:induction false} PointsEnds(rows: seq<string>, k: nat, c: nat) returns (xs: seq<seq<int>>)
    requires forall i: nat :: i < k ==> Listed(rows, i)
    requires c < k
    ensures |xs| == k && Points(rows, k) == Ok(Ends(xs))
    ensures Listed(rows, c) && xs[c] == PointsOf(rows, c)
    decreases k
  {
    var xs0: seq<seq<int>> := [];
    if k > 1 {
      xs0 := PointsEnds(rows, k - 1, if c < k - 1 then c else 0);
    }
    assert Listed(rows, k - 1) && Listed(rows, c);
    EndsStep(rows, k, xs0);
    xs := xs0 + [PointsOf(rows, k - 1)];
    if c < k - 1 {
      assert xs[c] == xs0[c];
    }
  }

  /**
   * When every colour lists at least two points, the point loop pairs colour
   * c's first point (points_begin) with its last (points_end).
   */
  lemma PointsPair(rows: seq<string>, k: nat, c: nat)
    requires forall i: nat :: i < k ==> Listed(rows, i)
    requires c < k
    ensures Points(rows, k).Ok? && |Points(rows, k).value.0| == k && |Points(rows, k).value.1| == k
    ensures Listed(rows, c)
    ensures var p, xs := Points(rows, k).value, PointsOf(rows, c);
      p.0[c] == xs[0] && p.1[c] == xs[|xs| - 1]
  {
    var xs := PointsEnds(rows, k, c);
    EndsAt(xs, c);
  }

  // ---------------------------------------------------------------------------
  // The emitted bytes

  /** The decoder's list reader takes back the words written as little-endian bytes. */
  lemma {:induction false} IndexListOfWords(data: seq<byte>, off: nat, ws: seq<u16>)
    requires off + 2 * |ws| <= |data| && data[off..off + 2 * |ws|] == Levels.WordBytes(ws)
    ensures LevelFormat.IndexList(data, off, |ws|) == ws
  {
    var r := LevelFormat.IndexList(data, off, |ws|);
    var wb := Levels.WordBytes(ws);
    forall j | 0 <= j < |ws|
      ensures r[j] == ws[j]
    {
      assert data[off + 2 * j] == wb[2 * j] && data[off + 2 * j + 1] == wb[2 * j + 1];
      assert ReadU16(data, off + 2 * j) == ReadU16(wb, 2 * j);
    }
  }

  /** The bytes of a level before padding: header, source pairs, bridges, holes and walls. */
  function Body(b: Board, colors: int, bridges: seq<int>, holes: seq<int>, w: Walls, bs: seq<int>, es: seq<int>): (r: seq<byte>)
    requires 0 <= b.x < 256 && 0 <= b.y < 256 && 0 <= colors < 256
    requires |bridges| < 0x1_0000_0000 && |holes| < 0x1_0000_0000 && |w.order| < 0x1_0000_0000
    requires Fits16(bs[..Min(|bs|, |es|)]) && Fits16(es[..Min(|bs|, |es|)]) && Fits16(Sort(bridges)) && Fits16(Sort(holes))
    ensures |r| == 20 + 4 * Min(|bs|, |es|) + 2 * |bridges| + 2 * |holes| + 2 * |w.order|
    ensures Emitted(b, colors, bridges, holes, w, bs, es) == Ok(Padded(r))
  {
    var n := Min(|bs|, |es|);
    Header(b, colors, |bridges|, |holes|, |w.order|)
      + PairBytes(bs[..n], es[..n])
      + Levels.WordBytes(AsWords(Sort(bridges)))
      + Levels.WordBytes(AsWords(Sort(holes)))
      + Levels.WordBytes(WallWords(w))
  }

  /** A sequence built from a head keeps it as its prefix. */
  lemma {:induction false} PrefixOfAppend(h: seq<byte>, x1: seq<byte>, x2: seq<byte>, x3: seq<byte>, x4: seq<byte>)
    ensures (h + x1 + x2 + x3 + x4)[..|h|] == h
  {
    var u := h + x1 + x2 + x3 + x4;
    assert u == h + (x1 + x2 + x3 + x4);
  }

  /** A buffer that starts with a header gives back every field of it. */
  lemma HeaderRead(out: seq<byte>, b: Board, colors: int, nb: u32, nh: u32, nw: u32)
    requires 0 <= b.x < 256 && 0 <= b.y < 256 && 0 <= colors < 256
    requires |out| >= 20 && out[..20] == Header(b, colors, nb, nh, nw)
    ensures LevelFormat.HasMagic(out)
    ensures out[4] == b.x && out[5] == b.y && out[6] == colors && out[7] == (if b.warp then 1 else 0)
    ensures LevelFormat.BridgeCount(out) == nb && LevelFormat.HoleCount(out) == nh && LevelFormat.WallCount(out) == nw
  {
    var h := Header(b, colors, nb, nh, nw);
    assert h[..4] == LevelFormat.Magic && h[8..12] == LE32(nb) && h[12..16] == LE32(nh) && h[16..20] == LE32(nw);
    assert out[..4] == out[..20][..4];
    assert out[8..12] == out[..20][8..12];
    assert out[12..16] == out[..20][12..16];
    assert out[16..20] == out[..20][16..20];
    assert out[4] == h[4] && out[5] == h[5] && out[6] == h[6] && out[7] == h[7];
    ReadU32At(out, 8, nb);
    ReadU32At(out, 12, nh);
    ReadU32At(out, 16, nw);
  }

  /** Padding keeps the header of a level in place. */
  lemma PaddedHeader(body: seq<byte>, b: Board, colors: int, nb: u32, nh: u32, nw: u32)
    requires 0 <= b.x < 256 && 0 <= b.y < 256 && 0 <= colors < 256
    requires |body| >= 20 && body[..20] == Header(b, colors, nb, nh, nw)
    ensures var out := Padded(body);
      && |out| >= 20 && |out| % 4 == 0
      && LevelFormat.HasMagic(out)
      && out[4] == b.x && out[5] == b.y && out[6] == colors && out[7] == (if b.warp then 1 else 0)
      && LevelFormat.BridgeCount(out) == nb && LevelFormat.HoleCount(out) == nh && LevelFormat.WallCount(out) == nw
  {
    var out := Padded(body);
    assert out[..20] == out[..|body|][..20];
    HeaderRead(out, b, colors, nb, nh, nw);
  }

  /**
   * The header of an emitted level ("<4s3B?3I"): the CLFL tag, width, height,
   * colour count and warp flag in bytes 4-7, and the numbers of bridges, holes
   * and walled cells as u32 at offsets 8, 12 and 16, as the decoder reads them;
   * the whole level is padded to a multiple of four bytes.
   */
  lemma EmittedHeader(b: Board, colors: int, bridges: seq<int>, holes: seq<int>, w: Walls, bs: seq<int>, es: seq<int>)
    requires Emitted(b, colors, bridges, holes, w, bs, es).Ok?
    ensures var out := Emitted(b, colors, bridges, holes, w, bs, es).value;
      && |out| >= 20 && |out| % 4 == 0
      && LevelFormat.HasMagic(out)
      && out[4] == b.x && out[5] == b.y && out[6] == colors && out[7] == (if b.warp then 1 else 0)
      && LevelFormat.BridgeCount(out) == |bridges|
      && LevelFormat.HoleCount(out) == |holes|
      && LevelFormat.WallCount(out) == |w.order|
  {
    var n := Min(|bs|, |es|);
    var body := Body(b, colors, bridges, holes, w, bs, es);
    PrefixOfAppend(Header(b, colors, |bridges|, |holes|, |w.order|), PairBytes(bs[..n], es[..n]),
      Levels.WordBytes(AsWords(Sort(bridges))), Levels.WordBytes(AsWords(Sort(holes))), Levels.WordBytes(WallWords(w)));
    PaddedHeader(body, b, colors, |bridges|, |holes|, |w.order|);
  }

  /** Run b sits at offset o of out. */
  predicate Placed(out: seq<byte>, o: nat, b: seq<byte>)
  {
    o + |b| <= |out| && out[o..o + |b|] == b
  }

  /** Runs b1, b2 and b3 sit back to back from offset o of out. */
  predicate Placed3(out: seq<byte>, o: nat, b1: seq<byte>, b2: seq<byte>, b3: seq<byte>)
  {
    Placed(out, o, b1) && Placed(out, o + |b1|, b2) && Placed(out, o + |b1| + |b2|, b3)
  }

  /** Four runs written back to back sit at their offsets in any buffer that starts with them. */
  lemma {:induction false} Runs(out: seq<byte>, u: seq<byte>, pre: seq<byte>, b1: seq<byte>, b2: seq<byte>, b3: seq<byte>)
    requires u == pre + b1 + b2 + b3 && u <= out
    ensures Placed3(out, |pre|, b1, b2, b3)
  {
    var o1, o2, o3 := |pre|, |pre| + |b1|, |pre| + |b1| + |b2|;
    forall i | 0 <= i < |b1| ensures out[o1..o2][i] == b1[i] {
      assert out[o1 + i] == u[o1 + i];
    }
    forall i | 0 <= i < |b2| ensures out[o2..o3][i] == b2[i] {
      assert out[o2 + i] == u[o2 + i];
    }
    forall i | 0 <= i < |b3| ensures out[o3..o3 + |b3|][i] == b3[i] {
      assert out[o3 + i] == u[o3 + i];
    }
  }

  /** A level whose three lists fit in the buffer is readable. */
  lemma ReadableOf(out: seq<byte>, n1: nat, n2: nat, n3: nat)
    requires |out| >= 20 && LevelFormat.HasMagic(out)
    requires LevelFormat.BridgeCount(out) == n1 && LevelFormat.HoleCount(out) == n2 && LevelFormat.WallCount(out) == n3
    requires LevelFormat.BridgesOffset(out) + 2 * n1 + 2 * n2 + 2 * n3 <= |out|
    ensures LevelFormat.Readable(out)
  {
  }

  /**
   * The header counts of the level match three word lists written back to back
   * after the colour pairs.
   */
  predicate Laid(out: seq<byte>, ws1: seq<u16>, ws2: seq<u16>, ws3: seq<u16>)
  {
    && |out| >= 20 && LevelFormat.HasMagic(out)
    && LevelFormat.BridgeCount(out) == |ws1| && LevelFormat.HoleCount(out) == |ws2| && LevelFormat.WallCount(out) == |ws3|
    && Placed3(out, LevelFormat.BridgesOffset(out), Levels.WordBytes(ws1), Levels.WordBytes(ws2), Levels.WordBytes(ws3))
  }

  /** Padding keeps three word lists written after the colour pairs where the header says they are. */
  lemma PaddedLaid(body: seq<byte>, pre: seq<byte>, ws1: seq<u16>, ws2: seq<u16>, ws3: seq<u16>)
    requires body == pre + Levels.WordBytes(ws1) + Levels.WordBytes(ws2) + Levels.WordBytes(ws3)
    requires var out := Padded(body);
      && |out| >= 20 && LevelFormat.HasMagic(out) && |pre| == LevelFormat.BridgesOffset(out)
      && LevelFormat.BridgeCount(out) == |ws1| && LevelFormat.HoleCount(out) == |ws2| && LevelFormat.WallCount(out) == |ws3|
    ensures Laid(Padded(body), ws1, ws2, ws3)
  {
    assert body <= Padded(body);
    LaidIn(Padded(body), body, pre, ws1, ws2, ws3);
  }

  /** Any buffer that starts with the level's bytes holds the three word lists where its header says. */
  lemma LaidIn(out: seq<byte>, body: seq<byte>, pre: seq<byte>, ws1: seq<u16>, ws2: seq<u16>, ws3: seq<u16>)
    requires body == pre + Levels.WordBytes(ws1) + Levels.WordBytes(ws2) + Levels.WordBytes(ws3)
    requires body <= out
    requires |out| >= 20 && LevelFormat.HasMagic(out) && |pre| == LevelFormat.BridgesOffset(out)
    requires LevelFormat.BridgeCount(out) == |ws1| && LevelFormat.HoleCount(out) == |ws2| && LevelFormat.WallCount(out) == |ws3|
    ensures Laid(out, ws1, ws2, ws3)
  {
    var b1, b2, b3 := Levels.WordBytes(ws1), Levels.WordBytes(ws2), Levels.WordBytes(ws3);
    Runs(out, body, pre, b1, b2, b3);
  }

  /** The decoder reads the first laid list as the bridges. */
  lemma LaidBridges(out: seq<byte>, ws1: seq<u16>, ws2: seq<u16>, ws3: seq<u16>)
    requires Laid(out, ws1, ws2, ws3)
    ensures LevelFormat.Readable(out) && LevelFormat.ListsOf(out).bridges == ws1
  {
    ReadableOf(out, |ws1|, |ws2|, |ws3|);
    IndexListOfWords(out, LevelFormat.BridgesOffset(out), ws1);
  }

  /** The decoder reads the second laid list as the holes. */
  lemma LaidHoles(out: seq<byte>, ws1: seq<u16>, ws2: seq<u16>, ws3: seq<u16>)
    requires Laid(out, ws1, ws2, ws3)
    ensures LevelFormat.Readable(out) && LevelFormat.ListsOf(out).holes == ws2
  {
    ReadableOf(out, |ws1|, |ws2|, |ws3|);
    IndexListOfWords(out, LevelFormat.HolesOffset(out), ws2);
  }

  /** The decoder reads the third laid list as the wall records. */
  lemma LaidWalls(out: seq<byte>, ws1: seq<u16>, ws2: seq<u16>, ws3: seq<u16>)
    requires Laid(out, ws1, ws2, ws3)
    ensures LevelFormat.Readable(out) && LevelFormat.ListsOf(out).walls == ws3
  {
    ReadableOf(out, |ws1|, |ws2|, |ws3|);
    IndexListOfWords(out, LevelFormat.WallsOffset(out), ws3);
  }

  /**
   * When every colour has its pair (as the converter emits one pair per colour
   * that lists two points), the decoder finds the lists where the converter put
   * them: the sorted bridges, the sorted holes and the wall records in key order.
   */
  lemma EmittedLists(b: Board, colors: int, bridges: seq<int>, holes: seq<int>, w: Walls, bs: seq<int>, es: seq<int>)
    requires Emitted(b, colors, bridges, holes, w, bs, es).Ok? && Min(|bs|, |es|) == colors
    ensures var out := Emitted(b, colors, bridges, holes, w, bs, es).value;
      && LevelFormat.Readable(out) && LevelFormat.HasMagic(out)
      && Fits16(Sort(bridges)) && Fits16(Sort(holes))
      && LevelFormat.ListsOf(out).bridges == AsWords(Sort(bridges))
      && LevelFormat.ListsOf(out).holes == AsWords(Sort(holes))
      && LevelFormat.ListsOf(out).walls == WallWords(w)
  {
    var n := Min(|bs|, |es|);
    var body := Body(b, colors, bridges, holes, w, bs, es);
    EmittedHeader(b, colors, bridges, holes, w, bs, es);
    var pre := Header(b, colors, |bridges|, |holes|, |w.order|) + PairBytes(bs[..n], es[..n]);
    var ws1, ws2, ws3 := AsWords(Sort(bridges)), AsWords(Sort(holes)), WallWords(w);
    PaddedLaid(body, pre, ws1, ws2, ws3);
    var out := Padded(body);
    LaidBridges(out, ws1, ws2, ws3);
    LaidHoles(out, ws1, ws2, ws3);
    LaidWalls(out, ws1, ws2, ws3);
  }

  /** The pair bytes read back as the pairs wherever the buffer holds them at offset 20. */
  lemma PairsRead(out: seq<byte>, bs: seq<int>, es: seq<int>, c: nat)
    requires |bs| == |es| && Fits16(bs) && Fits16(es) && c < |bs|
    requires Placed(out, 20, PairBytes(bs, es))
    ensures 20 + 4 * c + 4 <= |out|
    ensures ReadU16(out, 20 + 4 * c) == bs[c] && ReadU16(out, 20 + 4 * c + 2) == es[c]
  {
    var pb := PairBytes(bs, es);
    assert out[20..20 + |pb|] == pb;
    assert out[20 + 4 * c] == pb[4 * c] && out[20 + 4 * c + 1] == pb[4 * c + 1];
    assert out[20 + 4 * c + 2] == pb[4 * c + 2] && out[20 + 4 * c + 3] == pb[4 * c + 3];
  }

  /** The second of five runs written back to back sits after the first in any buffer that starts with them. */
  lemma {:induction false} SecondRun(out: seq<byte>, h: seq<byte>, x1: seq<byte>, x2: seq<byte>, x3: seq<byte>, x4: seq<byte>)
    requires h + x1 + x2 + x3 + x4 <= out
    ensures Placed(out, |h|, x1)
  {
    var u := h + x1 + x2 + x3 + x4;
    forall i | 0 <= i < |x1|
      ensures out[|h|..|h| + |x1|][i] == x1[i]
    {
      assert out[|h| + i] == u[|h| + i];
    }
  }

  /** The decoder reads colour c's two source indices from the pair the converter wrote for it. */
  lemma EmittedPairs(b: Board, colors: int, bridges: seq<int>, holes: seq<int>, w: Walls, bs: seq<int>, es: seq<int>)
    requires Emitted(b, colors, bridges, holes, w, bs, es).Ok? && Min(|bs|, |es|) == colors
    ensures var out := Emitted(b, colors, bridges, holes, w, bs, es).value;
      && |out| >= 20 && out[6] == colors && LevelFormat.BridgesOffset(out) <= |out|
      && forall c :: 1 <= c <= colors ==>
           LevelFormat.SourceIndex(out, c, false) == bs[c - 1] && LevelFormat.SourceIndex(out, c, true) == es[c - 1]
  {
    var n := Min(|bs|, |es|);
    EmittedHeader(b, colors, bridges, holes, w, bs, es);
    var body := Body(b, colors, bridges, holes, w, bs, es);
    var out := Padded(body);
    assert body <= out;
    PairsIn(out, Header(b, colors, |bridges|, |holes|, |w.order|), bs[..n], es[..n],
      Levels.WordBytes(AsWords(Sort(bridges))), Levels.WordBytes(AsWords(Sort(holes))), Levels.WordBytes(WallWords(w)));
    forall c | 1 <= c <= colors
      ensures LevelFormat.SourceIndex(out, c, false) == bs[c - 1] && LevelFormat.SourceIndex(out, c, true) == es[c - 1]
    {
      assert bs[..n][c - 1] == bs[c - 1] && es[..n][c - 1] == es[c - 1];
    }
  }

  /** The pairs written after a 20-byte header read back as the pairs of any buffer that starts with them. */
  lemma PairsIn(out: seq<byte>, h: seq<byte>, bs: seq<int>, es: seq<int>, x2: seq<byte>, x3: seq<byte>, x4: seq<byte>)
    requires |h| == 20 && |bs| == |es| && Fits16(bs) && Fits16(es)
    requires h + PairBytes(bs, es) + x2 + x3 + x4 <= out
    ensures forall c :: 0 <= c < |bs| ==>
      20 + 4 * c + 4 <= |out| && ReadU16(out, 20 + 4 * c) == bs[c] && ReadU16(out, 20 + 4 * c + 2) == es[c]
  {
    SecondRun(out, h, PairBytes(bs, es), x2, x3, x4);
    forall c | 0 <= c < |bs|
      ensures 20 + 4 * c + 4 <= |out| && ReadU16(out, 20 + 4 * c) == bs[c] && ReadU16(out, 20 + 4 * c + 2) == es[c]
    {
      PairsRead(out, bs, es, c);
    }
  }

  /** One of the first `colors` pairs (bs[c], es[c]) names cell x. */
  predicate Named(bs: seq<int>, es: seq<int>, colors: int, x: int)
  {
    colors <= |bs| && colors <= |es| && exists c :: 0 <= c < colors && (bs[c] == x || es[c] == x)
  }

  /** Pair k - 1 is the first of the first `colors` pairs that names cell x. */
  predicate FirstNaming(bs: seq<int>, es: seq<int>, colors: int, x: int, k: int)
  {
    && colors <= |bs| && colors <= |es| && 1 <= k <= colors
    && (bs[k - 1] == x || es[k - 1] == x)
    && forall c :: 0 <= c < k - 1 ==> bs[c] != x && es[c] != x
  }

  /**
   * The decoder's source map over an emitted level: cell x is a source exactly
   * when some colour's pair names it, and its colour is one more than the index
   * of the first pair that does (try_emplace keeps the first).
   */
  lemma EmittedSources(b: Board, colors: int, bridges: seq<int>, holes: seq<int>, w: Walls, bs: seq<int>, es: seq<int>, x: int)
    requires Emitted(b, colors, bridges, holes, w, bs, es).Ok? && Min(|bs|, |es|) == colors
    ensures var out := Emitted(b, colors, bridges, holes, w, bs, es).value;
      && LevelFormat.Readable(out) && LevelFormat.HasMagic(out)
      && var m := LevelFormat.ListsOf(out).sources;
      && (x in m <==> Named(bs, es, colors, x))
      && (x in m ==> FirstNaming(bs, es, colors, x, m[x]))
  {
    EmittedLists(b, colors, bridges, holes, w, bs, es);
    EmittedPairs(b, colors, bridges, holes, w, bs, es);
    var out := Emitted(b, colors, bridges, holes, w, bs, es).value;
    SourcesOf(out, colors, bs, es, x);
  }

  /** The source map of a buffer whose colour pairs are the pairs (bs[c], es[c]). */
  lemma SourcesOf(out: seq<byte>, colors: nat, bs: seq<int>, es: seq<int>, x: int)
    requires |out| >= 8 && out[6] == colors && LevelFormat.BridgesOffset(out) <= |out| && colors <= |bs| && colors <= |es|
    requires forall c :: 1 <= c <= colors ==>
      LevelFormat.SourceIndex(out, c, false) == bs[c - 1] && LevelFormat.SourceIndex(out, c, true) == es[c - 1]
    ensures var m := LevelFormat.SourceMap(out, colors);
      && (x in m <==> Named(bs, es, colors, x))
      && (x in m ==> FirstNaming(bs, es, colors, x, m[x]))
  {
    LevelFormat.SourceMapFirstWins(out, colors, x);
    var m := LevelFormat.SourceMap(out, colors);
    if exists c :: 0 <= c < colors && (bs[c] == x || es[c] == x) {
      var c :| 0 <= c < colors && (bs[c] == x || es[c] == x);
      assert LevelFormat.SourceIndex(out, c + 1, false) == x || LevelFormat.SourceIndex(out, c + 1, true) == x;
    }
    if x in m {
      var k := m[x];
      forall c | 0 <= c < k - 1
        ensures bs[c] != x && es[c] != x
      {
        assert LevelFormat.SourceIndex(out, c + 1, false) != x && LevelFormat.SourceIndex(out, c + 1, true) != x;
      }
    }
  }

  /** A wall record holds its cell's index in the low twelve bits and its mask in the high four. */
  lemma WallWordAt(w: Walls, i: nat)
    requires i < |w.order|
    ensures var k := Sort(w.order)[i];
      && LevelFormat.WallSquare(WallWords(w)[i]) == k % 0x1000
      && LevelFormat.WallMask(WallWords(w)[i]) == w.Get(k)
  {
    var k := Sort(w.order)[i];
    var a, r := w.Get(k).Value(), k % 0x1000;
    var v := 0x1000 * a + r;
    assert WallWords(w)[i] == v;
    assert v % 0x1000 == r && v / 0x1000 == a;
    DirsOfValue(w.Get(k));
  }

  /** Every entry of a sorted list is an entry of the list. */
  lemma SortedFrom(s: seq<int>, i: nat)
    requires i < |s|
    ensures Sort(s)[i] in s
  {
    assert Sort(s)[i] in multiset(Sort(s));
  }

  /** Every walled cell in sorted order is a key of the walls, so it fits twelve bits. */
  lemma SortedKeyFits(w: Walls, i: nat)
    requires w.Valid() && forall p :: p in w.masks ==> 0 <= p < 0x1000
    requires i < |w.order|
    ensures 0 <= Sort(w.order)[i] < 0x1000 && Sort(w.order)[i] % 0x1000 == Sort(w.order)[i]
  {
    SortedFrom(w.order, i);
  }

  /** Record i names the i-th walled cell in ascending order when the cell fits twelve bits. */
  lemma WallSquareAt(w: Walls, i: nat)
    requires w.Valid() && forall p :: p in w.masks ==> 0 <= p < 0x1000
    requires i < |w.order|
    ensures LevelFormat.WallSquares(WallWords(w))[i] == Sort(w.order)[i]
  {
    SortedKeyFits(w, i);
    WallWordAt(w, i);
  }

  /**
   * The wall records come out in strictly ascending cell order when every walled
   * cell index fits the record's twelve bits: the order the decoder's wall cursor needs.
   */
  lemma WallWordsAscending(w: Walls)
    requires w.Valid() && forall p :: p in w.masks ==> 0 <= p < 0x1000
    ensures LevelFormat.Ascending(LevelFormat.WallSquares(WallWords(w)))
    ensures forall i :: 0 <= i < |w.order| ==> LevelFormat.WallSquares(WallWords(w))[i] == Sort(w.order)[i]
  {
    var ks := Sort(w.order);
    var sq := LevelFormat.WallSquares(WallWords(w));
    forall i | 0 <= i < |w.order|
      ensures sq[i] == ks[i]
    {
      WallSquareAt(w, i);
    }
    SortStrict(w.order);
    assert |sq| == |ks|;
  }

  /** A list without repeats sorts into a strictly ascending one. */
  lemma SortedWordsAscending(s: seq<int>)
    requires Distinct(s) && Fits16(Sort(s))
    ensures LevelFormat.Ascending(AsWords(Sort(s)))
  {
    SortStrict(s);
  }

  /**
   * The lists of an emitted level are in the order the decoder's cursors need
   * when the line lists no bridge or hole twice, no bridge as a hole, and only
   * cells whose index fits twelve bits are walled.
   */
  lemma EmittedOrdered(b: Board, colors: int, bridges: seq<int>, holes: seq<int>, w: Walls, bs: seq<int>, es: seq<int>)
    requires Emitted(b, colors, bridges, holes, w, bs, es).Ok? && Min(|bs|, |es|) == colors
    requires Distinct(bridges) && Distinct(holes) && forall x :: x in bridges ==> x !in holes
    requires w.Valid() && forall p :: p in w.masks ==> 0 <= p < 0x1000
    ensures var out := Emitted(b, colors, bridges, holes, w, bs, es).value;
      LevelFormat.Readable(out) && LevelFormat.HasMagic(out) && LevelFormat.Ordered(LevelFormat.ListsOf(out))
  {
    EmittedLists(b, colors, bridges, holes, w, bs, es);
    var out := Emitted(b, colors, bridges, holes, w, bs, es).value;
    var l := LevelFormat.ListsOf(out);
    SortedWordsAscending(bridges);
    SortedWordsAscending(holes);
    WallWordsAscending(w);
    forall x | x in l.bridges
      ensures x !in l.holes
    {
      var i :| 0 <= i < |l.bridges| && l.bridges[i] == x;
      SortedFrom(bridges, i);
      if x in l.holes {
        var j :| 0 <= j < |l.holes| && l.holes[j] == x;
        SortedFrom(holes, j);
      }
    }
  }

  /** A value is among the sorted words exactly when it is in the list sorted. */
  lemma InSorted(s: seq<int>, ws: seq<u16>, x: int)
    requires Fits16(Sort(s)) && ws == AsWords(Sort(s))
    ensures x in ws <==> x in s
  {
    if x in ws {
      var j :| 0 <= j < |ws| && ws[j] == x;
      assert Sort(s)[j] == x;
      assert x in multiset(Sort(s));
    }
    if x in s {
      assert x in multiset(Sort(s));
      var j :| 0 <= j < |Sort(s)| && Sort(s)[j] == x;
      assert ws[j] == x;
    }
  }

  /**
   * The cell walk over the lists an emitted level carries: cell i is a hole
   * exactly when it is one of the holes, a bridge exactly when it is one of the
   * bridges, and carries the walls collected for it.
   */
  lemma CellOfLists(l: LevelFormat.Lists, bridges: seq<int>, holes: seq<int>, w: Walls, n: nat, i: nat)
    requires forall x :: x in l.sources ==> 1 <= l.sources[x] < 256
    requires LevelFormat.Ordered(l) && i < n
    requires Fits16(Sort(bridges)) && Fits16(Sort(holes))
    requires l.bridges == AsWords(Sort(bridges)) && l.holes == AsWords(Sort(holes)) && l.walls == WallWords(w)
    requires w.Valid() && forall p :: p in w.masks ==> 0 <= p < 0x1000
    ensures var s := LevelFormat.DecodePrefix(l, n).0[i];
      && s.hole == (i in holes)
      && s.bridge == (i in bridges)
      && s.source == (i !in holes && i !in bridges && i in l.sources)
      && s.color == (if s.source then l.sources[i] else 0)
      && s.walls == w.Get(i)
      && s.direction == NoDirs
  {
    LevelFormat.DecodedCells(l, n, i);
    InSorted(holes, l.holes, i);
    InSorted(bridges, l.bridges, i);
    WallsOfCell(w, l.walls, i);
  }

  /**
   * The board the Level constructor builds from an emitted level has the line's
   * width times height cells; cell i is a hole exactly when the line lists it as
   * one, a bridge exactly when it lists it as one, a source exactly when it is
   * neither and some colour's pair names it, in the colour of the first such
   * pair; it carries the walls the converter collected for it and has no
   * connections yet.
   */
  lemma EmittedCell(b: Board, colors: int, bridges: seq<int>, holes: seq<int>, w: Walls, bs: seq<int>, es: seq<int>, i: nat)
    requires Emitted(b, colors, bridges, holes, w, bs, es).Ok? && Min(|bs|, |es|) == colors
    requires Distinct(bridges) && Distinct(holes) && forall x :: x in bridges ==> x !in holes
    requires w.Valid() && forall p :: p in w.masks ==> 0 <= p < 0x1000
    requires i < b.x * b.y
    ensures var out := Emitted(b, colors, bridges, holes, w, bs, es).value;
      && LevelFormat.Readable(out)
      && |LevelFormat.Decoded(out)| == b.x * b.y
      && EmittedSquare(LevelFormat.Decoded(out)[i], i, colors, bridges, holes, w, bs, es)
  {
    EmittedHeader(b, colors, bridges, holes, w, bs, es);
    EmittedLists(b, colors, bridges, holes, w, bs, es);
    EmittedOrdered(b, colors, bridges, holes, w, bs, es);
    EmittedSources(b, colors, bridges, holes, w, bs, es, i);
    var out := Emitted(b, colors, bridges, holes, w, bs, es).value;
    assert LevelFormat.CellCount(out) == b.x * b.y;
    CellOfBuffer(out, colors, bridges, holes, w, bs, es, b.x * b.y, i);
  }

  /**
   * Square s is what the converter meant cell i to be: a hole exactly when the
   * line lists it as one, a bridge exactly when it lists it as one, a source
   * exactly when it is neither and some colour's pair names it, in the colour
   * of the first such pair (plain cells have colour 0); it carries the walls
   * collected for it and no connections.
   */
  predicate EmittedSquare(s: Square, i: int, colors: int, bridges: seq<int>, holes: seq<int>, w: Walls, bs: seq<int>, es: seq<int>)
  {
    && s.hole == (i in holes)
    && s.bridge == (i in bridges)
    && s.source == (i !in holes && i !in bridges && Named(bs, es, colors, i))
    && (s.source ==> FirstNaming(bs, es, colors, i, s.color as int))
    && (!s.source ==> s.color == 0)
    && s.walls == w.Get(i)
    && s.direction == NoDirs
  }

  /** The cell walk over any readable buffer that carries the given lists and source map. */
  lemma CellOfBuffer(out: seq<byte>, colors: int, bridges: seq<int>, holes: seq<int>, w: Walls, bs: seq<int>, es: seq<int>, n: nat, i: nat)
    requires LevelFormat.Readable(out) && LevelFormat.HasMagic(out) && LevelFormat.CellCount(out) == n && i < n
    requires 0 <= colors <= |bs| && colors <= |es|
    requires LevelFormat.Ordered(LevelFormat.ListsOf(out))
    requires Fits16(Sort(bridges)) && Fits16(Sort(holes))
    requires var l := LevelFormat.ListsOf(out);
      l.bridges == AsWords(Sort(bridges)) && l.holes == AsWords(Sort(holes)) && l.walls == WallWords(w)
    requires w.Valid() && forall p :: p in w.masks ==> 0 <= p < 0x1000
    requires var m := LevelFormat.ListsOf(out).sources;
      (i in m <==> Named(bs, es, colors, i)) && (i in m ==> FirstNaming(bs, es, colors, i, m[i]))
    ensures |LevelFormat.Decoded(out)| == n
    ensures EmittedSquare(LevelFormat.Decoded(out)[i], i, colors, bridges, holes, w, bs, es)
  {
    var l := LevelFormat.ListsOf(out);
    CellOfLists(l, bridges, holes, w, n, i);
    assert LevelFormat.Decoded(out) == LevelFormat.DecodePrefix(l, n).0;
    var s := LevelFormat.Decoded(out)[i];
    assert s.source == (i !in holes && i !in bridges && i in l.sources);
    assert s.source ==> s.color == l.sources[i];
  }

  /** The decoder's wall lookup over the emitted records gives the converter's mask for the cell. */
  lemma WallsOfCell(w: Walls, walls: seq<u16>, i: nat)
    requires w.Valid() && forall p :: p in w.masks ==> 0 <= p < 0x1000
    requires walls == WallWords(w)
    ensures forall j :: 0 <= j < |walls| && LevelFormat.WallSquare(walls[j]) == i ==> LevelFormat.WallMask(walls[j]) == w.Get(i)
    ensures (forall j :: 0 <= j < |walls| ==> LevelFormat.WallSquare(walls[j]) != i) ==> w.Get(i) == NoDirs
  {
    WallWordsAscending(w);
    var ks := Sort(w.order);
    forall j | 0 <= j < |walls| && LevelFormat.WallSquare(walls[j]) == i
      ensures LevelFormat.WallMask(walls[j]) == w.Get(i)
    {
      WallWordAt(w, j);
      assert LevelFormat.WallSquares(walls)[j] == ks[j];
    }
    if i in w.masks {
      assert i in multiset(w.order);
      assert i in multiset(ks);
      var j :| 0 <= j < |ks| && ks[j] == i;
      assert LevelFormat.WallSquares(walls)[j] == i;
    }
  }

  // ---------------------------------------------------------------------------
  // The pack file

  /** main writes a pack only when no line of the file raised. */
  lemma {:induction false} KeptOk(outs: seq<Result<seq<byte>>>)
    ensures Kept(outs).Ok? <==> forall i :: 0 <= i < |outs| ==> outs[i].Ok?
    decreases |outs|
  {
    if outs != [] {
      var init := outs[..|outs| - 1];
      KeptOk(init);
      assert forall i :: 0 <= i < |init| ==> init[i] == outs[i];
    }
  }

  /** Every level main keeps is the output of one of the file's lines. */
  lemma {:induction false} KeptFrom(outs: seq<Result<seq<byte>>>, k: nat)
    requires Kept(outs).Ok? && k < |Kept(outs).value|
    ensures exists i :: 0 <= i < |outs| && outs[i] == Ok(Kept(outs).value[k])
    decreases |outs|
  {
    var init := outs[..|outs| - 1];
    var prev := Kept(init);
    if k < |prev.value| {
      KeptFrom(init, k);
      var i :| 0 <= i < |init| && init[i] == Ok(prev.value[k]);
      assert outs[i] == init[i];
    } else {
      assert outs[|outs| - 1] == Ok(Kept(outs).value[k]);
    }
  }

  /** The positions of the outputs that are levels: successful and non-empty, ascending. */
  function NonEmptyIndices(outs: seq<Result<seq<byte>>>): (r: seq<int>)
    ensures forall k :: 0 <= k < |r| ==> 0 <= r[k] < |outs|
    ensures forall k, l :: 0 <= k < l < |r| ==> r[k] < r[l]
    ensures forall i :: 0 <= i < |outs| ==> (i in r <==> outs[i].Ok? && outs[i].value != [])
  {
    if outs == [] then []
    else
      var init := outs[..|outs| - 1];
      var r0 := NonEmptyIndices(init);
      assert forall i :: 0 <= i < |init| ==> init[i] == outs[i];
      var o := outs[|outs| - 1];
      if o.Ok? && o.value != [] then r0 + [|outs| - 1] else r0
  }

  /**
   * main keeps the non-empty outputs, each once and in the order of the lines:
   * kept level k is the output at the k-th non-empty position.
   */
  lemma {:induction false} KeptInOrder(outs: seq<Result<seq<byte>>>)
    requires Kept(outs).Ok?
    ensures |Kept(outs).value| == |NonEmptyIndices(outs)|
    ensures forall k :: 0 <= k < |Kept(outs).value| ==> outs[NonEmptyIndices(outs)[k]] == Ok(Kept(outs).value[k])
    decreases |outs|
  {
    if outs != [] {
      var init := outs[..|outs| - 1];
      KeptInOrder(init);
      assert forall i :: 0 <= i < |init| ==> init[i] == outs[i];
    }
  }

  /** Every non-empty output of a file whose lines all parsed is among the kept levels. */
  lemma KeptAll(outs: seq<Result<seq<byte>>>, i: int)
    requires Kept(outs).Ok? && 0 <= i < |outs| && outs[i].Ok? && outs[i].value != []
    ensures outs[i].value in Kept(outs).value
  {
    KeptInOrder(outs);
    var idx := NonEmptyIndices(outs);
    var k :| 0 <= k < |idx| && idx[k] == i;
    assert outs[i] == Ok(Kept(outs).value[k]);
  }

  /**
   * A pack file the converter writes splits, under the reader's framing
   * (get_levels, main.cpp:2403-2412), into exactly the levels main kept, in order.
   */
  lemma PackFileSplits(lines: seq<string>)
    requires PackFile(lines).Ok? && PackFile(lines).value.Some?
    ensures Kept(Outputs(lines)).Ok? && Kept(Outputs(lines)).value != []
    ensures Packs.PayloadLevels(PackFile(lines).value.value) == Some(Kept(Outputs(lines)).value)
  {
    Packs.SplitPayloadOf(Kept(Outputs(lines)).value);
  }
}
