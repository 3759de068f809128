/**
 * The binary level format and what the Level constructor (main.cpp:563-631) builds
 * from it.  A buffer is
 *   "CLFL", width, height, colour count, warp flag (one byte each),
 *   three u32 counts (bridges, holes, walled cells) at offsets 8, 12 and 16,
 *   two u16 source indices per colour from offset 20,
 *   then the bridge indices, the hole indices and the wall records (u16 each:
 *   low 12 bits cell index, high 4 bits wall mask).
 * The constructor walks the cells once, with one cursor per list that advances
 * only when its list matches the current cell; DecodePrefix is that walk, and
 * DecodedCells says what it yields when the lists are strictly ascending.
 */
module LevelFormat {
  import opened Bytes
  import opened Squares

  /** The four bytes "CLFL". */
  const Magic: seq<byte> := [0x43, 0x4C, 0x46, 0x4C]

  predicate HasMagic(data: seq<byte>)
    requires |data| >= 4
  {
    data[..4] == Magic
  }

  function BridgeCount(data: seq<byte>): u32
    requires |data| >= 20
  {
    ReadU32(data, 8)
  }

  function HoleCount(data: seq<byte>): u32
    requires |data| >= 20
  {
    ReadU32(data, 12)
  }

  function WallCount(data: seq<byte>): u32
    requires |data| >= 20
  {
    ReadU32(data, 16)
  }

  /** Where the bridge list starts: after the header and the colour pairs. */
  function BridgesOffset(data: seq<byte>): nat
    requires |data| >= 8
  {
    20 + 4 * (data[6] as int)
  }

  function HolesOffset(data: seq<byte>): nat
    requires |data| >= 20
  {
    BridgesOffset(data) + 2 * BridgeCount(data)
  }

  function WallsOffset(data: seq<byte>): nat
    requires |data| >= 20
  {
    HolesOffset(data) + 2 * HoleCount(data)
  }

  function LevelEnd(data: seq<byte>): nat
    requires |data| >= 20
  {
    WallsOffset(data) + 2 * WallCount(data)
  }

  /**
   * What the constructor reads without bounds checks: the first eight bytes
   * always, and the whole level when the magic matches.
   */
  predicate Readable(data: seq<byte>)
  {
    |data| >= 8 && (HasMagic(data) ==> |data| >= 20 && LevelEnd(data) <= |data|)
  }

  /** The number of cells: width * height. */
  function CellCount(data: seq<byte>): nat
    requires |data| >= 8
  {
    (data[4] as int) * (data[5] as int)
  }

  /** The first (second = false) or second source index listed for colour c. */
  function SourceIndex(data: seq<byte>, c: nat, second: bool): u16
    requires |data| >= 8 && 1 <= c <= data[6] && BridgesOffset(data) <= |data|
  {
    ReadU16(data, 20 + 4 * (c - 1) + (if second then 2 else 0))
  }

  /** The sources map after try_emplace of the pairs of colours 1..k. */
  function SourceMap(data: seq<byte>, k: nat): (m: map<int, int>)
    requires |data| >= 8 && k <= data[6] && BridgesOffset(data) <= |data|
    ensures forall x :: x in m ==> 1 <= m[x] <= k
  {
    if k == 0 then map[]
    else
      var m0 := SourceMap(data, k - 1);
      var a := SourceIndex(data, k, false);
      var b := SourceIndex(data, k, true);
      var m1 := if a in m0 then m0 else m0[a := k];
      if b in m1 then m1 else m1[b := k]
  }

  /** n consecutive u16 values from `off`. */
  function IndexList(data: seq<byte>, off: nat, n: nat): (r: seq<u16>)
    requires off + 2 * n <= |data|
    ensures |r| == n
    ensures forall j :: 0 <= j < n ==> r[j] == ReadU16(data, off + 2 * j)
  {
    if n == 0 then [] else IndexList(data, off, n - 1) + [ReadU16(data, off + 2 * (n - 1))]
  }

  function WallSquare(v: u16): int
  {
    v % 0x1000
  }

  function WallMask(v: u16): Dirs
  {
    DirsOf(v / 0x1000)
  }

  /** The decoded lists the cell walk consults. */
  datatype Lists = Lists(sources: map<int, int>, bridges: seq<u16>, holes: seq<u16>, walls: seq<u16>)

  function ListsOf(data: seq<byte>): (l: Lists)
    requires Readable(data) && HasMagic(data)
    ensures forall x :: x in l.sources ==> 1 <= l.sources[x] < 256
  {
    Lists(SourceMap(data, data[6]),
          IndexList(data, BridgesOffset(data), BridgeCount(data)),
          IndexList(data, HolesOffset(data), HoleCount(data)),
          IndexList(data, WallsOffset(data), WallCount(data)))
  }

  datatype Cursors = Cursors(hole: nat, bridge: nat, wall: nat)

  /**
   * One step of the cell walk: the cell at index i is a hole if the hole cursor
   * points at i, else a bridge if the bridge cursor does, else a source if the map
   * lists i; its walls come from the wall cursor independently.
   */
  function DecodeCell(l: Lists, c: Cursors, i: int): (Square, Cursors)
    requires forall x :: x in l.sources ==> 1 <= l.sources[x] < 256
  {
    var isHole := c.hole < |l.holes| && l.holes[c.hole] == i;
    var isBridge := !isHole && c.bridge < |l.bridges| && l.bridges[c.bridge] == i;
    var isSource := !isHole && !isBridge && i in l.sources;
    var hasWall := c.wall < |l.walls| && WallSquare(l.walls[c.wall]) == i;
    var cell := ZeroSquare.(hole := isHole, bridge := isBridge, source := isSource,
                            color := if isSource then l.sources[i] else 0,
                            walls := if hasWall then WallMask(l.walls[c.wall]) else NoDirs);
    (cell, Cursors(if isHole then c.hole + 1 else c.hole,
                   if isBridge then c.bridge + 1 else c.bridge,
                   if hasWall then c.wall + 1 else c.wall))
  }

  /** The first k cells of the walk and the cursors after them. */
  function DecodePrefix(l: Lists, k: nat): (r: (seq<Square>, Cursors))
    requires forall x :: x in l.sources ==> 1 <= l.sources[x] < 256
    ensures |r.0| == k
  {
    if k == 0 then ([], Cursors(0, 0, 0))
    else
      var p := DecodePrefix(l, k - 1);
      var step := DecodeCell(l, p.1, k - 1);
      (p.0 + [step.0], step.1)
  }

  /**
   * The squares of a decoded level: width * height all-zero cells when the magic
   * does not match (the early return leaves the sized vector untouched).
   */
  function Decoded(data: seq<byte>): (r: seq<Square>)
    requires Readable(data)
    ensures |r| == CellCount(data)
    ensures !HasMagic(data) ==> forall i :: 0 <= i < |r| ==> r[i] == ZeroSquare
  {
    if !HasMagic(data) then seq(CellCount(data), _ => ZeroSquare)
    else DecodePrefix(ListsOf(data), CellCount(data)).0
  }

  predicate Ascending(xs: seq<int>)
  {
    forall i, j :: 0 <= i < j < |xs| ==> xs[i] < xs[j]
  }

  function WallSquares(walls: seq<u16>): (r: seq<int>)
    ensures |r| == |walls| && forall j :: 0 <= j < |walls| ==> r[j] == WallSquare(walls[j])
  {
    seq(|walls|, j requires 0 <= j < |walls| => WallSquare(walls[j]))
  }

  /** The lists are in the order the cursor walk needs. */
  predicate Ordered(l: Lists)
  {
    && Ascending(l.holes)
    && Ascending(l.bridges)
    && Ascending(WallSquares(l.walls))
    && (forall x :: x in l.bridges ==> x !in l.holes)
  }

  /** A cursor into an ascending list has passed exactly the entries below k. */
  predicate CursorAt(xs: seq<int>, c: nat, k: int)
  {
    c <= |xs| && (forall j :: 0 <= j < c ==> xs[j] < k) && (forall j :: c <= j < |xs| ==> xs[j] >= k)
  }

  /** On an ascending list, a cursor at k points at k exactly when k is listed. */
  lemma CursorMatch(xs: seq<int>, c: nat, k: int)
    requires Ascending(xs) && CursorAt(xs, c, k)
    ensures (c < |xs| && xs[c] == k) <==> k in xs
  {
    if k in xs {
      var j :| 0 <= j < |xs| && xs[j] == k;
      assert j >= c;
    }
  }

  lemma CursorStep(xs: seq<int>, c: nat, k: int)
    requires Ascending(xs) && CursorAt(xs, c, k)
    ensures CursorAt(xs, if c < |xs| && xs[c] == k then c + 1 else c, k + 1)
  {
    var c' := if c < |xs| && xs[c] == k then c + 1 else c;
    forall j | c' <= j < |xs| ensures xs[j] >= k + 1 {
      if !(c < |xs| && xs[c] == k) {
        assert xs[j] != k by {
          if xs[j] == k {
            CursorMatch(xs, c, k);
          }
        }
      }
    }
  }

  /** Under ordered lists, after k cells each cursor has passed the entries below k. */
  lemma {:induction false} CursorsAfter(l: Lists, k: nat)
    requires forall x :: x in l.sources ==> 1 <= l.sources[x] < 256
    requires Ordered(l)
    ensures var c := DecodePrefix(l, k).1;
      CursorAt(l.holes, c.hole, k) && CursorAt(l.bridges, c.bridge, k) &&
      CursorAt(WallSquares(l.walls), c.wall, k)
  {
    if k > 0 {
      CursorsAfter(l, k - 1);
      var c := DecodePrefix(l, k - 1).1;
      var i := k - 1;
      CursorStep(l.holes, c.hole, i);
      CursorStep(WallSquares(l.walls), c.wall, i);
      var isHole := c.hole < |l.holes| && l.holes[c.hole] == i;
      // a hole cell leaves the bridge cursor alone, and no bridge entry is that cell
      CursorMatch(l.bridges, c.bridge, i);
      CursorStep(l.bridges, c.bridge, i);
    }
  }

  /** Cells already walked never change. */
  lemma {:induction false} PrefixStable(l: Lists, i: nat, k: nat)
    requires forall x :: x in l.sources ==> 1 <= l.sources[x] < 256
    requires i < k
    ensures DecodePrefix(l, k).0[i] == DecodePrefix(l, i + 1).0[i]
  {
    if k > i + 1 {
      PrefixStable(l, i, k - 1);
    }
  }

  /**
   * When the lists are strictly ascending and no bridge is also a hole, the walk
   * gives every cell the kind its index is listed as (hole first, then bridge,
   * then source with the colour the map holds), the mask of the wall record that
   * names it, and no connections.
   */
  lemma DecodedCells(l: Lists, n: nat, i: nat)
    requires forall x :: x in l.sources ==> 1 <= l.sources[x] < 256
    requires Ordered(l) && i < n
    ensures var s := DecodePrefix(l, n).0[i];
      && s.hole == (i in l.holes)
      && s.bridge == (i in l.bridges)
      && s.source == (i !in l.holes && i !in l.bridges && i in l.sources)
      && s.color == (if s.source then l.sources[i] else 0)
      && (forall j :: 0 <= j < |l.walls| && WallSquare(l.walls[j]) == i ==> s.walls == WallMask(l.walls[j]))
      && ((forall j :: 0 <= j < |l.walls| ==> WallSquare(l.walls[j]) != i) ==> s.walls == NoDirs)
      && s.direction == NoDirs && s.aboveDirection == NoHalves && s.aboveColor == 0
  {
    PrefixStable(l, i, n);
    CursorsAfter(l, i);
    var c := DecodePrefix(l, i).1;
    CursorMatch(l.holes, c.hole, i);
    CursorMatch(l.bridges, c.bridge, i);
    var ws := WallSquares(l.walls);
    CursorMatch(ws, c.wall, i);
    forall j | 0 <= j < |l.walls| && WallSquare(l.walls[j]) == i
      ensures c.wall < |l.walls| && l.walls[c.wall] == l.walls[j]
    {
      assert ws[j] == i;
      assert c.wall < |ws| && ws[c.wall] == i;
    }
    if forall j :: 0 <= j < |l.walls| ==> WallSquare(l.walls[j]) != i {
      assert i !in ws;
    }
  }

  /**
   * try_emplace keeps the first colour that lists an index: an index is in the
   * map exactly when some colour 1..k lists it, and it maps to the lowest such colour.
   */
  lemma {:induction false} SourceMapFirstWins(data: seq<byte>, k: nat, x: int)
    requires |data| >= 8 && k <= data[6] && BridgesOffset(data) <= |data|
    ensures x in SourceMap(data, k) <==>
      exists c :: 1 <= c <= k && (SourceIndex(data, c, false) == x || SourceIndex(data, c, true) == x)
    ensures x in SourceMap(data, k) ==>
      var c := SourceMap(data, k)[x];
      (SourceIndex(data, c, false) == x || SourceIndex(data, c, true) == x) &&
      forall c' :: 1 <= c' < c ==> SourceIndex(data, c', false) != x && SourceIndex(data, c', true) != x
  {
    if k > 0 {
      SourceMapFirstWins(data, k - 1, x);
      if x !in SourceMap(data, k - 1) && (SourceIndex(data, k, false) == x || SourceIndex(data, k, true) == x) {
        assert SourceMap(data, k)[x] == k;
      }
    }
  }

  /** The source-pair loop of the constructor: try_emplace of both indices of colours 1..color_count. */
  method ReadSources(data: seq<byte>) returns (m: map<int, int>, off: nat)
    requires |data| >= 8 && BridgesOffset(data) <= |data|
    ensures m == SourceMap(data, data[6]) && off == BridgesOffset(data)
  {
    m := map[];
    off := 20;
    var i := 1;
    while i <= data[6] as int
      invariant 1 <= i <= data[6] as int + 1
      invariant off == 20 + 4 * (i - 1)
      invariant m == SourceMap(data, i - 1)
    {
      var a := ReadU16(data, off);
      if a !in m {
        m := m[a := i];
      }
      var b := ReadU16(data, off + 2);
      if b !in m {
        m := m[b := i];
      }
      off := off + 4;
      i := i + 1;
    }
  }

  /** One of the bridge, hole and wall loops: n consecutive u16 values from off. */
  method ReadWords(data: seq<byte>, off: nat, n: nat) returns (xs: seq<u16>, next: nat)
    requires off + 2 * n <= |data|
    ensures xs == IndexList(data, off, n) && next == off + 2 * n
  {
    xs := [];
    next := off;
    while |xs| < n
      invariant |xs| <= n && next == off + 2 * |xs|
      invariant xs == IndexList(data, off, |xs|)
    {
      xs := xs + [ReadU16(data, next)];
      next := next + 2;
    }
  }

  /** The cell walk of the constructor, with its hole, bridge and wall cursors. */
  method BuildSquares(l: Lists, n: nat) returns (squares: seq<Square>)
    requires forall x :: x in l.sources ==> 1 <= l.sources[x] < 256
    ensures squares == DecodePrefix(l, n).0
  {
    squares := [];
    var holeIdx, bridgeIdx, wallIdx := 0, 0, 0;
    while |squares| < n
      invariant |squares| <= n
      invariant DecodePrefix(l, |squares|) == (squares, Cursors(holeIdx, bridgeIdx, wallIdx))
    {
      var i := |squares|;
      ghost var step := DecodeCell(l, Cursors(holeIdx, bridgeIdx, wallIdx), i);
      ghost var before := squares;
      var square := ZeroSquare;
      if holeIdx < |l.holes| && l.holes[holeIdx] == i {
        square := square.(hole := true);
        holeIdx := holeIdx + 1;
      } else if bridgeIdx < |l.bridges| && l.bridges[bridgeIdx] == i {
        square := square.(bridge := true);
        bridgeIdx := bridgeIdx + 1;
      } else if i in l.sources {
        square := square.(source := true, color := l.sources[i]);
      }
      if wallIdx < |l.walls| && WallSquare(l.walls[wallIdx]) == i {
        square := square.(walls := WallMask(l.walls[wallIdx]));
        wallIdx := wallIdx + 1;
      }
      assert square == step.0 && Cursors(holeIdx, bridgeIdx, wallIdx) == step.1;
      squares := squares + [square];
      assert DecodePrefix(l, |squares|) == (before + [step.0], step.1);
    }
  }

  /** The body of the constructor after the dimensions: the early return on a bad magic, the reads and the walk. */
  method DecodeSquares(data: seq<byte>) returns (squares: seq<Square>)
    requires Readable(data)
    ensures squares == Decoded(data)
  {
    if !HasMagic(data) {
      return seq(CellCount(data), _ => ZeroSquare);
    }
    var sources, off := ReadSources(data);
    var bridges, off1 := ReadWords(data, off, BridgeCount(data));
    var holes, off2 := ReadWords(data, off1, HoleCount(data));
    var walls, off3 := ReadWords(data, off2, WallCount(data));
    var lists := Lists(sources, bridges, holes, walls);
    assert lists == ListsOf(data);
    squares := BuildSquares(lists, CellCount(data));
  }
}
