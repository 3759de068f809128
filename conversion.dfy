/**
 * What process_level (convert_level_packs.py:26-177) computes from one line of a
 * level pack text file, as functions: the parse of the header field, the wall
 * dictionary built from wall pairs, holes and (on non-warp boards) the border,
 * the source pairs, and the binary level it emits.  Any exception the Python
 * code raises (IndexError, ValueError, ZeroDivisionError, struct.error) is Err.
 */
module Conversion {
  import opened Results
  import opened Bytes
  import opened Squares
  import opened PyText
  import opened WallDicts
  import opened Sorting
  import LevelFormat
  import Levels
  import Packs

  /** x_dim, y_dim and warp: the board as the converter sees it. */
  datatype Board = Board(x: int, y: int, warp: bool)

  /** total_size */
  function Total(b: Board): int
  {
    b.x * b.y
  }

  /** is_first_row, is_last_row, is_first_col and is_last_col (lines 71-74). */
  predicate FirstRow(b: Board, p: int)
  {
    p < b.x
  }

  predicate LastRow(b: Board, p: int)
  {
    p >= b.x * (b.y - 1)
  }

  predicate FirstCol(b: Board, p: int)
    requires b.x != 0
  {
    FloorMod(p, b.x) == 0
  }

  predicate LastCol(b: Board, p: int)
    requires b.x != 0
  {
    FloorMod(p, b.x) == b.x - 1
  }

  /**
   * The side of cell a that the wall pair a|c closes (lines 80-96): east when c
   * follows a, on warp boards north across the top/bottom seam or west across the
   * left/right seam, south otherwise.  None where the column test divides by a
   * zero width.
   */
  function PairSide(b: Board, a: int, c: int): Option<Dir>
  {
    if a == c - 1 then Some(East)
    else if b.warp && FirstRow(b, a) && LastRow(b, c) then Some(North)
    else if b.warp && b.x == 0 then None
    else if b.warp && FirstCol(b, a) && LastCol(b, c) then Some(West)
    else Some(South)
  }

  /** One wall pair: the chosen side on a, the opposite side on c. */
  function PairStep(b: Board, w: Walls, a: int, c: int): (r: Result<Walls>)
    requires w.Valid()
    ensures r.Ok? <==> PairSide(b, a, c).Some?
    ensures r.Ok? ==> var d := PairSide(b, a, c).value;
      && r.value.Valid() && r.value.Covers(w)
      && r.value.Get(a).Has(d) && r.value.Get(c).Has(d.Opposite())
      && forall q :: q != a && q != c ==> r.value.Get(q) == w.Get(q)
    ensures r.Ok? ==> var d := PairSide(b, a, c).value;
      && (a != c ==> r.value.Get(a) == w.Get(a).With(d) && r.value.Get(c) == w.Get(c).With(d.Opposite()))
      && (a == c ==> r.value.Get(a) == w.Get(a).With(d).With(d.Opposite()))
  {
    match PairSide(b, a, c)
    case None => Err
    case Some(d) =>
      var w1 := w.Add(a, d);
      AddCovers(w, a, d);
      AddCovers(w1, c, d.Opposite());
      Ok(w1.Add(c, d.Opposite()))
  }

  /** `pt1, pt2 = map(int, w.split('|'))`: exactly two integers. */
  function WallPair(s: string): Option<(int, int)>
  {
    var parts := Split(s, '|');
    if |parts| != 2 then None
    else
      match (ParseInt(parts[0]), ParseInt(parts[1]))
      case (Some(a), Some(c)) => Some((a, c))
      case _ => None
  }

  /** The wall dictionary after the first |ws| entries of wallspoints. */
  function PairWalls(b: Board, ws: seq<string>): (r: Result<Walls>)
    ensures r.Ok? ==> r.value.Valid()
  {
    if ws == [] then Ok(Empty)
    else
      match PairWalls(b, ws[..|ws| - 1])
      case Err => Err
      case Ok(w) =>
        match WallPair(ws[|ws| - 1])
        case None => Err
        case Some(pair) => PairStep(b, w, pair.0, pair.1)
  }

  /** add_direction_cond: cells listed as holes get no walls. */
  function AddCond(w: Walls, holes: seq<int>, p: int, d: Dir): (r: Walls)
    requires w.Valid()
    ensures r.Valid() && r.Covers(w)
    ensures r.Get(p).Has(d) <==> p !in holes || w.Get(p).Has(d)
    ensures r.Get(p) == if p in holes then w.Get(p) else w.Get(p).With(d)
    ensures forall q :: q != p ==> r.Get(q) == w.Get(q)
  {
    AddCovers(w, p, d);
    if p in holes then w else w.Add(p, d)
  }

  /**
   * The cell next to hole h toward d that the hole loop (lines 104-135) walls on
   * the side facing the hole: None on an edge of a non-warp board.
   */
  function HoleTarget(b: Board, h: int, d: Dir): Option<int>
    requires b.x != 0 || d.Vertical()
  {
    match d
    case North => if FirstRow(b, h) then (if b.warp then Some(Total(b) - (b.x - h)) else None) else Some(h - b.x)
    case South => if LastRow(b, h) then (if b.warp then Some(h + b.x - Total(b)) else None) else Some(h + b.x)
    case West => if FirstCol(b, h) then (if b.warp then Some(h + b.x - 1) else None) else Some(h - 1)
    case East => if LastCol(b, h) then (if b.warp then Some(h - b.x + 1) else None) else Some(h + 1)
  }

  function HoleSide(b: Board, holes: seq<int>, w: Walls, h: int, d: Dir): (r: Walls)
    requires w.Valid() && (b.x != 0 || d.Vertical())
    ensures r.Valid() && r.Covers(w)
  {
    match HoleTarget(b, h, d)
    case None => w
    case Some(p) => AddCond(w, holes, p, d.Opposite())
  }

  /**
   * One hole: the rows first, then the columns, whose divmod raises on a zero
   * width after the row walls are in.
   */
  function HoleStep(b: Board, holes: seq<int>, w: Walls, h: int): (r: Result<Walls>)
    requires w.Valid()
    ensures r.Ok? <==> b.x != 0
    ensures r.Ok? ==> r.value.Valid() && r.value.Covers(w)
  {
    var w1 := HoleSide(b, holes, w, h, North);
    var w2 := HoleSide(b, holes, w1, h, South);
    if b.x == 0 then Err
    else
      var w3 := HoleSide(b, holes, w2, h, West);
      var w4 := HoleSide(b, holes, w3, h, East);
      CoversTrans(w, w1, w2);
      CoversTrans(w, w2, w3);
      CoversTrans(w, w3, w4);
      Ok(w4)
  }

  /** The wall dictionary after the holes in hs, starting from w. */
  function HoleWalls(b: Board, holes: seq<int>, hs: seq<int>, w: Walls): (r: Result<Walls>)
    requires w.Valid()
    ensures r.Ok? ==> r.value.Valid() && r.value.Covers(w)
  {
    if hs == [] then Ok(w)
    else
      match HoleWalls(b, holes, hs[..|hs| - 1], w)
      case Err => Err
      case Ok(w1) =>
        var r := HoleStep(b, holes, w1, hs[|hs| - 1]);
        if r.Ok? then CoversTrans(w, w1, r.value); r else r
  }

  /** The first loop of lines 137-142, over x in range(n): the top and bottom rows. */
  function TopBottom(b: Board, holes: seq<int>, w: Walls, n: nat): (r: Walls)
    requires w.Valid()
    ensures r.Valid() && r.Covers(w)
  {
    if n == 0 then w
    else
      var w0 := TopBottom(b, holes, w, n - 1);
      var x := n - 1;
      var w1 := AddCond(w0, holes, x, North);
      var w2 := AddCond(w1, holes, Total(b) - x - 1, South);
      CoversTrans(w, w0, w1);
      CoversTrans(w, w1, w2);
      w2
  }

  /** The second loop of lines 143-147, over y in range(n): the left and right columns. */
  function Sides(b: Board, holes: seq<int>, w: Walls, n: nat): (r: Walls)
    requires w.Valid()
    ensures r.Valid() && r.Covers(w)
  {
    if n == 0 then w
    else
      var w0 := Sides(b, holes, w, n - 1);
      var p1 := (n - 1) * b.x;
      var w1 := AddCond(w0, holes, p1, West);
      var w2 := AddCond(w1, holes, p1 + b.x - 1, East);
      CoversTrans(w, w0, w1);
      CoversTrans(w, w1, w2);
      w2
  }

  /** range(n) runs max(n, 0) times. */
  function Times(n: int): nat
  {
    if n < 0 then 0 else n
  }

  /** The border walls of a non-warp board; a warp board gets none. */
  function BorderWalls(b: Board, holes: seq<int>, w: Walls): (r: Walls)
    requires w.Valid()
    ensures r.Valid() && r.Covers(w)
  {
    if b.warp then w
    else
      var w1 := TopBottom(b, holes, w, Times(b.x));
      var w2 := Sides(b, holes, w1, Times(b.y));
      CoversTrans(w, w1, w2);
      w2
  }

  /** list(map(int, parts)) */
  function IntList(parts: seq<string>): (r: Option<seq<int>>)
    ensures r.Some? ==> |r.value| == |parts|
  {
    if parts == [] then Some([])
    else
      var n := |parts| - 1;
      var init := IntList(parts[..n]);
      var x := ParseInt(parts[n]);
      if init.Some? && x.Some? then Some(init.value + [x.value]) else None
  }

  /** The hole list: int(x.split('_')[0]) of every entry. */
  function HoleList(parts: seq<string>): (r: Option<seq<int>>)
    ensures r.Some? ==> |r.value| == |parts|
  {
    if parts == [] then Some([])
    else
      match (HoleList(parts[..|parts| - 1]), ParseInt(Split(parts[|parts| - 1], '_')[0]))
      case (Some(xs), Some(x)) => Some(xs + [x])
      case _ => None
  }

  /**
   * points_begin and points_end after the first k colours (lines 151-159): the
   * colour's first point always, its last only when it lists two or more.
   */
  function Points(rows: seq<string>, k: nat): (r: Result<(seq<int>, seq<int>)>)
  {
    if k == 0 then Ok(([], []))
    else
      match Points(rows, k - 1)
      case Err => Err
      case Ok(p) =>
        if k >= |rows| then Err
        else
          match ColourEnds(Split(rows[k], ','), p.0, p.1)
          case None => Err
          case Some(q) => Ok(q)
  }

  /** One colour's points: its first joins the begins, its last (when not also its first) the ends. */
  function ColourEnds(v: seq<string>, begin: seq<int>, end: seq<int>): Option<(seq<int>, seq<int>)>
  {
    match IntList(v)
    case None => None
    case Some(xs) =>
      if xs == [] then Some((begin, end))
      else Some((begin + [xs[0]], if |xs| >= 2 then end + [xs[|xs| - 1]] else end))
  }

  predicate Fits16(xs: seq<int>)
  {
    forall k :: 0 <= k < |xs| ==> 0 <= xs[k] < 0x1_0000
  }

  function AsWords(xs: seq<int>): (r: seq<u16>)
    requires Fits16(xs)
    ensures |r| == |xs| && forall k :: 0 <= k < |xs| ==> r[k] == xs[k]
  {
    seq(|xs|, k requires 0 <= k < |xs| => xs[k] as u16)
  }

  /** struct.pack("<4s3B?3I", b"CLFL", x_dim, y_dim, colors_cnt, warp, bridges, holes, walls) */
  function Header(b: Board, colors: int, nb: u32, nh: u32, nw: u32): (r: seq<byte>)
    requires 0 <= b.x < 256 && 0 <= b.y < 256 && 0 <= colors < 256
    ensures |r| == 20
  {
    LevelFormat.Magic + [b.x, b.y, colors, if b.warp then 1 else 0] + LE32(nb) + LE32(nh) + LE32(nw)
  }

  /** struct.pack("<2H", b, e) for each pair of zip(points_begin, points_end). */
  function PairBytes(bs: seq<int>, es: seq<int>): (r: seq<byte>)
    requires |bs| == |es| && Fits16(bs) && Fits16(es)
    ensures |r| == 4 * |bs|
    ensures forall c :: 0 <= c < |bs| ==> ReadU16(r, 4 * c) == bs[c] && ReadU16(r, 4 * c + 2) == es[c]
  {
    if bs == [] then []
    else
      var n := |bs| - 1;
      var pre := PairBytes(bs[..n], es[..n]);
      ReadLE16(pre, bs[n], LE16(es[n]));
      ReadLE16(pre + LE16(bs[n]), es[n], []);
      assert pre + LE16(bs[n]) + LE16(es[n]) + [] == pre + LE16(bs[n]) + LE16(es[n]);
      pre + LE16(bs[n]) + LE16(es[n])
  }

  /** The wall records in key order: mask in the high nibble, p & 0xFFF below. */
  function WallWords(w: Walls): (r: seq<u16>)
    ensures |r| == |w.order|
  {
    var ks := Sort(w.order);
    seq(|ks|, i requires 0 <= i < |ks| => (0x1000 * w.Get(ks[i]).Value() + ks[i] % 0x1000) as u16)
  }

  /** Zero bytes up to the next multiple of four (lines 174-175). */
  function Padded(out: seq<byte>): (r: seq<byte>)
    ensures |r| % 4 == 0 && |out| <= |r| < |out| + 4 && r[..|out|] == out
    ensures forall k :: |out| <= k < |r| ==> r[k] == 0
  {
    if |out| % 4 != 0 then out + seq(4 - |out| % 4, _ => 0) else out
  }

  function Min(a: int, b: int): int
  {
    if a < b then a else b
  }

  /** The bytes lines 161-175 emit, or Err where a struct.pack field is out of range. */
  function Emitted(b: Board, colors: int, bridges: seq<int>, holes: seq<int>, w: Walls,
                   bs: seq<int>, es: seq<int>): Result<seq<byte>>
  {
    var n := Min(|bs|, |es|);
    if !(0 <= b.x < 256 && 0 <= b.y < 256 && 0 <= colors < 256) then Err
    else if |bridges| >= 0x1_0000_0000 || |holes| >= 0x1_0000_0000 || |w.order| >= 0x1_0000_0000 then Err
    else if !Fits16(bs[..n]) || !Fits16(es[..n]) || !Fits16(Sort(bridges)) || !Fits16(Sort(holes)) then Err
    else
      Ok(Padded(Header(b, colors, |bridges|, |holes|, |w.order|)
                + PairBytes(bs[..n], es[..n])
                + Levels.WordBytes(AsWords(Sort(bridges)))
                + Levels.WordBytes(AsWords(Sort(holes)))
                + Levels.WordBytes(WallWords(w))))
  }

  /** dim[:-2] and dim[2:] */
  function DropLast2(s: string): string
  {
    if |s| >= 2 then s[..|s| - 2] else []
  }

  function DropFirst2(s: string): string
  {
    if |s| >= 2 then s[2..] else []
  }

  /**
   * (x_dim, y_dim) from what is left of the dimension field (lines 62-69): two
   * numbers around a colon, swapped unless exactly one of warp and inv is set, or
   * one number for a square board.
   */
  function Dims(dim: string, warp: bool, inv: bool): Option<(int, int)>
  {
    if ':' in dim then
      var parts := Split(dim, ':');
      if |parts| != 2 then None
      else
        match (ParseInt(parts[0]), ParseInt(parts[1]))
        case (Some(u), Some(v)) => Some(if warp != inv then (u, v) else (v, u))
        case _ => None
    else
      match ParseInt(dim)
      case None => None
      case Some(n) => Some((n, n))
  }

  /** A parsed line: a hex level, skipped, or everything the walls and bytes need. */
  datatype LevelText =
    | Hex
    | Text(board: Board, colors: int, bridges: seq<int>, holes: seq<int>, wallPairs: seq<string>, rows: seq<string>)

  /** Optional field k of the header, when present and not empty. */
  predicate HasField(first: seq<string>, k: nat)
  {
    |first| > k && first[k] != []
  }

  /**
   * Lines 41-48: the dimension field without its suffixes I and B and its prefix
   * W (each two characters long), with the warp and inv flags W and B set; None
   * where the source indexes an empty string.
   */
  function Undecorated(dim0: string): Option<(string, bool, bool)>
  {
    if dim0 == [] then None
    else
      var dim1 := if dim0[|dim0| - 1] == 'I' then DropLast2(dim0) else dim0;
      if dim1 == [] then None
      else
        var warp := dim1[0] == 'W';
        var dim2 := if warp then DropFirst2(dim1) else dim1;
        if dim2 == [] then None
        else
          var inv := dim2[|dim2| - 1] == 'B';
          Some((if inv then DropLast2(dim2) else dim2, warp, inv))
  }

  /**
   * A dimension field as a level line spells it: "W" and one more character in
   * front of a warp board's size, and a character followed by "B" and by "I" for
   * the two suffixes.
   */
  function Decorated(dim: string, warp: bool, inv: bool, last: bool, w0: char, b0: char, i0: char): string
  {
    var withB := if inv then dim + [b0, 'B'] else dim;
    var withW := if warp then ['W', w0] + withB else withB;
    if last then withW + [i0, 'I'] else withW
  }

  /** Lines 27-58: the fields of the line and the dimension suffixes I, W and B. */
  function ParseLine(l: string): Result<LevelText>
  {
    var d := Split(l, ';');
    var first := Split(d[0], ',');
    if |first| < 4 || ParseInt(first[2]).None? || ParseInt(first[3]).None? then Err
    else if first[0] == [] then Err
    else if first[0][0] == 'X' then Ok(Hex)
    else
      match Undecorated(first[0])
      case None => Err
      case Some((dim, warp, inv)) =>
        var wallPairs := if HasField(first, 6) then Split(first[6], ':') else [];
        var holes := if HasField(first, 5) then HoleList(Split(first[5], ':')) else Some([]);
        var bridges := if HasField(first, 4) then IntList(Split(first[4], ':')) else Some([]);
        match (Dims(dim, warp, inv), holes, bridges)
        case (Some(xy), Some(hs), Some(bs)) =>
          Ok(Text(Board(xy.0, xy.1, warp), ParseInt(first[3]).value, bs, hs, wallPairs, d))
        case _ => Err
  }

  /** The walls process_level has collected before it emits anything. */
  function LevelWalls(t: LevelText): (r: Result<Walls>)
    requires t.Text?
    ensures r.Ok? ==> r.value.Valid()
  {
    match PairWalls(t.board, t.wallPairs)
    case Err => Err
    case Ok(w1) =>
      match HoleWalls(t.board, t.holes, t.holes, w1)
      case Err => Err
      case Ok(w2) => Ok(BorderWalls(t.board, t.holes, w2))
  }

  /** process_level(l): the level's bytes, empty for a hex level. */
  function Processed(l: string): Result<seq<byte>>
  {
    match ParseLine(l)
    case Err => Err
    case Ok(t) =>
      if t.Hex? then Ok([])
      else
        match (LevelWalls(t), Points(t.rows, Times(t.colors)))
        case (Ok(w), Ok(p)) => Emitted(t.board, t.colors, t.bridges, t.holes, w, p.0, p.1)
        case _ => Err
  }

  /** process_level of every line of a file, in order. */
  function Outputs(lines: seq<string>): (r: seq<Result<seq<byte>>>)
    ensures |r| == |lines|
  {
    if lines == [] then [] else Outputs(lines[..|lines| - 1]) + [Processed(lines[|lines| - 1])]
  }

  /**
   * The levels main keeps from the outputs of one file (lines 321-330): every
   * non-empty output, in order; Err when any line raised.
   */
  function Kept(outs: seq<Result<seq<byte>>>): (r: Result<seq<seq<byte>>>)
    ensures r.Ok? ==> forall k :: 0 <= k < |r.value| ==> r.value[k] != []
  {
    if outs == [] then Ok([])
    else
      var prev := Kept(outs[..|outs| - 1]);
      var out := outs[|outs| - 1];
      if prev.Err? || out.Err? then Err
      else Ok(if out.value == [] then prev.value else prev.value + [out.value])
  }

  /**
   * The pack file for these lines: the level count and the framed levels
   * (lines 330-333), None when no level was kept and the file is skipped,
   * Err where a count or a length does not fit struct.pack("<I").
   */
  function PackFile(lines: seq<string>): Result<Option<seq<byte>>>
  {
    match Kept(Outputs(lines))
    case Err => Err
    case Ok(ls) =>
      if ls == [] then Ok(None)
      else if !Packs.Packable(ls) then Err
      else Ok(Some(Packs.Payload(ls)))
  }
}
