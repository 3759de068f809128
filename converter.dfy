/**
 * process_level (convert_level_packs.py:26-177) and the pack assembly of main
 * (lines 316-333) as the loops they are: the wall dictionary grown pair by pair,
 * hole by hole and along the border, the source points collected colour by
 * colour, and the output bytes appended field by field.  Each method is proved
 * to compute the matching function of Conversion.
 */
module Converter {
  import opened Results
  import opened Bytes
  import opened Squares
  import opened PyText
  import opened WallDicts
  import opened Sorting
  import opened Conversion
  import Levels
  import Packs

  /** Once a prefix of the wall pairs fails, the whole loop fails. */
  lemma {:induction false} PairWallsErr(b: Board, ws: seq<string>, k: nat)
    requires k <= |ws| && PairWalls(b, ws[..k]).Err?
    ensures PairWalls(b, ws).Err?
    decreases |ws|
  {
    if k < |ws| {
      var init := ws[..|ws| - 1];
      assert init[..k] == ws[..k];
      PairWallsErr(b, init, k);
    } else {
      assert ws[..k] == ws;
    }
  }

  /** for w in wallspoints (lines 80-96) */
  method AddPairWalls(b: Board, ws: seq<string>) returns (r: Result<Walls>)
    ensures r == PairWalls(b, ws)
  {
    var walls := Empty;
    var i := 0;
    while i < |ws|
      invariant 0 <= i <= |ws|
      invariant PairWalls(b, ws[..i]) == Ok(walls)
    {
      assert ws[..i + 1][..i] == ws[..i];
      var pair := WallPair(ws[i]);
      if pair.None? {
        PairWallsErr(b, ws, i + 1);
        return Err;
      }
      var a, c := pair.value.0, pair.value.1;
      var side := PairSide(b, a, c);
      if side.None? {
        PairWallsErr(b, ws, i + 1);
        return Err;
      }
      walls := walls.Add(a, side.value);
      walls := walls.Add(c, side.value.Opposite());
      i := i + 1;
    }
    assert ws[..i] == ws;
    return Ok(walls);
  }

  lemma {:induction false} HoleWallsErr(b: Board, holes: seq<int>, hs: seq<int>, w: Walls, k: nat)
    requires w.Valid() && k <= |hs| && HoleWalls(b, holes, hs[..k], w).Err?
    ensures HoleWalls(b, holes, hs, w).Err?
    decreases |hs|
  {
    if k < |hs| {
      var init := hs[..|hs| - 1];
      assert init[..k] == hs[..k];
      HoleWallsErr(b, holes, init, w, k);
    } else {
      assert hs[..k] == hs;
    }
  }

  lemma NorthSide(b: Board, holes: seq<int>, w: Walls, h: int)
    requires w.Valid()
    ensures HoleSide(b, holes, w, h, North) ==
      if FirstRow(b, h) then (if b.warp then AddCond(w, holes, Total(b) - (b.x - h), South) else w)
      else AddCond(w, holes, h - b.x, South)
  {
  }

  lemma SouthSide(b: Board, holes: seq<int>, w: Walls, h: int)
    requires w.Valid()
    ensures HoleSide(b, holes, w, h, South) ==
      if LastRow(b, h) then (if b.warp then AddCond(w, holes, h + b.x - Total(b), North) else w)
      else AddCond(w, holes, h + b.x, North)
  {
  }

  lemma WestSide(b: Board, holes: seq<int>, w: Walls, h: int)
    requires w.Valid() && b.x != 0
    ensures HoleSide(b, holes, w, h, West) ==
      if FirstCol(b, h) then (if b.warp then AddCond(w, holes, h + b.x - 1, East) else w)
      else AddCond(w, holes, h - 1, East)
  {
  }

  lemma EastSide(b: Board, holes: seq<int>, w: Walls, h: int)
    requires w.Valid() && b.x != 0
    ensures HoleSide(b, holes, w, h, East) ==
      if LastCol(b, h) then (if b.warp then AddCond(w, holes, h - b.x + 1, West) else w)
      else AddCond(w, holes, h + 1, West)
  {
  }

  /** One hole's four sides, in the order and with the tests of lines 105-135. */
  method AddHoleSides(b: Board, holes: seq<int>, w: Walls, h: int) returns (r: Result<Walls>)
    requires w.Valid()
    ensures r == HoleStep(b, holes, w, h)
  {
    var walls := w;
    if FirstRow(b, h) {
      if b.warp {
        walls := AddCond(walls, holes, Total(b) - (b.x - h), South);
      }
    } else {
      walls := AddCond(walls, holes, h - b.x, South);
    }
    assert walls == HoleSide(b, holes, w, h, North) by {
      NorthSide(b, holes, w, h);
    }
    ghost var w1 := walls;
    if LastRow(b, h) {
      if b.warp {
        walls := AddCond(walls, holes, h + b.x - Total(b), North);
      }
    } else {
      walls := AddCond(walls, holes, h + b.x, North);
    }
    assert walls == HoleSide(b, holes, w1, h, South) by {
      SouthSide(b, holes, w1, h);
    }
    if b.x == 0 {
      return Err;
    }
    ghost var w2 := walls;
    if FirstCol(b, h) {
      if b.warp {
        walls := AddCond(walls, holes, h + b.x - 1, East);
      }
    } else {
      walls := AddCond(walls, holes, h - 1, East);
    }
    assert walls == HoleSide(b, holes, w2, h, West) by {
      WestSide(b, holes, w2, h);
    }
    ghost var w3 := walls;
    if LastCol(b, h) {
      if b.warp {
        walls := AddCond(walls, holes, h - b.x + 1, West);
      }
    } else {
      walls := AddCond(walls, holes, h + 1, West);
    }
    assert walls == HoleSide(b, holes, w3, h, East) by {
      EastSide(b, holes, w3, h);
    }
    return Ok(walls);
  }

  /** for h in holes (lines 104-135) */
  method AddHoleWalls(b: Board, holes: seq<int>, w: Walls) returns (r: Result<Walls>)
    requires w.Valid()
    ensures r == HoleWalls(b, holes, holes, w)
  {
    var walls := w;
    var i := 0;
    while i < |holes|
      invariant 0 <= i <= |holes|
      invariant HoleWalls(b, holes, holes[..i], w) == Ok(walls)
    {
      assert holes[..i + 1][..i] == holes[..i];
      var step := AddHoleSides(b, holes, walls, holes[i]);
      if step.Err? {
        HoleWallsErr(b, holes, holes, w, i + 1);
        return Err;
      }
      walls := step.value;
      i := i + 1;
    }
    assert holes[..i] == holes;
    return Ok(walls);
  }

  lemma {:induction false} TopBottomStep(b: Board, holes: seq<int>, w: Walls, x: nat)
    requires w.Valid()
    ensures TopBottom(b, holes, w, x + 1) ==
      AddCond(AddCond(TopBottom(b, holes, w, x), holes, x, North), holes, Total(b) - x - 1, South)
  {
  }

  lemma {:induction false} SidesStep(b: Board, holes: seq<int>, w: Walls, y: nat, p1: int)
    requires w.Valid() && p1 == y * b.x
    ensures Sides(b, holes, w, y + 1) ==
      AddCond(AddCond(Sides(b, holes, w, y), holes, p1, West), holes, p1 + b.x - 1, East)
  {
  }

  /** if not warp: the two border loops of lines 137-147 */
  method AddBorderWalls(b: Board, holes: seq<int>, w: Walls) returns (r: Walls)
    requires w.Valid()
    ensures r == BorderWalls(b, holes, w)
  {
    if b.warp {
      return w;
    }
    var walls := w;
    var x := 0;
    while x < Times(b.x)
      invariant 0 <= x <= Times(b.x)
      invariant walls == TopBottom(b, holes, w, x)
    {
      TopBottomStep(b, holes, w, x);
      walls := AddCond(walls, holes, x, North);
      walls := AddCond(walls, holes, Total(b) - x - 1, South);
      x := x + 1;
    }
    var top := walls;
    var y := 0;
    while y < Times(b.y)
      invariant 0 <= y <= Times(b.y)
      invariant walls == Sides(b, holes, top, y)
    {
      var p1 := y * b.x;
      SidesStep(b, holes, top, y, p1);
      walls := AddCond(walls, holes, p1, West);
      walls := AddCond(walls, holes, p1 + b.x - 1, East);
      y := y + 1;
    }
    return walls;
  }

  lemma {:induction false} PointsErr(rows: seq<string>, i: nat, k: nat)
    requires i <= k && Points(rows, i).Err?
    ensures Points(rows, k).Err?
    decreases k - i
  {
    if i < k {
      PointsErrStep(rows, i + 1);
      PointsErr(rows, i + 1, k);
    }
  }

  lemma PointsErrStep(rows: seq<string>, k: nat)
    requires 0 < k && Points(rows, k - 1).Err?
    ensures Points(rows, k).Err?
  {
  }

  /** One step of the integer list: the parsed prefix grows by one value or fails. */
  lemma {:induction false} IntListStep(v: seq<string>, j: nat)
    requires j < |v|
    ensures IntList(v[..j + 1]) ==
      if IntList(v[..j]).Some? && ParseInt(v[j]).Some? then Some(IntList(v[..j]).value + [ParseInt(v[j]).value])
      else None
  {
    assert v[..j + 1][..j] == v[..j];
  }

  /** The inner loop of lines 154-159: enumerate(map(int, v), 1). */
  method AddColourEnds(v: seq<string>, begin0: seq<int>, end0: seq<int>) returns (r: Option<(seq<int>, seq<int>)>)
    ensures r == ColourEnds(v, begin0, end0)
  {
    var begin, end := begin0, end0;
    var j := 0;
    while j < |v|
      invariant 0 <= j <= |v|
      invariant IntList(v[..j]).Some?
      invariant begin == if j == 0 then begin0 else begin0 + [IntList(v[..j]).value[0]]
      invariant end == if j == |v| && j >= 2 then end0 + [IntList(v[..j]).value[j - 1]] else end0
    {
      IntListStep(v, j);
      var pt := ParseInt(v[j]);
      if pt.None? {
        IntListNone(v, j + 1);
        return None;
      }
      if j == 0 {
        begin := begin + [pt.value];
      } else if j == |v| - 1 {
        end := end + [pt.value];
      }
      j := j + 1;
    }
    assert v[..j] == v;
    return Some((begin, end));
  }

  /** The point loop of lines 151-159. */
  method CollectPoints(rows: seq<string>, colors: int) returns (r: Result<(seq<int>, seq<int>)>)
    ensures r == Points(rows, Times(colors))
  {
    var begin: seq<int> := [];
    var end: seq<int> := [];
    var i := 0;
    while i < Times(colors)
      invariant 0 <= i <= Times(colors)
      invariant Points(rows, i) == Ok((begin, end))
    {
      if i + 1 >= |rows| {
        PointsErr(rows, i + 1, Times(colors));
        return Err;
      }
      var ends := AddColourEnds(Split(rows[i + 1], ','), begin, end);
      if ends.None? {
        PointsErr(rows, i + 1, Times(colors));
        return Err;
      }
      begin, end := ends.value.0, ends.value.1;
      i := i + 1;
    }
    return Ok((begin, end));
  }

  lemma {:induction false} IntListNone(v: seq<string>, j: nat)
    requires j <= |v| && IntList(v[..j]).None?
    ensures IntList(v).None?
    decreases |v|
  {
    if j < |v| {
      var init := v[..|v| - 1];
      assert init[..j] == v[..j];
      IntListNone(init, j);
    } else {
      assert v[..j] == v;
    }
  }

  lemma {:induction false} WordBytesSnoc(ws: seq<u16>, x: u16)
    ensures Levels.WordBytes(ws + [x]) == Levels.WordBytes(ws) + LE16(x)
  {
    assert (ws + [x])[..|ws|] == ws;
  }

  lemma {:induction false} PairBytesSnoc(bs: seq<int>, es: seq<int>, k: nat)
    requires k < |bs| && k < |es| && Fits16(bs[..k + 1]) && Fits16(es[..k + 1])
    ensures Fits16(bs[..k]) && Fits16(es[..k]) && 0 <= bs[k] < 0x1_0000 && 0 <= es[k] < 0x1_0000
    ensures PairBytes(bs[..k + 1], es[..k + 1]) == PairBytes(bs[..k], es[..k]) + LE16(bs[k]) + LE16(es[k])
  {
    assert bs[..k + 1][..k] == bs[..k] && es[..k + 1][..k] == es[..k];
    assert bs[..k + 1][k] == bs[k] && es[..k + 1][k] == es[k];
  }

  /** for b, e in zip(points_begin, points_end): out += struct.pack("<2H", b, e) */
  method PackPairs(bs: seq<int>, es: seq<int>) returns (r: Option<seq<byte>>)
    ensures var n := Min(|bs|, |es|);
      r == if Fits16(bs[..n]) && Fits16(es[..n]) then Some(PairBytes(bs[..n], es[..n])) else None
  {
    var n := Min(|bs|, |es|);
    var out := [];
    var k := 0;
    while k < n
      invariant 0 <= k <= n
      invariant Fits16(bs[..k]) && Fits16(es[..k])
      invariant out == PairBytes(bs[..k], es[..k])
    {
      if !(0 <= bs[k] < 0x1_0000 && 0 <= es[k] < 0x1_0000) {
        assert bs[..n][k] == bs[k] && es[..n][k] == es[k];
        return None;
      }
      assert Fits16(bs[..k + 1]) && Fits16(es[..k + 1]) by {
        assert forall j :: 0 <= j < k ==> bs[..k + 1][j] == bs[..k][j] && es[..k + 1][j] == es[..k][j];
      }
      PairBytesSnoc(bs, es, k);
      out := out + LE16(bs[k]) + LE16(es[k]);
      k := k + 1;
    }
    return Some(out);
  }

  /** for b in xs: out += struct.pack("<H", b) */
  method PackShorts(xs: seq<int>) returns (r: Option<seq<byte>>)
    ensures r == if Fits16(xs) then Some(Levels.WordBytes(AsWords(xs))) else None
  {
    var out := [];
    var k := 0;
    while k < |xs|
      invariant 0 <= k <= |xs|
      invariant Fits16(xs[..k])
      invariant out == Levels.WordBytes(AsWords(xs[..k]))
    {
      if !(0 <= xs[k] < 0x1_0000) {
        return None;
      }
      assert AsWords(xs[..k + 1]) == AsWords(xs[..k]) + [xs[k] as u16];
      WordBytesSnoc(AsWords(xs[..k]), xs[k] as u16);
      out := out + LE16(xs[k] as u16);
      k := k + 1;
    }
    assert xs[..k] == xs;
    return Some(out);
  }

  /** wallsinfo sorted by key, each record ((d & 0xF) << 12) | (p & 0xFFF) (lines 169-172) */
  method PackWalls(w: Walls) returns (out: seq<byte>)
    ensures out == Levels.WordBytes(WallWords(w))
  {
    var info := Sort(w.order);
    var words := WallWords(w);
    out := [];
    var k := 0;
    while k < |info|
      invariant 0 <= k <= |info|
      invariant out == Levels.WordBytes(words[..k])
    {
      var p := info[k];
      var d := w.Get(p);
      var word: u16 := 0x1000 * d.Value() + p % 0x1000;
      assert words[..k + 1] == words[..k] + [word];
      WordBytesSnoc(words[..k], word);
      out := out + LE16(word);
      k := k + 1;
    }
    assert words[..k] == words;
  }

  /** Lines 161-175: the header, the source pairs, the three lists and the padding. */
  method Emit(b: Board, colors: int, bridges: seq<int>, holes: seq<int>, w: Walls,
              bs: seq<int>, es: seq<int>) returns (r: Result<seq<byte>>)
    ensures r == Emitted(b, colors, bridges, holes, w, bs, es)
  {
    if !(0 <= b.x < 256 && 0 <= b.y < 256 && 0 <= colors < 256) {
      return Err;
    }
    if |bridges| >= 0x1_0000_0000 || |holes| >= 0x1_0000_0000 || |w.order| >= 0x1_0000_0000 {
      return Err;
    }
    var out := Header(b, colors, |bridges|, |holes|, |w.order|);
    var pairs := PackPairs(bs, es);
    if pairs.None? {
      return Err;
    }
    var sortedBridges := PackShorts(Sort(bridges));
    if sortedBridges.None? {
      return Err;
    }
    var sortedHoles := PackShorts(Sort(holes));
    if sortedHoles.None? {
      return Err;
    }
    var walls := PackWalls(w);
    out := out + pairs.value + sortedBridges.value + sortedHoles.value + walls;
    ghost var unpadded := out;
    assert Emitted(b, colors, bridges, holes, w, bs, es) == Ok(Padded(unpadded));
    if |out| % 4 != 0 {
      out := out + seq(4 - |out| % 4, _ => 0);
    }
    assert out == Padded(unpadded);
    return Ok(out);
  }

  /** process_level(l) */
  method ProcessLevel(l: string) returns (r: Result<seq<byte>>)
    ensures r == Processed(l)
  {
    var parsed := ParseLine(l);
    if parsed.Err? {
      return Err;
    }
    var t := parsed.value;
    if t.Hex? {
      return Ok([]);
    }
    var pairWalls := AddPairWalls(t.board, t.wallPairs);
    if pairWalls.Err? {
      return Err;
    }
    var holeWalls := AddHoleWalls(t.board, t.holes, pairWalls.value);
    if holeWalls.Err? {
      return Err;
    }
    var walls := AddBorderWalls(t.board, t.holes, holeWalls.value);
    assert LevelWalls(t) == Ok(walls);
    var points := CollectPoints(t.rows, t.colors);
    if points.Err? {
      return Err;
    }
    r := Emit(t.board, t.colors, t.bridges, t.holes, walls, points.value.0, points.value.1);
  }

  /** Entry i of the outputs is process_level of line i. */
  lemma {:induction false} OutputsAt(lines: seq<string>, i: nat)
    requires i < |lines|
    ensures Outputs(lines)[i] == Processed(lines[i])
    decreases |lines|
  {
    var init := lines[..|lines| - 1];
    assert Outputs(lines) == Outputs(init) + [Processed(lines[|lines| - 1])];
    if i < |lines| - 1 {
      OutputsAt(init, i);
      assert init[i] == lines[i];
    }
  }

  lemma {:induction false} KeptErr(outs: seq<Result<seq<byte>>>, k: nat)
    requires k <= |outs| && Kept(outs[..k]).Err?
    ensures Kept(outs).Err?
    decreases |outs|
  {
    if k < |outs| {
      var init := outs[..|outs| - 1];
      assert init[..k] == outs[..k];
      KeptErr(init, k);
    } else {
      assert outs[..k] == outs;
    }
  }

  /** Later outputs only add levels: the levels kept from a prefix start the levels kept from all. */
  lemma {:induction false} KeptGrow(outs: seq<Result<seq<byte>>>, k: nat)
    requires k <= |outs| && Kept(outs).Ok?
    ensures Kept(outs[..k]).Ok?
    ensures Kept(outs[..k]).value <= Kept(outs).value
    decreases |outs|
  {
    if k < |outs| {
      var init := outs[..|outs| - 1];
      assert init[..k] == outs[..k];
      KeptGrow(init, k);
    } else {
      assert outs[..k] == outs;
    }
  }

  lemma {:induction false} KeptStep(outs: seq<Result<seq<byte>>>, i: nat)
    requires i < |outs| && Kept(outs[..i]).Ok?
    ensures Kept(outs[..i + 1]) ==
      if outs[i].Err? then Err
      else if outs[i].value == [] then Kept(outs[..i])
      else Ok(Kept(outs[..i]).value + [outs[i].value])
  {
    assert outs[..i + 1][..i] == outs[..i];
  }

  lemma {:induction false} FramedSnoc(levels: seq<seq<byte>>, l: seq<byte>)
    requires Packs.Frameable(levels) && |l| < 0x1_0000_0000
    ensures Packs.Frameable(levels + [l])
    ensures Packs.Framed(levels + [l]) == Packs.Framed(levels) + LE32(|l|) + l
    decreases |levels|
  {
    if levels == [] {
      assert Packs.Framed([l][1..]) == [];
    } else {
      assert (levels + [l])[1..] == levels[1..] + [l];
      FramedSnoc(levels[1..], l);
    }
  }

  /** The per-file loop of main (lines 316-333), for the lines of one file. */
  method AssemblePack(lines: seq<string>) returns (r: Result<Option<seq<byte>>>)
    ensures r == PackFile(lines)
  {
    ghost var outs := Outputs(lines);
    var out: seq<byte> := [];
    var cnt := 0;
    ghost var levels: seq<seq<byte>> := [];
    var i := 0;
    while i < |lines|
      invariant 0 <= i <= |lines|
      invariant Kept(outs[..i]) == Ok(levels)
      invariant Packs.Frameable(levels) && cnt == |levels| && out == Packs.Framed(levels)
    {
      var outlvl := ProcessLevel(lines[i]);
      OutputsAt(lines, i);
      KeptStep(outs, i);
      if outlvl.Err? {
        KeptErr(outs, i + 1);
        return Err;
      }
      if |outlvl.value| == 0 {
        i := i + 1;
        continue;
      }
      if |outlvl.value| >= 0x1_0000_0000 {
        if Kept(outs).Ok? {
          KeptGrow(outs, i + 1);
          assert Kept(outs).value[|levels|] == outlvl.value;
        }
        return Err;
      }
      FramedSnoc(levels, outlvl.value);
      levels := levels + [outlvl.value];
      cnt := cnt + 1;
      out := out + LE32(|outlvl.value|) + outlvl.value;
      i := i + 1;
    }
    assert outs[..i] == outs;
    if cnt == 0 {
      return Ok(None);
    }
    if cnt >= 0x1_0000_0000 {
      return Err;
    }
    return Ok(Some(LE32(cnt) + out));
  }
}
