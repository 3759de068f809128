/**
 * The path editor of the play screen (class LevelContainer, main.cpp:913-922 and
 * 1124-1344): a cursor over the board, the colour of the path being drawn, the
 * last move and whether it deleted a connection, which bridge layer selection
 * looks at, and whether the board needs saving.
 *
 * The session and the board are values here; AfterSelect, AfterReset, AfterToggle and
 * AfterMove give their effect, and class Editor at the end of the module performs the
 * same operations in place and is proved against them.
 */
module Editor {
  import opened Results
  import opened Bytes
  import opened Squares
  import opened Levels

  /** The editor fields: playing_cursor_idx, selected_color, last_move_direction, deleted_connection, playing_bridge_above and level_data_changed. */
  datatype Session = Session(cursor: u16, selected: u16, lastMove: Option<Dir>, deleted: bool, bridgeAbove: bool, changed: bool)

  /** The session and the squares of the level being played. */
  datatype Play = Play(session: Session, board: seq<Square>)

  /** What selected_level_to_play (main.cpp:1124-1141) sets when another level is opened. */
  const Opened: Session := Session(0, 0, None, false, false, false)

  /**
   * The states play keeps: a playable board with consistent paths, the cursor on
   * the board, and on a cell that is not a hole while a colour is selected.
   */
  ghost predicate Inv(g: Geometry, p: Play)
  {
    && Playable(g, p.board)
    && LinksConsistent(g, p.board)
    && p.session.cursor < |p.board|
    && (p.session.selected != 0 ==> !p.board[p.session.cursor].hole)
  }

  /** Opening a level on a playable board with no paths drawn gives a state play keeps. */
  lemma OpenedInv(g: Geometry, board: seq<Square>)
    requires Playable(g, board) && LinksConsistent(g, board)
    ensures Inv(g, Play(Opened, board))
  {
  }

  /** The number of connections of s on the layer `vertical` selects (every direction on a plain cell). */
  function LinkCount(s: Square, vertical: bool): (n: nat)
    ensures n <= 4
    ensures n == 0 <==> NoLinkOn(s, vertical)
  {
    assert OnLayer(s, vertical, North) || OnLayer(s, vertical, East);
    (if OnLayer(s, vertical, North) && s.HasLink(North) then 1 else 0)
      + (if OnLayer(s, vertical, East) && s.HasLink(East) then 1 else 0)
      + (if OnLayer(s, vertical, South) && s.HasLink(South) then 1 else 0)
      + (if OnLayer(s, vertical, West) && s.HasLink(West) then 1 else 0)
  }

  /** The connection counts the editor consults are the link counts of a layer. */
  lemma CountsAreLinkCounts(s: Square)
    requires Layered(s)
    ensures s.ConnectionCount() == LinkCount(s, true)
    ensures !s.bridge ==> s.ConnectionCount() == LinkCount(s, false)
    ensures s.bridge ==> s.AboveConnCount() == LinkCount(s, false)
  {
  }

  /** A layer holding one connection holds it toward exactly one direction. */
  lemma OneLink(s: Square, vertical: bool, d: Dir)
    requires LinkCount(s, vertical) == 1 && OnLayer(s, vertical, d) && s.HasLink(d)
    ensures SingleLinkOn(s, vertical, d)
  {
  }

  /** The direction of the one connection of a layer that holds one. */
  function OnlyLink(s: Square, vertical: bool): (d: Dir)
    requires LinkCount(s, vertical) == 1
    ensures SingleLinkOn(s, vertical, d)
  {
    var d := if OnLayer(s, vertical, North) && s.HasLink(North) then North
      else if OnLayer(s, vertical, East) && s.HasLink(East) then East
      else if OnLayer(s, vertical, South) && s.HasLink(South) then South
      else West;
    OneLink(s, vertical, d);
    d
  }

  /** The colour select_square picks up at cell s, 0 for none. */
  function PickedColor(s: Square, above: bool): byte
  {
    if s.hole then 0
    else if s.source then (if !s.IsConnected() then s.color else 0)
    else if s.bridge then
      if above then (if s.AboveConnCount() == 1 then s.aboveColor else 0)
      else (if s.ConnectionCount() == 1 then s.color else 0)
    else if s.ConnectionCount() == 1 then s.color else 0
  }

  /** select_square (main.cpp:1143-1187): drop the selected colour, or pick one up at the cursor. */
  function AfterSelect(p: Play): (r: Play)
    requires p.session.cursor < |p.board|
    ensures r.board == p.board
    ensures r.session == p.session.(selected := r.session.selected)
    ensures p.session.selected != 0 ==> r.session.selected == 0
  {
    var e := p.session;
    if e.selected != 0 then Play(e.(selected := 0), p.board)
    else Play(e.(selected := PickedColor(p.board[e.cursor], e.bridgeAbove)), p.board)
  }

  /**
   * What select_square picks up: the colour of an unconnected source, or of the
   * active layer of any other cell whose active layer is a single path end; the
   * overlay is active on a bridge while playing_bridge_above is set.
   */
  lemma PickedColorCases(s: Square, above: bool)
    requires Layered(s)
    ensures s.hole ==> PickedColor(s, above) == 0
    ensures !s.hole && s.source ==>
      PickedColor(s, above) == if LinkCount(s, true) == 0 then s.color else 0
    ensures !s.hole && !s.source && !(s.bridge && above) ==>
      PickedColor(s, above) == if LinkCount(s, true) == 1 then s.color else 0
    ensures !s.hole && !s.source && s.bridge && above ==>
      PickedColor(s, above) == if LinkCount(s, false) == 1 then s.aboveColor else 0
  {
    CountsAreLinkCounts(s);
    if s.hole {
    } else if s.source {
      assert s.IsConnected() <==> s.direction.Count() != 0;
    } else if s.bridge && above {
      assert s.AboveConnCount() == LinkCount(s, false);
    } else if s.bridge {
      assert s.ConnectionCount() == LinkCount(s, true);
    } else {
      assert s.ConnectionCount() == LinkCount(s, true);
    }
  }

  /** Select in terms of the cell under the cursor, on a board whose bridges keep their layers apart. */
  lemma SelectPicks(p: Play)
    requires p.session.cursor < |p.board| && p.session.selected == 0
    requires Layered(p.board[p.session.cursor])
    ensures var s := p.board[p.session.cursor];
      && (s.hole ==> AfterSelect(p).session.selected == 0)
      && (!s.hole && s.source ==>
            AfterSelect(p).session.selected == if LinkCount(s, true) == 0 then s.color else 0)
      && (!s.hole && !s.source && !(s.bridge && p.session.bridgeAbove) ==>
            AfterSelect(p).session.selected == if LinkCount(s, true) == 1 then s.color else 0)
      && (!s.hole && !s.source && s.bridge && p.session.bridgeAbove ==>
            AfterSelect(p).session.selected == if LinkCount(s, false) == 1 then s.aboveColor else 0)
  {
    PickedColorCases(p.board[p.session.cursor], p.session.bridgeAbove);
  }

  /** Two selections in a row starting with no colour selected end with none selected. */
  lemma SelectTwice(p: Play)
    requires p.session.cursor < |p.board| && p.session.selected == 0
    ensures AfterSelect(AfterSelect(p)).session.selected == 0
    ensures AfterSelect(AfterSelect(p)).board == p.board
  {
  }

  /** reset_level (main.cpp:1189-1196). */
  function AfterReset(p: Play): (r: Play)
    ensures r.board == ResetSquares(p.board)
    ensures r.session == p.session.(selected := 0, changed := true)
  {
    Play(p.session.(selected := 0, changed := true), ResetSquares(p.board))
  }

  /** Toggling playing_bridge_above (main.cpp:1817). */
  function AfterToggle(p: Play): (r: Play)
    ensures r.board == p.board
    ensures r.session == p.session.(bridgeAbove := !p.session.bridgeAbove)
  {
    Play(p.session.(bridgeAbove := !p.session.bridgeAbove), p.board)
  }

  /** move_playing_cursor (main.cpp:1198-1206): the last move is recorded only while drawing. */
  function MoveCursor(e: Session, newIdx: u16, d: Dir): (r: Session)
    ensures r.cursor == newIdx && r.selected == e.selected
  {
    if e.selected != 0 then e.(cursor := newIdx, lastMove := Some(d), deleted := false)
    else e.(cursor := newIdx)
  }

  /** last_move_direction & bridge_dirs != 0: the last move ran along the axis of this one. */
  predicate AlongAxis(last: Option<Dir>, vertical: bool)
  {
    last.Some? && last.value.Vertical() == vertical
  }

  /** The retraction test of playing_cursor_move_either (main.cpp:1221-1227). */
  predicate Retracts(cur: Square, d: Dir)
  {
    || (!d.Vertical() && cur.bridge && cur.AboveConnCount() == 1
        && (if d == East then cur.aboveDirection.east else cur.aboveDirection.west))
    || (d.Vertical() && cur.bridge && cur.ConnectionCount() == 1 && cur.direction.Has(d))
    || (!cur.bridge && cur.ConnectionCount() == 1 && cur.direction.Has(d))
  }

  /** The outcome of examining the target cell: refused, or joined with the board after any removal. */
  datatype Target = Refuse | Join(complete: bool, board: seq<Square>)

  /** The target cases of playing_cursor_move_either (main.cpp:1238-1291). */
  function TargetStep(g: Geometry, sq: seq<Square>, newIdx: u16, vertical: bool, selected: u16): (r: Target)
    requires EdgesWalled(g, sq) && newIdx < |sq| && !sq[newIdx].hole
    ensures r.Join? ==> |r.board| == |sq|
  {
    var next := sq[newIdx];
    MovesStayOnWalled(g, sq, newIdx);
    if next.bridge then
      var connections := if vertical then next.ConnectionCount() else next.AboveConnCount();
      if connections == 1 then
        if (if vertical then next.color else next.aboveColor) == selected then Join(true, sq)
        else Join(false, RemovedSingleConnection(g, sq, newIdx, vertical))
      else Join(false, sq)
    else if next.color == selected then
      var connections := next.ConnectionCount();
      if (connections == 1 && !next.source) || (connections == 0 && next.source) then Join(true, sq)
      else if connections == 2 then Refuse
      else Join(false, sq)
    else if !next.source then
      if next.ConnectionCount() <= 1 then Join(false, RemovedSingleConnection(g, sq, newIdx, false))
      else Refuse
    else Refuse
  }

  /** The two add_direction_color calls of a forward move: the target first, then the cell it is entered from. */
  function Extended(sq: seq<Square>, i: int, j: int, d: Dir, col: byte): (r: seq<Square>)
    requires 0 <= i < |sq| && 0 <= j < |sq|
    ensures |r| == |sq|
  {
    var sq1 := sq[j := sq[j].AddDirectionColor(d.Opposite(), col)];
    sq1[i := sq1[i].AddDirectionColor(d, col)]
  }

  /**
   * playing_cursor_move_either (main.cpp:1208-1298), for a colour selected and a
   * move toward d from the cursor to its open neighbour newIdx.
   */
  function AfterMoveEither(g: Geometry, p: Play, newIdx: u16, d: Dir): (r: Play)
    requires Inv(g, p) && p.session.selected != 0
    requires !p.board[p.session.cursor].walls.Has(d)
    requires newIdx == Neighbour(g, |p.board|, p.session.cursor, d) && newIdx != p.session.cursor
  {
    var e, sq := p.session, p.board;
    var vertical := d.Vertical();
    var cur := sq[e.cursor];
    NeighbourInBoard(g, |sq|, e.cursor, d);
    assert Next(g, sq, e.cursor, d) == sq[newIdx];
    if cur.bridge && !AlongAxis(e.lastMove, vertical) then p
    else if Retracts(cur, d) then
      MovesStayOnWalled(g, sq, e.cursor);
      Play(MoveCursor(e, newIdx, d).(deleted := true, changed := true),
           RemovedSingleConnection(g, sq, e.cursor, vertical))
    else
      match TargetStep(g, sq, newIdx, vertical, e.selected)
      case Refuse => p
      case Join(complete, sq1) =>
        Play(MoveCursor(e, newIdx, d).(changed := true, selected := if complete then 0 else e.selected),
             Extended(sq1, e.cursor, newIdx, d, e.selected % 256))
  }

  /**
   * playing_cursor_{up,down,left,right} (main.cpp:1300-1344): walls block only
   * while a colour is selected; a move that stays put does nothing.
   */
  function AfterMove(g: Geometry, p: Play, d: Dir): (r: Play)
    requires Inv(g, p)
  {
    var e, sq := p.session, p.board;
    var newIdx := MoveChecked(g, sq, e.cursor, d, e.selected != 0);
    if newIdx == e.cursor then p
    else if e.selected != 0 then
      CheckedMoveOnBoard(g, sq, e.cursor, d);
      AfterMoveEither(g, p, newIdx, d)
    else Play(MoveCursor(e, newIdx, d), sq)
  }

  /** The intents of the play screen. */
  datatype Command = Go(d: Dir) | Pick | Reset | Toggle

  function Step(g: Geometry, p: Play, c: Command): (r: Play)
    requires Inv(g, p)
  {
    match c
    case Go(d) => AfterMove(g, p, d)
    case Pick => AfterSelect(p)
    case Reset => AfterReset(p)
    case Toggle => AfterToggle(p)
  }

  /** A cell whose layer holds no connection, or one, has its layer cleared cleanly by remove_single_connection. */
  lemma {:induction false} RemovalKeeps(g: Geometry, sq: seq<Square>, idx: u16, vertical: bool)
    requires EdgesWalled(g, sq) && LinksConsistent(g, sq) && idx < |sq| && !sq[idx].hole
    requires LinkCount(sq[idx], vertical) <= 1
    ensures MovesStayOn(g, sq, idx)
    ensures var r := RemovedSingleConnection(g, sq, idx, vertical);
      && SameLayouts(sq, r)
      && LinksConsistent(g, r)
      && r[idx] in {sq[idx], ClearedLayer(sq[idx], vertical)}
  {
    MovesStayOnWalled(g, sq, idx);
    var r := RemovedSingleConnection(g, sq, idx, vertical);
    if LinkCount(sq[idx], vertical) == 0 {
      RemoveSingleConnectionIdle(g, sq, idx, vertical);
    } else {
      var e := OnlyLink(sq[idx], vertical);
      RemoveSingleConnectionEffect(g, sq, idx, vertical, e);
      var j := Neighbour(g, |sq|, idx, e);
      assert SameLayouts(sq, r) by {
        forall k | 0 <= k < |sq|
          ensures SameLayout(sq[k], r[k])
        {
          if k == j {
            assert r[j] == sq[j].WithoutDirection(e.Opposite());
          }
        }
      }
    }
  }

  /** Entering a target leaves a consistent board with the same layout, and touches at most the active layer of a bridge target. */
  lemma {:induction false} TargetKeeps(g: Geometry, sq: seq<Square>, newIdx: u16, vertical: bool, selected: u16)
    requires EdgesWalled(g, sq) && LinksConsistent(g, sq) && newIdx < |sq| && !sq[newIdx].hole
    ensures var t := TargetStep(g, sq, newIdx, vertical, selected);
      t.Join? ==>
        && SameLayouts(sq, t.board)
        && LinksConsistent(g, t.board)
        && (sq[newIdx].bridge ==> t.board[newIdx] in {sq[newIdx], ClearedLayer(sq[newIdx], vertical)})
  {
    var next := sq[newIdx];
    assert Layered(next);
    CountsAreLinkCounts(next);
    var t := TargetStep(g, sq, newIdx, vertical, selected);
    if t.Join? && t.board != sq {
      if next.bridge {
        RemovalKeeps(g, sq, newIdx, vertical);
      } else {
        RemovalKeeps(g, sq, newIdx, false);
      }
    }
  }

  /** The retraction test holds exactly when the layer of the move holds a single connection, toward d. */
  lemma RetractsSingle(cur: Square, d: Dir)
    requires Layered(cur)
    ensures Retracts(cur, d) <==> SingleLinkOn(cur, d.Vertical(), d)
  {
    CountsAreLinkCounts(cur);
    if Retracts(cur, d) {
      OneLink(cur, d.Vertical(), d);
    }
  }

  /** add_direction_color puts east and west of a bridge into its overlay, so bridges keep their layers apart. */
  lemma AddKeepsLayered(s: Square, d: Dir, col: byte)
    requires Layered(s)
    ensures Layered(s.AddDirectionColor(d, col))
  {
  }

  /** Joining cell i to its open neighbour toward d keeps a playable board consistent. */
  lemma ExtendedConsistent(g: Geometry, sq: seq<Square>, i: int, d: Dir, col: byte)
    requires Playable(g, sq) && LinksConsistent(g, sq) && 0 <= i < |sq| && !sq[i].hole && !sq[i].walls.Has(d)
    requires Neighbour(g, |sq|, i, d) != i
    ensures Neighbour(g, |sq|, i, d) < |sq|
    ensures var r := Extended(sq, i, Neighbour(g, |sq|, i, d), d, col);
      SameLayouts(sq, r) && LinksConsistent(g, r)
  {
    NeighbourInBoard(g, |sq|, i, d);
    var j := Neighbour(g, |sq|, i, d);
    var r := Extended(sq, i, j, d, col);
    assert Next(g, sq, i, d) == sq[j] && Next(g, r, i, d) == r[j];
    assert Layered(sq[j]) && Layered(sq[i]);
    AddKeepsLayered(sq[j], d.Opposite(), col);
    AddKeepsLayered(sq[i], d, col);
    AddPairConsistent(g, sq, r, i, d);
  }

  /** A retraction keeps a playable board consistent, with the layout of every cell unchanged. */
  lemma {:induction false} RetractKeeps(g: Geometry, sq: seq<Square>, i: u16, d: Dir)
    requires Playable(g, sq) && LinksConsistent(g, sq) && i < |sq| && !sq[i].hole && Retracts(sq[i], d)
    ensures MovesStayOn(g, sq, i)
    ensures var r := RemovedSingleConnection(g, sq, i, d.Vertical());
      SameLayouts(sq, r) && Playable(g, r) && LinksConsistent(g, r)
  {
    assert Layered(sq[i]);
    RetractsSingle(sq[i], d);
    RemoveSingleConnectionEffect(g, sq, i, d.Vertical(), d);
    var r := RemovedSingleConnection(g, sq, i, d.Vertical());
    assert SameLayouts(sq, r);
    PlayableByLayout(g, sq, r);
  }

  /** Entering the target and joining it to cell i keeps a playable board consistent, with the layout of every cell unchanged. */
  lemma {:induction false} JoinKeeps(g: Geometry, sq: seq<Square>, i: u16, j: u16, d: Dir, selected: u16)
    requires Playable(g, sq) && LinksConsistent(g, sq) && i < |sq| && !sq[i].hole && !sq[i].walls.Has(d)
    requires j == Neighbour(g, |sq|, i, d) && j != i && j < |sq| && !sq[j].hole
    ensures var t := TargetStep(g, sq, j, d.Vertical(), selected);
      t.Join? ==>
        var r := Extended(t.board, i, j, d, selected % 256);
        SameLayouts(sq, r) && Playable(g, r) && LinksConsistent(g, r)
  {
    var t := TargetStep(g, sq, j, d.Vertical(), selected);
    TargetKeeps(g, sq, j, d.Vertical(), selected);
    if t.Join? {
      PlayableByLayout(g, sq, t.board);
      ExtendedConsistent(g, t.board, i, d, selected % 256);
      var r := Extended(t.board, i, j, d, selected % 256);
      PlayableByLayout(g, t.board, r);
      assert SameLayouts(sq, r) by {
        forall k | 0 <= k < |sq|
          ensures SameLayout(sq[k], r[k])
        {
          assert SameLayout(sq[k], t.board[k]) && SameLayout(t.board[k], r[k]);
        }
      }
    }
  }

  /** MoveEither keeps the states play keeps, with the layout of every cell unchanged. */
  lemma {:induction false} MoveEitherInv(g: Geometry, p: Play, newIdx: u16, d: Dir)
    requires Inv(g, p) && p.session.selected != 0
    requires !p.board[p.session.cursor].walls.Has(d)
    requires newIdx == Neighbour(g, |p.board|, p.session.cursor, d) && newIdx != p.session.cursor
    ensures Inv(g, AfterMoveEither(g, p, newIdx, d)) && SameLayouts(p.board, AfterMoveEither(g, p, newIdx, d).board)
  {
    var e, sq := p.session, p.board;
    var i := e.cursor;
    var cur := sq[i];
    NeighbourInBoard(g, |sq|, i, d);
    assert Next(g, sq, i, d) == sq[newIdx];
    var r := AfterMoveEither(g, p, newIdx, d);
    if cur.bridge && !AlongAxis(e.lastMove, d.Vertical()) {
      assert r == p;
    } else if Retracts(cur, d) {
      RetractKeeps(g, sq, i, d);
      assert r.board == RemovedSingleConnection(g, sq, i, d.Vertical());
    } else {
      JoinKeeps(g, sq, i, newIdx, d, e.selected);
    }
  }

  /** Every move keeps the states play keeps, with the layout of every cell unchanged. */
  lemma MovePreservesInv(g: Geometry, p: Play, d: Dir)
    requires Inv(g, p)
    ensures Inv(g, AfterMove(g, p, d)) && SameLayouts(p.board, AfterMove(g, p, d).board)
  {
    var e, sq := p.session, p.board;
    var newIdx := MoveChecked(g, sq, e.cursor, d, e.selected != 0);
    if newIdx == e.cursor {
    } else if e.selected != 0 {
      CheckedMoveOnBoard(g, sq, e.cursor, d);
      MoveEitherInv(g, p, newIdx, d);
    } else {
      NeighbourInBoard(g, |sq|, e.cursor, d);
    }
  }

  /** Every intent keeps the states play keeps, with the layout of every cell unchanged. */
  lemma StepPreservesInv(g: Geometry, p: Play, c: Command)
    requires Inv(g, p)
    ensures Inv(g, Step(g, p, c)) && SameLayouts(p.board, Step(g, p, c).board)
  {
    match c
    case Go(d) => MovePreservesInv(g, p, d);
    case Pick =>
    case Reset =>
      ResetClearsPaths(g, p.board);
      PlayableByLayout(g, p.board, ResetSquares(p.board));
    case Toggle =>
  }

  /** A sequence of intents, each applied to the state the previous one left. */
  function Run(g: Geometry, p: Play, cs: seq<Command>): (r: Play)
    requires Inv(g, p)
    ensures Inv(g, r) && SameLayouts(p.board, r.board)
    decreases |cs|
  {
    if cs == [] then p
    else
      StepPreservesInv(g, p, cs[0]);
      var q := Step(g, p, cs[0]);
      var r := Run(g, q, cs[1..]);
      assert SameLayouts(p.board, q.board) && SameLayouts(q.board, r.board);
      r
  }

  /** Without a colour selected the cursor moves to the neighbour, wrapping on every board, and nothing else changes. */
  lemma MoveWithoutColour(g: Geometry, p: Play, d: Dir)
    requires Inv(g, p) && p.session.selected == 0
    ensures AfterMove(g, p, d) == Play(p.session.(cursor := Neighbour(g, |p.board|, p.session.cursor, d)), p.board)
  {
  }

  /** The cell a move toward d would enter: the neighbour, or the cursor itself behind a wall. */
  function Entered(g: Geometry, p: Play, d: Dir): (j: u16)
    requires Inv(g, p)
    ensures j < |p.board|
  {
    NeighbourInBoard(g, |p.board|, p.session.cursor, d);
    if p.board[p.session.cursor].walls.Has(d) then p.session.cursor
    else Neighbour(g, |p.board|, p.session.cursor, d)
  }

  /** A target the path in colour `selected` may not enter. */
  predicate Blocks(next: Square, selected: u16)
  {
    !next.bridge &&
    if next.color == selected then next.ConnectionCount() == 2
    else next.source || next.ConnectionCount() >= 2
  }

  /**
   * The refusals of a move while drawing: a wall or a neighbour that is the
   * cursor itself, the bridge-axis guard, or a target that blocks a move that is
   * not a retraction.
   */
  predicate Refused(g: Geometry, p: Play, d: Dir)
    requires Inv(g, p)
  {
    var cur := p.board[p.session.cursor];
    var j := Entered(g, p, d);
    || j == p.session.cursor
    || (cur.bridge && !AlongAxis(p.session.lastMove, d.Vertical()))
    || (!Retracts(cur, d) && Blocks(p.board[j], p.session.selected))
  }

  /** While drawing, a move leaves everything as it was exactly when it is refused. */
  lemma MoveRefusal(g: Geometry, p: Play, d: Dir)
    requires Inv(g, p) && p.session.selected != 0
    ensures AfterMove(g, p, d) == p <==> Refused(g, p, d)
  {
    var sq := p.board;
    var i := p.session.cursor;
    CheckedMoveOnBoard(g, sq, i, d);
    var j := Entered(g, p, d);
    assert MoveChecked(g, sq, i, d, true) == j;
    if j != i {
      var cur := sq[i];
      var next := sq[j];
      if !(cur.bridge && !AlongAxis(p.session.lastMove, d.Vertical())) && !Retracts(cur, d) {
        var t := TargetStep(g, sq, j, d.Vertical(), p.session.selected);
        assert t.Refuse? <==> Blocks(next, p.session.selected);
      }
    }
  }

  /**
   * Moving back along the single connection of the active layer removes it and
   * the neighbour's back-connection, moves the cursor there and records the deletion.
   */
  lemma RetractEffect(g: Geometry, p: Play, d: Dir)
    requires Inv(g, p) && p.session.selected != 0
    requires var cur := p.board[p.session.cursor];
      !cur.walls.Has(d) && Retracts(cur, d) && (cur.bridge ==> AlongAxis(p.session.lastMove, d.Vertical()))
    ensures var sq, i := p.board, p.session.cursor;
      var j := Entered(g, p, d);
      var r := AfterMove(g, p, d);
      && j != i
      && SingleLinkOn(sq[i], d.Vertical(), d)
      && r.session == p.session.(cursor := j, lastMove := Some(d), deleted := true, changed := true)
      && r.board[i] == ClearedLayer(sq[i], d.Vertical())
      && r.board[j] == sq[j].WithoutDirection(d.Opposite())
      && (forall k :: 0 <= k < |sq| && k != i && k != j ==> r.board[k] == sq[k])
  {
    var sq, i := p.board, p.session.cursor;
    assert Layered(sq[i]);
    RetractsSingle(sq[i], d);
    CheckedMoveOnBoard(g, sq, i, d);
    RemoveSingleConnectionEffect(g, sq, i, d.Vertical(), d);
  }

  /** The target completes the path: a matching single end, an unconnected matching source, or a matching single-connection bridge layer. */
  predicate Completes(next: Square, vertical: bool, selected: u16)
  {
    if next.bridge then LinkCount(next, vertical) == 1 && (if vertical then next.color else next.aboveColor) == selected
    else (next.color == selected &&
          ((next.ConnectionCount() == 1 && !next.source) || (next.ConnectionCount() == 0 && next.source)))
  }

  /** Entering next in the path's colour cuts the path it holds: the layer of the move is the single end of a path of another colour. */
  predicate Cuts(next: Square, d: Dir, selected: u16)
  {
    LinkCount(next, d.Vertical()) == 1 && next.LayerColor(d) != selected
  }

  /** A bridge a keeps, in b, the layer a move along the other axis does not use. */
  predicate KeepsOtherLayer(a: Square, b: Square, vertical: bool)
  {
    a.bridge ==>
      if vertical then b.aboveDirection == a.aboveDirection && b.aboveColor == a.aboveColor
      else b.direction == a.direction && b.color == a.color
  }

  /**
   * The board r after a forward move from cell i into its neighbour j toward d,
   * cell by cell.  When the target cuts a path, the target's layer of the move is
   * cleared and the cell m its one connection led to loses the connection back
   * (m may be i itself, and then only along the axis of the move); the target is
   * then joined back toward i and i toward the target, in the selected colour.
   * Every other cell is unchanged.
   */
  predicate Forwarded(g: Geometry, sq: seq<Square>, i: int, j: int, d: Dir, selected: u16, r: seq<Square>)
    requires Sized(g, |sq|) && 0 <= i < |sq| && 0 <= j < |sq|
  {
    var vl, col: byte := d.Vertical(), selected % 256;
    && |r| == |sq|
    && if Cuts(sq[j], d, selected) then
         var e := OnlyLink(sq[j], vl);
         var m := Neighbour(g, |sq|, j, e);
         && m < |sq| && m != j && (m == i ==> e.Vertical() == vl)
         && r[j] == ClearedLayer(sq[j], vl).AddDirectionColor(d.Opposite(), col)
         && r[i] == (if m == i then sq[i].WithoutDirection(e.Opposite()) else sq[i]).AddDirectionColor(d, col)
         && (m != i ==> r[m] == sq[m].WithoutDirection(e.Opposite()))
         && (forall k :: 0 <= k < |sq| && k != i && k != j && k != m ==> r[k] == sq[k])
       else
         && r[j] == sq[j].AddDirectionColor(d.Opposite(), col)
         && r[i] == sq[i].AddDirectionColor(d, col)
         && (forall k :: 0 <= k < |sq| && k != i && k != j ==> r[k] == sq[k])
  }

  /**
   * A move that is neither refused nor a retraction joins the cursor cell to the
   * target in the selected colour, on the layer of the move, cutting the path the
   * target held when it is the single end of another colour's path; it moves the
   * cursor there and drops the colour exactly when the target completes the path.
   * The other layer of a bridge, at either end, is untouched.
   */
  lemma ForwardEffect(g: Geometry, p: Play, d: Dir)
    requires Inv(g, p) && p.session.selected != 0
    requires !Refused(g, p, d) && !Retracts(p.board[p.session.cursor], d)
    ensures var sq, i := p.board, p.session.cursor;
      var j := Entered(g, p, d);
      var col: byte := p.session.selected % 256;
      var r := AfterMove(g, p, d);
      && j == Neighbour(g, |sq|, i, d) && j != i
      && r.board[i].HasLink(d) && r.board[i].LayerColor(d) == col
      && r.board[j].HasLink(d.Opposite()) && r.board[j].LayerColor(d.Opposite()) == col
      && r.session == p.session.(cursor := j, lastMove := Some(d), deleted := false, changed := true,
                                 selected := if Completes(sq[j], d.Vertical(), p.session.selected) then 0
                                             else p.session.selected)
      && Forwarded(g, sq, i, j, d, p.session.selected, r.board)
      && KeepsOtherLayer(sq[i], r.board[i], d.Vertical())
      && KeepsOtherLayer(sq[j], r.board[j], d.Vertical())
  {
    var sq, i := p.board, p.session.cursor;
    var col: byte := p.session.selected % 256;
    CheckedMoveOnBoard(g, sq, i, d);
    var j := Entered(g, p, d);
    assert MoveChecked(g, sq, i, d, true) == j;
    ForwardOnBoard(g, sq, i, j, d, p.session.selected);
    ForwardCells(g, sq, i, j, d, p.session.selected);
    var t := TargetStep(g, sq, j, d.Vertical(), p.session.selected);
    assert AfterMove(g, p, d) == AfterMoveEither(g, p, j, d);
    assert AfterMoveEither(g, p, j, d).board == Extended(t.board, i, j, d, col);
  }

  /**
   * Entering a target that does not block the move: the board is left as it was,
   * except when the target cuts a path, whose single connection from the target
   * is then removed at both ends.
   */
  lemma {:induction false} TargetCut(g: Geometry, sq: seq<Square>, j: u16, d: Dir, selected: u16)
    requires EdgesWalled(g, sq) && LinksConsistent(g, sq) && j < |sq| && !sq[j].hole && !Blocks(sq[j], selected)
    ensures var t := TargetStep(g, sq, j, d.Vertical(), selected);
      && t.Join?
      && if Cuts(sq[j], d, selected) then
           var e := OnlyLink(sq[j], d.Vertical());
           var m := Neighbour(g, |sq|, j, e);
           && m < |sq| && m != j
           && t.board[j] == ClearedLayer(sq[j], d.Vertical())
           && t.board[m] == sq[m].WithoutDirection(e.Opposite())
           && (forall k :: 0 <= k < |sq| && k != j && k != m ==> t.board[k] == sq[k])
         else t.board == sq
  {
    var vl := d.Vertical();
    var next := sq[j];
    assert Layered(next);
    CountsAreLinkCounts(next);
    if Cuts(next, d, selected) {
      var e := OnlyLink(next, vl);
      if next.bridge {
        RemoveSingleConnectionEffect(g, sq, j, vl, e);
      } else {
        assert SingleLinkOn(next, false, e);
        RemoveSingleConnectionEffect(g, sq, j, false, e);
        assert ClearedLayer(next, false) == ClearedLayer(next, vl);
      }
    } else if !next.bridge && next.color != selected {
      RemoveSingleConnectionIdle(g, sq, j, false);
    }
  }

  /** The board side of a forward move: the target is entered, and the two cells are joined on the layer of the move. */
  lemma {:induction false} ForwardOnBoard(g: Geometry, sq: seq<Square>, i: u16, j: u16, d: Dir, selected: u16)
    requires EdgesWalled(g, sq) && LinksConsistent(g, sq)
    requires i < |sq| && j == Neighbour(g, |sq|, i, d) && j < |sq| && i != j && !sq[j].hole && !Blocks(sq[j], selected)
    ensures var t := TargetStep(g, sq, j, d.Vertical(), selected);
      && t.Join? && t.complete == Completes(sq[j], d.Vertical(), selected)
      && var col: byte := selected % 256;
      var r := Extended(t.board, i, j, d, col);
      && r[i].HasLink(d) && r[i].LayerColor(d) == col
      && r[j].HasLink(d.Opposite()) && r[j].LayerColor(d.Opposite()) == col
  {
    var vertical := d.Vertical();
    var next := sq[j];
    assert Layered(next);
    CountsAreLinkCounts(next);
    TargetCut(g, sq, j, d, selected);
    var t := TargetStep(g, sq, j, vertical, selected);
    assert t.complete == Completes(next, vertical, selected);
    ExtendedEffect(t.board, i, j, d, selected % 256);
  }

  /** The cells a forward move changes, and the other layer of a bridge at either end kept. */
  lemma {:induction false} ForwardCells(g: Geometry, sq: seq<Square>, i: u16, j: u16, d: Dir, selected: u16)
    requires EdgesWalled(g, sq) && LinksConsistent(g, sq)
    requires i < |sq| && j == Neighbour(g, |sq|, i, d) && j < |sq| && i != j && !sq[j].hole && !Blocks(sq[j], selected)
    ensures var t := TargetStep(g, sq, j, d.Vertical(), selected);
      && t.Join?
      && var r := Extended(t.board, i, j, d, selected % 256);
      && Forwarded(g, sq, i, j, d, selected, r)
      && KeepsOtherLayer(sq[i], r[i], d.Vertical())
      && KeepsOtherLayer(sq[j], r[j], d.Vertical())
  {
    var vertical := d.Vertical();
    TargetKeeps(g, sq, j, vertical, selected);
    TargetCut(g, sq, j, d, selected);
    var t := TargetStep(g, sq, j, vertical, selected);
    ExtendedEffect(t.board, i, j, d, selected % 256);
    if Cuts(sq[j], d, selected) {
      CutAxis(g, |sq|, i, j, d, OnlyLink(sq[j], vertical));
    }
  }

  /**
   * The cut connection of the target leads back to the cursor cell only along the
   * axis of the move: on a board of at least one cell, a vertical and a horizontal
   * step from the same cell meet only where both stay put.
   */
  lemma CutAxis(g: Geometry, n: int, i: int, j: int, d: Dir, e: Dir)
    requires Sized(g, n) && 0 <= i < n && 0 <= j < n && i != j && j == Neighbour(g, n, i, d)
    ensures Neighbour(g, n, j, e) == i ==> e.Vertical() == d.Vertical()
  {
    if Neighbour(g, n, j, e) == i && e.Vertical() != d.Vertical() {
      NeighbourInverse(g, n, i, d);
      if e.Vertical() {
        CrossNeighbours(g, n, j, e, d.Opposite());
      } else {
        CrossNeighbours(g, n, j, d.Opposite(), e);
      }
    }
  }

  /**
   * Moving back straight after entering an unconnected plain cell gives back the
   * board the move started from, with the cursor back where it was and the colour
   * still selected, except that the entered cell is left with colour 0: the
   * forward move paints it and the move back clears its colour, so a colour it
   * held before is not restored. The cursor cell is a plain cell or source
   * already in the selected colour.
   */
  lemma ForwardThenBack(g: Geometry, p: Play, d: Dir)
    requires Inv(g, p) && p.session.selected != 0
    requires var cur := p.board[p.session.cursor];
      && !cur.walls.Has(d) && Entered(g, p, d) != p.session.cursor
      && !cur.bridge && cur.color == p.session.selected
    requires var next := p.board[Entered(g, p, d)];
      !next.bridge && !next.source && next.direction == NoDirs
    ensures Inv(g, AfterMove(g, p, d))
    ensures var j := Entered(g, p, d);
      var r := AfterMove(g, AfterMove(g, p, d), d.Opposite());
      && r.board == p.board[j := p.board[j].(color := 0)]
      && r.session.cursor == p.session.cursor && r.session.selected == p.session.selected
  {
    var sq, i := p.board, p.session.cursor;
    var j := Entered(g, p, d);
    ForwardIntoEmpty(g, p, d);
    var q := AfterMove(g, p, d);
    NeighbourInverse(g, |sq|, i, d);
    OppositeInvolutive(d);
    var before := sq[j].(color := 0);
    assert q.board[j] == before.AddDirectionColor(d.Opposite(), p.session.selected % 256);
    BackOutOfEmpty(g, q, d.Opposite(), before, sq[i]);
    var r := AfterMove(g, q, d.Opposite());
    assert sq[i].direction.With(d).Without(d) == sq[i].direction;
    assert r.board[i] == sq[i];
  }

  /** The forward half of ForwardThenBack: both cells joined, nothing cut, the colour kept. */
  lemma ForwardIntoEmpty(g: Geometry, p: Play, d: Dir)
    requires Inv(g, p) && p.session.selected != 0
    requires var cur := p.board[p.session.cursor];
      && !cur.walls.Has(d) && Entered(g, p, d) != p.session.cursor
      && !cur.bridge && cur.color == p.session.selected
    requires var next := p.board[Entered(g, p, d)];
      !next.bridge && !next.source && next.direction == NoDirs
    ensures var sq, i, j := p.board, p.session.cursor, Entered(g, p, d);
      var q := AfterMove(g, p, d);
      && Inv(g, q)
      && q.session.cursor == j && q.session.selected == p.session.selected && q.session.lastMove == Some(d)
      && !sq[i].HasLink(d)
      && q.board[j] == sq[j].AddDirectionColor(d.Opposite(), sq[i].color)
      && q.board[i] == sq[i].AddDirectionColor(d, sq[i].color)
      && (forall k :: 0 <= k < |sq| && k != i && k != j ==> q.board[k] == sq[k])
  {
    var sq, i := p.board, p.session.cursor;
    var j := Entered(g, p, d);
    assert Layered(sq[i]);
    // cell i has no connection toward d, since the target has none back
    assert Next(g, sq, i, d) == sq[j];
    assert !LinkAt(sq, i, d);
    assert !Retracts(sq[i], d);
    ForwardEffect(g, p, d);
    MovePreservesInv(g, p, d);
  }

  /**
   * The backward half of ForwardThenBack: from a cell whose only connection, toward d,
   * was just added to the empty plain cell `before`, moving toward d clears it back
   * to `before` and removes the connection back from the neighbour.
   */
  lemma BackOutOfEmpty(g: Geometry, q: Play, d: Dir, before: Square, from: Square)
    requires Inv(g, q) && q.session.selected != 0 && q.session.lastMove == Some(d.Opposite())
    requires !before.bridge && !before.source && before.direction == NoDirs && before.color == 0
    requires q.board[q.session.cursor] == before.AddDirectionColor(d, q.session.selected % 256)
    requires var i := Neighbour(g, |q.board|, q.session.cursor, d);
      i < |q.board| && i != q.session.cursor && q.board[i] == from.AddDirectionColor(d.Opposite(), from.color)
    ensures var i, j := Neighbour(g, |q.board|, q.session.cursor, d), q.session.cursor;
      var r := AfterMove(g, q, d);
      && r.board[j] == before
      && r.board[i] == from.AddDirectionColor(d.Opposite(), from.color).WithoutDirection(d.Opposite())
      && (forall k :: 0 <= k < |q.board| && k != i && k != j ==> r.board[k] == q.board[k])
      && r.session.cursor == i && r.session.selected == q.session.selected
  {
    var j := q.session.cursor;
    var i := Neighbour(g, |q.board|, j, d);
    assert LinkAt(q.board, j, d);
    assert !q.board[j].walls.Has(d);
    assert Retracts(q.board[j], d);
    RetractEffect(g, q, d);
  }

  /** What the two add_direction_color calls of a forward move leave at both cells. */
  lemma ExtendedEffect(sq: seq<Square>, i: int, j: int, d: Dir, col: byte)
    requires 0 <= i < |sq| && 0 <= j < |sq| && i != j
    ensures var r := Extended(sq, i, j, d, col);
      && r[j] == sq[j].AddDirectionColor(d.Opposite(), col)
      && r[i] == sq[i].AddDirectionColor(d, col)
      && (forall k :: 0 <= k < |sq| && k != i && k != j ==> r[k] == sq[k])
      && r[i].HasLink(d) && r[i].LayerColor(d) == col
      && r[j].HasLink(d.Opposite()) && r[j].LayerColor(d.Opposite()) == col
  {
  }

  /**
   * The editor fields of LevelContainer (main.cpp:913-922) and the level being
   * played; each method performs one operation in place and is proved to give
   * the state the function of the same name describes.
   */
  class Editor {
    var level: Level?
    var cursor: u16
    var selected: u16
    var lastMove: Option<Dir>
    var deleted: bool
    var bridgeAbove: bool
    var changed: bool

    function Fields(): Session
      reads this
    {
      Session(cursor, selected, lastMove, deleted, bridgeAbove, changed)
    }

    function State(): Play
      reads this, level
      requires level != null
    {
      Play(Fields(), level.squares)
    }

    /** A level is open and play is in a state it keeps. */
    ghost predicate Valid()
      reads this, level
    {
      level != null && level.Valid() && Inv(level.Shape(), State())
    }

    /** The initial values of the fields; no level is open. */
    constructor ()
      ensures level == null && Fields() == Opened
    {
      level := null;
      cursor, selected, lastMove := 0, 0, None;
      deleted, bridgeAbove, changed := false, false, false;
    }

    /** selected_level_to_play (main.cpp:1124-1141): the fields are reset only when another level is opened. */
    method OpenLevel(l: Level)
      requires l.Valid() && Playable(l.Shape(), l.squares) && LinksConsistent(l.Shape(), l.squares)
      requires level == l ==> Valid()
      modifies this
      ensures level == l && Valid()
      ensures old(level) == l ==> Fields() == old(Fields())
      ensures old(level) != l ==> Fields() == Opened
    {
      if level != l {
        level := l;
        cursor, selected, lastMove := 0, 0, None;
        deleted, bridgeAbove, changed := false, false, false;
      }
    }

    /** select_square (main.cpp:1143-1187). */
    method SelectSquare()
      requires Valid()
      modifies this
      ensures level == old(level) && Valid()
      ensures State() == AfterSelect(old(State()))
    {
      if selected == 0 {
        var s := level.squares[cursor];
        if !s.hole {
          if s.source {
            if !s.IsConnected() {
              selected := s.color;
            }
          } else if s.bridge {
            if bridgeAbove {
              if s.AboveConnCount() == 1 {
                selected := s.aboveColor;
              }
            } else {
              if s.ConnectionCount() == 1 {
                selected := s.color;
              }
            }
          } else {
            if s.ConnectionCount() == 1 {
              selected := s.color;
            }
          }
        }
      } else {
        selected := 0;
      }
      StepPreservesInv(level.Shape(), old(State()), Pick);
    }

    /** reset_level (main.cpp:1189-1196). */
    method ResetLevel()
      requires Valid()
      modifies this, level
      ensures level == old(level) && Valid()
      ensures State() == AfterReset(old(State()))
    {
      StepPreservesInv(level.Shape(), State(), Reset);
      level.ResetBoard();
      selected := 0;
      changed := true;
    }

    /** The toggle of playing_bridge_above (main.cpp:1817). */
    method ToggleLayer()
      requires Valid()
      modifies this
      ensures level == old(level) && Valid()
      ensures State() == AfterToggle(old(State()))
    {
      bridgeAbove := !bridgeAbove;
    }

    /** move_playing_cursor (main.cpp:1198-1206). */
    method MovePlayingCursor(newIdx: u16, d: Dir)
      modifies this
      ensures level == old(level) && Fields() == MoveCursor(old(Fields()), newIdx, d)
    {
      cursor := newIdx;
      if selected != 0 {
        lastMove := Some(d);
        deleted := false;
      }
    }

    /** The target cases of playing_cursor_move_either (main.cpp:1238-1291); proceed is false where it returns. */
    method EnterTarget(newIdx: u16, vertical: bool) returns (proceed: bool, complete: bool)
      requires level != null && level.Valid() && EdgesWalled(level.Shape(), level.squares) && newIdx < |level.squares|
      requires !level.squares[newIdx].hole
      modifies level
      ensures level.Valid()
      ensures var t := TargetStep(old(level.Shape()), old(level.squares), newIdx, vertical, selected);
        && proceed == t.Join?
        && (t.Join? ==> complete == t.complete && level.squares == t.board)
        && (t.Refuse? ==> level.squares == old(level.squares))
    {
      var g := level.Shape();
      MovesStayOnWalled(g, level.squares, newIdx);
      var next := level.squares[newIdx];
      proceed, complete := true, false;
      if next.bridge {
        var connections := if vertical then next.ConnectionCount() else next.AboveConnCount();
        if connections == 1 {
          if (if vertical then next.color else next.aboveColor) == selected {
            complete := true;
          } else {
            level.RemoveSingleConnection(newIdx, vertical);
          }
        }
      } else if next.color == selected {
        var connections := next.ConnectionCount();
        if (connections == 1 && !next.source) || (connections == 0 && next.source) {
          complete := true;
        } else if connections == 2 {
          proceed := false;
        }
      } else if !next.source {
        if next.ConnectionCount() <= 1 {
          level.RemoveSingleConnection(newIdx, false);
        } else {
          proceed := false;
        }
      } else {
        proceed := false;
      }
    }

    /** The retraction branch of playing_cursor_move_either (main.cpp:1221-1236). */
    method Retract(newIdx: u16, d: Dir)
      requires level != null && level.Valid() && level.width >= 1 && cursor < |level.squares|
      requires MovesStayOn(level.Shape(), level.squares, cursor)
      modifies this, level
      ensures level == old(level) && level.Valid()
      ensures level.squares == RemovedSingleConnection(old(level.Shape()), old(level.squares), old(cursor), d.Vertical())
      ensures Fields() == MoveCursor(old(Fields()), newIdx, d).(deleted := true, changed := true)
    {
      level.RemoveSingleConnection(cursor, d.Vertical());
      MovePlayingCursor(newIdx, d);
      deleted := true;
      changed := true;
    }

    /** The forward branch of playing_cursor_move_either (main.cpp:1238-1297): enter the target, then join it to the cursor cell. */
    method Advance(newIdx: u16, d: Dir)
      requires level != null && level.Valid() && EdgesWalled(level.Shape(), level.squares)
      requires cursor < |level.squares| && newIdx < |level.squares| && !level.squares[newIdx].hole
      modifies this, level
      ensures level == old(level) && level.Valid()
      ensures var t := TargetStep(old(level.Shape()), old(level.squares), newIdx, d.Vertical(), old(selected));
        && (t.Refuse? ==> level.squares == old(level.squares) && Fields() == old(Fields()))
        && (t.Join? ==>
              && level.squares == Extended(t.board, old(cursor), newIdx, d, old(selected) % 256)
              && Fields() == MoveCursor(old(Fields()), newIdx, d).(changed := true,
                                                                   selected := if t.complete then 0 else old(selected)))
    {
      var proceed, complete := EnterTarget(newIdx, d.Vertical());
      if !proceed {
        return;
      }
      level.AddDirectionColor(newIdx, d.Opposite(), selected % 256);
      level.AddDirectionColor(cursor, d, selected % 256);
      MovePlayingCursor(newIdx, d);
      changed := true;
      if complete {
        selected := 0;
      }
    }

    /** playing_cursor_move_either (main.cpp:1208-1298). */
    method MoveEither(newIdx: u16, d: Dir)
      requires Valid() && selected != 0
      requires !level.squares[cursor].walls.Has(d)
      requires newIdx == Neighbour(level.Shape(), |level.squares|, cursor, d) && newIdx != cursor
      modifies this, level
      ensures level == old(level) && level.Valid()
      ensures State() == AfterMoveEither(old(level.Shape()), old(State()), newIdx, d)
    {
      var g := level.Shape();
      NeighbourInBoard(g, |level.squares|, cursor, d);
      assert Next(g, level.squares, cursor, d) == level.squares[newIdx];
      var cur := level.squares[cursor];
      if cur.bridge && !AlongAxis(lastMove, d.Vertical()) {
        return;
      }
      if Retracts(cur, d) {
        MovesStayOnWalled(g, level.squares, cursor);
        Retract(newIdx, d);
        return;
      }
      Advance(newIdx, d);
    }

    /** playing_cursor_{up,down,left,right} (main.cpp:1300-1344), one for each direction d. */
    method Move(d: Dir)
      requires Valid()
      modifies this, level
      ensures level == old(level) && Valid()
      ensures State() == AfterMove(old(level.Shape()), old(State()), d)
    {
      var g := level.Shape();
      MovePreservesInv(g, State(), d);
      var newIdx := MoveChecked(g, level.squares, cursor, d, selected != 0);
      if newIdx == cursor {
        return;
      }
      if selected != 0 {
        CheckedMoveOnBoard(g, level.squares, cursor, d);
        MoveEither(newIdx, d);
      } else {
        MovePlayingCursor(newIdx, d);
      }
    }
  }
}
