# ColorFiller: the level format, the board and the play logic

ColorFiller is a Flow-style puzzle game for the Nintendo 3DS. A level is a grid of
squares. Two squares of each colour are *sources*. The player joins each pair of
sources with a path. Paths may not cross, except at *bridges*, where one path runs
north–south on the lower layer and another runs east–west on the upper one. *Holes*
are squares that cannot be entered. *Walls* block one side of a square. On a *warp*
board, moves wrap around the edges.

The project models two programs.

- **The game** (`source/main.cpp`):
  - **Squares.** A `Square` holds a direction mask for each layer, a colour for
    each layer, and the flags. It can add or remove one connection, say when it
    is complete, and pack its play state into a 16-bit save word or load it back.
  - **Levels.** The `Level` class decodes a level file: the `CLFL` header, the
    source pairs, and the bridge, hole and wall lists. It checks completion,
    resets the board, removes a connection, and loads a save. The same module
    has neighbour arithmetic, with and without wall checks, on plain and warp
    boards.
  - **Editor.** The playing state machine: selecting a square, resetting,
    toggling the bridge layer, and moving the cursor. A move either retracts
    the path or extends it.
  - **Packs.** How the pack loader splits a pack into levels, and the save and
    load loops over a whole pack.
- **The pack converter** (`convert_level_packs.py`):
  - `process_level` turns one text line into level bytes. It parses the header
    and the lists. It builds the wall dictionary (wall pairs, hole sides and
    the border of non-warp boards) and collects the two end points of every
    colour. It then emits the header, the source pairs, the sorted bridges and
    holes, the sorted wall words, and the padding.
  - `main` joins the kept levels of a file into a pack.

Squares are values; `Level` and `Editor` are classes whose fields the methods
reassign. Each method is proved equal to a function on the old state, and the
properties are proved about those functions.

The two halves meet in `ConversionFacts`. When every colour lists two points and
the bridge and hole lists are distinct and disjoint, the bytes the converter
emits decode, through the game's own `Level` decoder, to the cells the converter
meant. A pack
it writes also splits back, through the game's framing, into the levels it kept.

Python's `split`, `int()`, `strip` and floor modulo are written out in `PyText`. A
Python exception is the `Err` of a `Result`. C++ `u16` arithmetic is written out
where it can wrap.

## Model

| member | source | states |
|---|---|---|
| `Squares.ConnectionCountIsNumberOfBits` | source/main.cpp:23-28 | The connection count of a square equals the popcount of its direction mask as `number_of_bits` computes it. |
| `Squares.CompleteLinks` | source/main.cpp:434-446 | A hole is always complete. A source that is not a bridge is complete exactly when some link leaves it. A bridge is complete exactly when all four of its links are there. Any other cell is complete exactly when two distinct links leave it and no third. |
| `Squares.Square.AddDirectionColor` | source/main.cpp:448-473 | Adding direction d with colour c sets the link toward d on the layer d belongs to and gives that layer colour c. Off a bridge's east-west overlay, the direction mask becomes the old mask with d added. The other layer, the walls and the flags are unchanged. |
| `Squares.Square.WithoutDirection` | source/main.cpp:664-678 | Removing direction d clears exactly the link toward d on its layer. Both colours, the other layer and the layout stay as they were. |
| `Squares.Square.LoadFrom` | source/main.cpp:474-483 | Loading a save word changes only the play state. The layout is kept, and on a non-bridge square the upper layer is untouched. |
| `Squares.LoadPacked` | source/main.cpp:474-496 | Loading a packed square restores its directions and colours on every layer the word carries, when colours fit 5 bits. |
| `Squares.PackLoaded` | source/main.cpp:474-496 | Packing a loaded word gives the word back on a bridge, and its low 9 bits elsewhere. |
| `Levels.UncheckedMoveWraps` | source/main.cpp:526-561 | A move with wall checks off goes one step in its direction and wraps at each edge to the opposite row or column. |
| `Levels.CheckedMoveOnBoard` | source/main.cpp:526-561 | On a walled board, a checked move stays put when a wall blocks it, and otherwise reaches the neighbour. It always lands on a cell of the board that is not a hole. |
| `Levels.NeighbourInverse` | source/main.cpp:824-839 | Stepping in a direction and then in the opposite direction returns to the starting cell, on every cell of the board. |
| `Levels.NeighbourInBoard` | source/main.cpp:824-839 | The neighbour of a cell of the board is a cell of the board. |
| `Levels.RemoveSingleConnectionEffect` | source/main.cpp:679-735 | On a square with one link on the selected layer, `remove_single_connection` clears that layer and the matching link of the neighbour, changes no other square, and keeps every link two-sided. |
| `Levels.RemoveSingleConnectionIdle` | source/main.cpp:679-735 | With no link on the selected layer, the board is unchanged, except that a bridge whose other layer is in use has the selected layer's colour cleared. Links stay two-sided. |
| `Levels.ResetClearsPaths` | source/main.cpp:641-662 | After a reset, no square has a link, sources keep their colour, and the layout is unchanged. With no links left, every link is two-sided. |
| `Levels.ResetIdempotent` | source/main.cpp:641-662 | Resetting twice is the same as resetting once. |
| `Levels.ResetSquare` | source/main.cpp:641-662 | A reset square keeps its layout and has no connection. A plain cell that had a connection loses its colour, and a used bridge overlay loses its colour. |
| `Levels.ResetIncomplete` | source/main.cpp:434-446 | After a reset, a square is complete exactly when it is a hole. |
| `Levels.ResetUnsolved` | source/main.cpp:633-662 | A reset board counts as completed exactly when every square is a hole. |
| `Levels.MoveChecked` | source/main.cpp:526-561 | With wall checks off, the move is the plain neighbour step. |
| `Levels.CrossNeighbours` | source/main.cpp:824-839 | A vertical step and a horizontal step from the same cell reach the same cell only when both stay put. |
| `Levels.LoadedSquares` | source/main.cpp:811-822 | Loading a save never changes the layout of any square. |
| `Levels.SaveLoadRestores` | source/main.cpp:811-822 | Loading the save words of board s onto a board t with the same layout gives s on every cell that is not a hole. |
| `Levels.SaveLoadIdentity` | source/main.cpp:811-822 | Loading a board's own save gives the board back. |
| `Levels.Level.constructor` | source/main.cpp:563-631 | A readable level file yields width, height, colour count and warp flag from header bytes 4-7, and the squares the format decodes. |
| `Levels.Level.Completed` | source/main.cpp:633-640 | The level is completed exactly when every square is complete. |
| `Levels.Level.ResetBoard` | source/main.cpp:641-662 | The new board is the old board reset square by square. |
| `Levels.Level.RemoveDirection` | source/main.cpp:664-678 | Only square idx changes, losing the link toward the given direction. |
| `Levels.Level.RemoveSingleConnection` | source/main.cpp:679-735 | The new board is the single-connection removal of the old one. |
| `Levels.Level.AddDirectionColor` | source/main.cpp:448-473 | Only square idx changes, gaining the direction and colour. |
| `Levels.Level.LoadSave` | source/main.cpp:811-822 | Each square loads the little-endian word at twice its index. |
| `LevelFormat.Decoded` | source/main.cpp:563-567 | The decoded board has width × height cells, and all of them are empty when the `CLFL` magic is missing. |
| `LevelFormat.DecodedCells` | source/main.cpp:599-630 | With ascending lists, cell i is a hole iff i is listed as a hole, and a bridge iff listed as a bridge. It is a source iff listed as a source end and neither of those, with that colour. Its walls are those of its wall entry, or none, and it carries no path. |
| `LevelFormat.SourceMap` | source/main.cpp:574-580 | Every colour in the source map lies between 1 and the number of pairs read. |
| `LevelFormat.SourceMapFirstWins` | source/main.cpp:575-580 | A cell is a source iff some colour lists it. Its colour is the first colour that lists it, because `try_emplace` keeps the first entry. |
| `LevelFormat.IndexList` | source/main.cpp:581-597 | A list of n entries has length n, and entry j is the little-endian word at off + 2j. |
| `LevelFormat.ReadSources` | source/main.cpp:574-580 | The source loop builds the first-wins source map and stops at the start of the bridge list. |
| `LevelFormat.ReadWords` | source/main.cpp:581-597 | Each list loop reads n consecutive words and advances the offset by 2n. |
| `LevelFormat.BuildSquares` | source/main.cpp:599-630 | The cursor walk over the sorted lists builds the cells the decoding function specifies. |
| `LevelFormat.DecodeSquares` | source/main.cpp:563-631 | The whole constructor body computes the decoded board. |
| `Editor.SelectPicks` | source/main.cpp:1143-1187 | With no colour held, selecting picks nothing on a hole. It picks a source's colour when the source is unconnected. It picks a path end's colour on the chosen layer when that layer has one link. Otherwise it picks nothing. |
| `Editor.SelectTwice` | source/main.cpp:1143-1187 | Selecting twice from an empty hand drops whatever was picked and leaves the board unchanged. |
| `Editor.AfterSelect` | source/main.cpp:1143-1187 | Selecting never changes the board, changes only the held colour, and drops a held colour. |
| `Editor.AfterReset` | source/main.cpp:1189-1196 | Resetting resets the board, drops the held colour and marks the level changed. |
| `Editor.AfterToggle` | source/main.cpp:1817 | Toggling flips only which bridge layer is selected. |
| `Editor.MoveWithoutColour` | source/main.cpp:1300-1344 | Holding no colour, a move only moves the cursor to the neighbour. |
| `Editor.MoveRefusal` | source/main.cpp:1215-1236 | Holding a colour, a move leaves the whole state unchanged exactly when it is refused. A move is refused when a wall blocks it, when it leaves a bridge off the axis of the last move, or when it is not a retraction and the target blocks the colour. |
| `Editor.RetractEffect` | source/main.cpp:1221-1236 | Moving back along the path's only link removes that link on both squares, changes nothing else, and moves the cursor back with the deleted flag set. |
| `Editor.ForwardEffect` | source/main.cpp:1238-1297 | A forward move links both squares in the held colour on the move's layer, moves the cursor, and drops the colour exactly when the target completes the path. When the target is the single end of another colour's path on that layer, that layer of the target is cleared and the cell its one link led to loses the link back; that cell is the cursor cell only along the move's axis. Every other cell is unchanged. The other layer of a bridge at either end is kept. |
| `Editor.TargetCut` | source/main.cpp:1238-1291 | Entering a target that does not block: if the target is the single end of another colour's path on the move's layer, that layer is cleared and the cell at the other end of its link loses the link back, with nothing else changed. Otherwise the board is unchanged. |
| `Editor.ForwardOnBoard` | source/main.cpp:1238-1297 | The target step accepts the move, reports completion exactly when the target completes the path, and the two `add_direction_color` calls link both cells toward each other in the held colour. |
| `Editor.ForwardCells` | source/main.cpp:1238-1297 | Cell by cell, the board after the two `add_direction_color` calls is the one ForwardEffect describes, and the other bridge layer at both ends is kept. |
| `Editor.CutAxis` | source/main.cpp:824-839 | The cut link of the target leads back to the cursor cell only along the axis of the move. |
| `Editor.ExtendedEffect` | source/main.cpp:1293-1294 | The two `add_direction_color` calls give each cell the link toward the other in the held colour and change no other cell. |
| `Editor.ForwardThenBack` | source/main.cpp:1208-1297 | Entering an unconnected plain cell and moving straight back restores the board, the cursor and the held colour, except that the entered cell is left with colour 0. |
| `Editor.ForwardIntoEmpty` | source/main.cpp:1238-1297 | Entering an unconnected plain cell cuts nothing, keeps the held colour, and links the two cells. |
| `Editor.BackOutOfEmpty` | source/main.cpp:1221-1236 | Moving back out of a cell whose only link was just added clears that cell and removes the link back from the previous cell. |
| `Editor.StepPreservesInv` | source/main.cpp:1143-1344 | Every editor command keeps the board playable with two-sided links and never changes its layout. |
| `Editor.Run` | source/main.cpp:1143-1344 | Any sequence of commands keeps the invariant and the layout. |
| `Editor.Editor.OpenLevel` | source/main.cpp:1124-1141 | Opening a new level resets the cursor, the held colour and the flags. Reopening the current level keeps them. |
| `Editor.Editor.SelectSquare` | source/main.cpp:1143-1187 | The editor's state after selecting is the selection function of the old state. |
| `Editor.Editor.ResetLevel` | source/main.cpp:1189-1196 | The editor's state after resetting is the reset function of the old state. |
| `Editor.Editor.ToggleLayer` | source/main.cpp:1817 | The editor's state after toggling is the toggle function of the old state. |
| `Editor.Editor.MovePlayingCursor` | source/main.cpp:1198-1206 | The cursor moves to the target. While a colour is held, the move is recorded as the last move and the deleted flag is cleared. Nothing else changes. |
| `Editor.Editor.MoveEither` | source/main.cpp:1208-1298 | The state after a move with a held colour is the move function of the old state. |
| `Editor.Editor.Move` | source/main.cpp:1300-1344 | A direction key computes the target with wall checks and gives the move function of the old state. |
| `Packs.SplitPayload` | source/main.cpp:2403-2412 | The split loop returns the level entries the pack's framing describes. |
| `Packs.SplitPayloadOf` | convert_level_packs.py:330-333 | A payload framed as the converter frames it splits back into exactly its levels. |
| `Packs.SavePack` | source/main.cpp:1005-1014 | The save loop emits the save words of every level, in order. |
| `Packs.LoadPack` | source/main.cpp:985-993 | Each level of the pack loads its own window of the save, at twice the cells that come before it. |
| `Packs.SaveLoadPack` | source/main.cpp:985-1014 | Loading a pack's own save restores every level of the pack. |
| `PyText.JoinSplit` | convert_level_packs.py:26-28 | Joining the pieces of `split` with the separator gives back the string. |
| `PyText.SplitJoin` | convert_level_packs.py:26-28 | Splitting the join of pieces that do not hold the separator gives back the pieces. |
| `PyText.Split` | convert_level_packs.py:26-28 | `split` returns at least one piece, and no piece holds the separator. |
| `PyText.IntTextRoundTrip` | convert_level_packs.py:29-31 | `int()` of a number's decimal text is that number. |
| `PyText.FloorMod` | convert_level_packs.py:71-74 | Python's `%` has the sign of the divisor and satisfies the floor-division identity. |
| `Sorting.Sort` | convert_level_packs.py:165-172 | `sorted` returns a non-decreasing permutation of its input. |
| `Sorting.SortStrict` | convert_level_packs.py:165-168 | Sorting distinct numbers gives a strictly ascending list. |
| `WallDicts.Walls.Add` | convert_level_packs.py:75-79 | `add_direction` ORs d into the mask of p, adds p as a new key when it is missing, and leaves every other key alone. |
| `Conversion.PairStep` | convert_level_packs.py:80-96 | A wall pair fails exactly where `PairSide` does, which happens only on a warp board of width 0 (the Python modulo raises). Otherwise it walls the first cell on the side `PairSide` picks and the second cell on the opposite side. Each cell's new mask is its old mask with exactly that side added (both sides when the two cells are the same), and no other cell changes. |
| `Conversion.AddCond` | convert_level_packs.py:99-102 | `add_direction_cond` leaves a hole's mask as it was. For any other cell the new mask is the old one with the side added. No other cell changes. |
| `Conversion.HoleStep` | convert_level_packs.py:104-135 | The hole step fails exactly when the board has width 0, where the Python modulo raises. |
| `Conversion.Padded` | convert_level_packs.py:174-175 | Padding keeps the bytes as a prefix and appends fewer than four zero bytes, so that the length is a multiple of four. |
| `Conversion.PairBytes` | convert_level_packs.py:163-164 | The pair bytes hold each colour's begin and end point as little-endian 16-bit words, at 4c and 4c + 2. |
| `Conversion.Kept` | convert_level_packs.py:321-330 | Every level main keeps is non-empty. |
| `Converter.AddPairWalls` | convert_level_packs.py:80-96 | The pair loop computes the wall dictionary of the pairs, or the error a bad pair raises. |
| `Converter.AddHoleWalls` | convert_level_packs.py:104-135 | The hole loop computes the hole-side walls. |
| `Converter.AddBorderWalls` | convert_level_packs.py:137-147 | The border loops compute the border walls. |
| `Converter.CollectPoints` | convert_level_packs.py:150-159 | The point loop computes the first and last point of each colour, or the error. |
| `Converter.Emit` | convert_level_packs.py:161-175 | The emit code computes the level bytes, or the error `struct.pack` raises. |
| `Converter.ProcessLevel` | convert_level_packs.py:26-177 | `process_level` computes the processed form of the line. |
| `Converter.AssemblePack` | convert_level_packs.py:316-333 | The per-file loop computes the pack file of the lines. |
| `ConversionFacts.UndecoratedDecorated` | convert_level_packs.py:41-48 | Stripping the I suffix, the W prefix and the B suffix from a decorated size gives back the size, with warp and inv set exactly as it was decorated. |
| `ConversionFacts.DimsPair` | convert_level_packs.py:62-67 | "u:v" gives width u and height v when exactly one of W and B is set, and width v and height u otherwise. |
| `ConversionFacts.DimsSquare` | convert_level_packs.py:68-69 | A single number n gives an n by n board. |
| `ConversionFacts.HexSkipped` | convert_level_packs.py:27-40 | `process_level` returns no bytes exactly for a hex level: a line whose level and colour fields parse and whose size field starts with X. |
| `ConversionFacts.PairSideFaces` | convert_level_packs.py:80-96 | On a board at least 2 by 2, the side a wall pair closes on its first cell a is fixed by the index of its second cell c. It is east when c = a + 1 and south when c = a + width (on a warp board of height at least 3). On a warp board it is north when a is in the top row and c = a + width·(height − 1), and west when the width is at least 3, a starts a row and c = a + width − 1. This is index arithmetic only: at the end of a row, a + 1 is the next row's first cell. |
| `ConversionFacts.LevelWallsPair` | convert_level_packs.py:80-96 | In the final wall dictionary, every wall pair's two cells are walled toward each other. |
| `ConversionFacts.LevelWallsHole` | convert_level_packs.py:104-135 | In the final wall dictionary, every cell next to a hole that is not itself a hole is walled toward the hole. |
| `ConversionFacts.LevelWallsBorder` | convert_level_packs.py:137-147 | On a non-warp board, every border cell that is not a hole is walled on its outer side. |
| `ConversionFacts.PointsPair` | convert_level_packs.py:150-159 | The begin and end lists hold, for colour c, the first and last point listed for it. |
| `ConversionFacts.EmittedHeader` | convert_level_packs.py:162-175 | The emitted level is word-aligned and carries the magic. Bytes 4-7 hold the dimensions, the colour count and warp. The counts match the lists. |
| `ConversionFacts.EmittedLists` | convert_level_packs.py:161-172 | The game's decoder reads back the sorted bridges, the sorted holes and the sorted wall words. |
| `ConversionFacts.EmittedOrdered` | convert_level_packs.py:165-172 | With distinct lists and 12-bit wall keys, the decoder's lists are ascending, as its cursor walk requires. |
| `ConversionFacts.EmittedPairs` | convert_level_packs.py:161-164 | The decoder reads colour c's two source indices as the converter's begin and end points for c. |
| `ConversionFacts.EmittedSources` | convert_level_packs.py:150-164 | In the decoder's source map of an emitted level, a cell is a source exactly when some colour's pair names it. Its colour is one more than the index of the first such pair. |
| `ConversionFacts.EmittedCell` | convert_level_packs.py:150-172 | Decoded by the game, cell i is a hole exactly when the line lists it as one, and a bridge exactly when it lists it as one. It is a source exactly when it is neither and some colour's pair names it, in the colour of the first such pair; otherwise its colour is 0. It has the walls the converter collected for it, and no path. |
| `ConversionFacts.WallWordAt` | convert_level_packs.py:169-172 | Wall word i encodes the i-th smallest key in its low 12 bits and its mask in the high 4 bits. |
| `ConversionFacts.KeptOk` | convert_level_packs.py:321-333 | A file's levels are kept exactly when no line raised. |
| `ConversionFacts.KeptFrom` | convert_level_packs.py:321-330 | Every kept level is the output of one of the file's lines. |
| `ConversionFacts.NonEmptyIndices` | convert_level_packs.py:321-330 | The positions of the successful, non-empty outputs, strictly ascending. A position is listed exactly when its output is a level. |
| `ConversionFacts.KeptInOrder` | convert_level_packs.py:321-330 | There are as many kept levels as non-empty outputs. Kept level k is the output of the k-th line, in file order, whose output is non-empty. |
| `ConversionFacts.KeptAll` | convert_level_packs.py:321-330 | Every non-empty output of a file whose lines all parsed is among the kept levels. |
| `ConversionFacts.PackFileSplits` | convert_level_packs.py:330-333 | A pack file the converter writes splits back, under the game's framing, into exactly the non-empty levels it kept. |

## Left out

- Rendering is not modelled: `Square::draw`, `Level::draw`, the pixel helpers, images, fonts and the `draw_level` preview in the converter. It is output only.
- UI navigation, touch input, menus, the timers read from the system clock, the configuration file and the colour helpers are not modelled. They are I/O and presentation.
- The zip archives read with libarchive and written with `zipfile`, `fopen`, and the directory walk of the converter are not modelled. They are I/O. `DataHolder` reads are modelled as little-endian reads of a byte sequence.
- The hex-encoded line format is recognised and skipped with an empty output, as the converter does. Decoding it is not part of the model.
- Levels.Level.RemoveSingleConnection, Editor.Editor.Move and the other play members require a playable board: walls on every non-warp edge and on every side facing a hole, with walls matching on both sides. On an edge without a wall the C++ falls through to `u16` arithmetic that leaves the board, and that is not modelled.
- LevelFormat.DecodedCells requires the bridge, hole and wall lists to be ascending and the bridges to be disjoint from the holes, as the converter writes them. On other lists the constructor's cursor walk behaves differently, and that is not described. A cursor advances only when its entry matches the current cell. An entry smaller than a cell already passed never matches, so that cursor stalls and every later entry of its list is lost.
- Packs.SaveLoadPack, Squares.LoadPacked, Levels.SaveLoadRestores and Levels.SaveLoadIdentity hold only for colours below 32. The save word has 5 bits per colour, and a larger colour is truncated.
- ConversionFacts.PointsPair assumes every colour lists at least two points. A colour with a single point adds a begin but no end, so the later `zip` pairs begins and ends of different colours; the lemma says nothing about that case, though `Conversion.Points` models it. A row that does not parse as integers (an empty row included) raises in the converter and gives `Err` in the model.
- ConversionFacts.EmittedCell and ConversionFacts.EmittedOrdered assume distinct bridge and hole lists, disjoint from each other, wall keys below 0x1000, and two points for every colour. The converter does not check this, and the decoder masks a key to 12 bits.
- Integer fields of `Level` (width, height, indices) are unbounded integers. `u16` wrap-around is written out only in the neighbour arithmetic, where it happens.
- Python exceptions are modelled as `Err`, without their type or message.
- Squares.CompleteLinks assumes a bridge's direction mask holds no east or west bit. Every play operation keeps this.
- PyText.ParseInt accepts ASCII digits only. Python's `int()` also accepts the other Unicode decimal digits.
- Editor.ForwardThenBack covers a step into an unconnected plain cell only. After a step into a source, a bridge, or a cell that cuts a path, the step back does not in general restore the board.
