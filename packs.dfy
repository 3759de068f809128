/**
 * Level packs: the payload of one pack file (a u32 level count, then per level
 * a u32 length and that many bytes), split by get_levels (main.cpp:2403-2412)
 * and written by the converter (convert_level_packs.py:330-333); and the save
 * of a pack, one 16-bit word per cell of every level in turn, written by
 * LevelContainer::save (main.cpp:1005-1014) and read back by load_save's caller
 * (main.cpp:985-993).
 */
module Packs {
  import opened Results
  import opened Bytes
  import opened Squares
  import opened Levels

  /** The k level entries that start at off, when the buffer holds them all. */
  function Entries(data: seq<byte>, off: nat, k: nat): (r: Option<seq<seq<byte>>>)
    ensures r.Some? ==> |r.value| == k
    decreases k
  {
    if k == 0 then Some([])
    else if off + 4 > |data| then None
    else
      var n := ReadU32(data, off);
      if off + 4 + n > |data| then None
      else match Entries(data, off + 4 + n, k - 1)
        case None => None
        case Some(rest) => Some([data[off + 4..off + 4 + n]] + rest)
  }

  /** The levels of a pack payload; None where the unchecked reads would run past its end. */
  function PayloadLevels(data: seq<byte>): Option<seq<seq<byte>>>
  {
    if |data| < 4 then None else Entries(data, 4, ReadU32(data, 0))
  }

  /** The level loop of get_levels (main.cpp:2403-2412). */
  method SplitPayload(data: seq<byte>) returns (levels: seq<seq<byte>>)
    requires PayloadLevels(data).Some?
    ensures levels == PayloadLevels(data).value
  {
    var count := ReadU32(data, 0);
    var off: nat := 4;
    levels := [];
    var i := 0;
    while i < count
      invariant 0 <= i <= count && off <= |data|
      invariant Entries(data, off, count - i).Some?
      invariant PayloadLevels(data).value == levels + Entries(data, off, count - i).value
    {
      var size := ReadU32(data, off);
      off := off + 4;
      levels := levels + [data[off..off + size]];
      off := off + size;
      i := i + 1;
    }
  }

  /** Every level entry fits the u32 length field. */
  predicate Frameable(levels: seq<seq<byte>>)
  {
    forall i :: 0 <= i < |levels| ==> |levels[i]| < 0x1_0000_0000
  }

  /** Every level entry fits the u32 length field, and so does their number. */
  predicate Packable(levels: seq<seq<byte>>)
  {
    |levels| < 0x1_0000_0000 && Frameable(levels)
  }

  /** The level entries: each a u32 length and the bytes. */
  function Framed(levels: seq<seq<byte>>): seq<byte>
    requires Frameable(levels)
  {
    if levels == [] then []
    else LE32(|levels[0]|) + levels[0] + Framed(levels[1..])
  }

  /** A pack payload as the converter writes it: the level count, then the entries. */
  function Payload(levels: seq<seq<byte>>): seq<byte>
    requires Packable(levels)
  {
    LE32(|levels|) + Framed(levels)
  }

  /** A window of a buffer that holds a + b + c holds each part where it belongs. */
  lemma {:induction false} WindowParts<T>(data: seq<T>, off: nat, a: seq<T>, b: seq<T>, c: seq<T>)
    requires off + |a| + |b| + |c| <= |data| && data[off..off + |a| + |b| + |c|] == a + b + c
    ensures data[off..off + |a|] == a
    ensures data[off + |a|..off + |a| + |b|] == b
    ensures data[off + |a| + |b|..off + |a| + |b| + |c|] == c
  {
    var w := data[off..off + |a| + |b| + |c|];
    forall i | 0 <= i < |a| ensures data[off..off + |a|][i] == a[i] {
      assert w[i] == data[off + i];
    }
    forall i | 0 <= i < |b| ensures data[off + |a|..off + |a| + |b|][i] == b[i] {
      assert w[|a| + i] == data[off + |a| + i];
    }
    forall i | 0 <= i < |c| ensures data[off + |a| + |b|..off + |a| + |b| + |c|][i] == c[i] {
      assert w[|a| + |b| + i] == data[off + |a| + |b| + i];
    }
  }

  /** The first entry of a framed sequence, and the rest. */
  lemma {:induction false} FramedCons(levels: seq<seq<byte>>)
    requires Packable(levels) && levels != []
    ensures Packable(levels[1..])
    ensures Framed(levels) == LE32(|levels[0]|) + levels[0] + Framed(levels[1..])
  {
  }

  /** One entry read at off, followed by the rest. */
  lemma {:induction false} EntriesCons(data: seq<byte>, off: nat, k: nat, l: seq<byte>, rest: seq<seq<byte>>)
    requires k > 0 && off + 4 + |l| <= |data| && ReadU32(data, off) == |l|
    requires data[off + 4..off + 4 + |l|] == l && Entries(data, off + 4 + |l|, k - 1) == Some(rest)
    ensures Entries(data, off, k) == Some([l] + rest)
  {
  }

  /** The entries written by Framed, found at off in any buffer, are read back by Entries. */
  lemma {:induction false} EntriesOfFramed(data: seq<byte>, off: nat, levels: seq<seq<byte>>)
    requires Packable(levels)
    requires off + |Framed(levels)| <= |data| && data[off..off + |Framed(levels)|] == Framed(levels)
    ensures Entries(data, off, |levels|) == Some(levels)
    decreases |levels|
  {
    if levels != [] {
      var l, rest := levels[0], levels[1..];
      FramedCons(levels);
      WindowParts(data, off, LE32(|l|), l, Framed(rest));
      ReadU32At(data, off, |l|);
      EntriesOfFramed(data, off + 4 + |l|, rest);
      EntriesCons(data, off, |levels|, l, rest);
      assert [l] + rest == levels;
    }
  }

  /** get_levels splits exactly the levels the converter assembled. */
  lemma {:induction false} SplitPayloadOf(levels: seq<seq<byte>>)
    requires Packable(levels)
    ensures PayloadLevels(Payload(levels)) == Some(levels)
  {
    var data := Payload(levels);
    assert data[0..4] == LE32(|levels|);
    ReadU32At(data, 0, |levels|);
    assert data[4..4 + |Framed(levels)|] == Framed(levels);
    EntriesOfFramed(data, 4, levels);
  }

  /** The boards of the levels of a pack. */
  function Boards(levels: seq<Level>): (r: seq<seq<Square>>)
    reads set l | l in levels
    ensures |r| == |levels| && forall i :: 0 <= i < |levels| ==> r[i] == levels[i].squares
  {
    seq(|levels|, i reads set l | l in levels requires 0 <= i < |levels| => levels[i].squares)
  }

  /** The number of cells of all the boards. */
  function Cells(boards: seq<seq<Square>>): nat
  {
    if boards == [] then 0 else |boards[0]| + Cells(boards[1..])
  }

  /** The save words of a pack: the words of every level's board in turn. */
  function PackWords(boards: seq<seq<Square>>): (r: seq<u16>)
    ensures |r| == Cells(boards)
  {
    if boards == [] then [] else SaveWords(boards[0]) + PackWords(boards[1..])
  }

  /** Appending a board appends its words. */
  lemma {:induction false} PackWordsSnoc(boards: seq<seq<Square>>, b: seq<Square>)
    ensures PackWords(boards + [b]) == PackWords(boards) + SaveWords(b)
    decreases |boards|
  {
    if boards == [] {
      assert ([] + [b])[1..] == [];
    } else {
      assert (boards + [b])[1..] == boards[1..] + [b];
      PackWordsSnoc(boards[1..], b);
    }
  }

  /** The inner loops of LevelContainer::save (main.cpp:1005-1014). */
  method SavePack(levels: seq<Level>) returns (words: seq<u16>)
    ensures words == PackWords(Boards(levels))
  {
    ghost var boards := Boards(levels);
    words := [];
    var i := 0;
    while i < |levels|
      invariant 0 <= i <= |levels|
      invariant words == PackWords(boards[..i])
    {
      var squares := levels[i].squares;
      var j := 0;
      ghost var before := words;
      while j < |squares|
        invariant 0 <= j <= |squares|
        invariant words == before + SaveWords(squares[..j])
      {
        words := words + [squares[j].PackInto()];
        assert SaveWords(squares[..j + 1]) == SaveWords(squares[..j]) + [squares[j].PackInto()];
        j := j + 1;
      }
      assert squares[..j] == squares;
      assert boards[..i + 1] == boards[..i] + [boards[i]];
      PackWordsSnoc(boards[..i], boards[i]);
      i := i + 1;
    }
    assert boards[..i] == boards;
  }

  /** The n bytes from lo on; zeros past the end, which no caller here reaches. */
  function Window(data: seq<byte>, lo: nat, n: nat): (r: seq<byte>)
    ensures |r| == n
    ensures lo + n <= |data| ==> r == data[lo..lo + n]
  {
    if lo + n <= |data| then data[lo..lo + n] else seq(n, _ => 0)
  }

  /**
   * The boards after loading a pack save: board k loads the 2|b| bytes that
   * start where the words of the boards before it end.
   */
  function LoadedPack(boards: seq<seq<Square>>, data: seq<byte>): (r: seq<seq<Square>>)
    ensures |r| == |boards|
  {
    seq(|boards|, k requires 0 <= k < |boards| =>
      LoadedSquares(boards[k], Window(data, 2 * Cells(boards[..k]), 2 * |boards[k]|)))
  }

  /** The cells of two runs of boards add up. */
  lemma {:induction false} CellsAppend(a: seq<seq<Square>>, b: seq<seq<Square>>)
    ensures Cells(a + b) == Cells(a) + Cells(b)
    decreases |a|
  {
    if a == [] {
      assert a + b == b;
    } else {
      assert (a + b)[1..] == a[1..] + b;
      CellsAppend(a[1..], b);
    }
  }

  /** The first i + 1 boards have board i's cells more than the first i. */
  lemma {:induction false} CellsPrefixStep(boards: seq<seq<Square>>, i: nat)
    requires i < |boards|
    ensures Cells(boards[..i + 1]) == Cells(boards[..i]) + |boards[i]|
    ensures Cells(boards[..i + 1]) <= Cells(boards)
  {
    assert boards[..i + 1] == boards[..i] + [boards[i]];
    CellsAppend(boards[..i], [boards[i]]);
    assert [boards[i]][1..] == [];
    assert boards == boards[..i + 1] + boards[i + 1..];
    CellsAppend(boards[..i + 1], boards[i + 1..]);
  }

  /** Board i of a loaded pack is loaded from the window that starts after the cells of the boards before it. */
  lemma {:induction false} LoadedPackAt(boards: seq<seq<Square>>, data: seq<byte>, i: nat, off: nat, size: nat)
    requires i < |boards| && 2 * Cells(boards) <= |data|
    requires off == 2 * Cells(boards[..i]) && size == 2 * |boards[i]|
    ensures off + size == 2 * Cells(boards[..i + 1]) <= |data|
    ensures LoadedPack(boards, data)[i] == LoadedSquares(boards[i], data[off..off + size])
  {
    CellsPrefixStep(boards, i);
    assert Window(data, off, size) == data[off..off + size];
  }

  /** The load loop over the levels of a pack (main.cpp:985-993); the levels are distinct objects. */
  method LoadPack(levels: seq<Level>, data: seq<byte>)
    requires forall i, j :: 0 <= i < j < |levels| ==> levels[i] != levels[j]
    requires 2 * Cells(Boards(levels)) <= |data|
    requires forall i :: 0 <= i < |levels| ==> levels[i].Valid()
    modifies set l | l in levels
    ensures Boards(levels) == LoadedPack(old(Boards(levels)), data)
    ensures forall i :: 0 <= i < |levels| ==> levels[i].Valid()
  {
    ghost var boards := Boards(levels);
    ghost var target := LoadedPack(boards, data);
    var off: nat := 0;
    var i := 0;
    assert boards[..0] == [];
    while i < |levels|
      invariant 0 <= i <= |levels| && off == 2 * Cells(boards[..i])
      invariant forall k :: 0 <= k < i ==> levels[k].squares == target[k]
      invariant forall k :: i <= k < |levels| ==> levels[k].squares == boards[k]
      invariant forall k :: 0 <= k < |levels| ==> levels[k].Valid()
    {
      var size := 2 * |levels[i].squares|;
      assert levels[i].squares == boards[i];
      LoadedPackAt(boards, data, i, off, size);
      label before:
      levels[i].LoadSave(data[off..off + size]);
      forall k | 0 <= k < |levels| && k != i
        ensures levels[k].squares == old@before(levels[k].squares) && levels[k].Valid()
      {
        assert levels[k] != levels[i];
      }
      off := off + size;
      i := i + 1;
    }
    forall k | 0 <= k < |levels|
      ensures Boards(levels)[k] == target[k]
    {
    }
  }

  /** The save bytes of two runs of words are the two runs' bytes in turn. */
  lemma {:induction false} WordBytesAppend(a: seq<u16>, b: seq<u16>)
    ensures WordBytes(a + b) == WordBytes(a) + WordBytes(b)
    decreases |b|
  {
    if b == [] {
      assert a + b == a;
    } else {
      var init := b[..|b| - 1];
      assert (a + b)[..|a + b| - 1] == a + init;
      assert (a + b)[|a + b| - 1] == b[|b| - 1];
      WordBytesAppend(a, init);
    }
  }

  /** The bytes of a pack save: the first board's bytes, then the rest's. */
  lemma {:induction false} PackBytesCons(boards: seq<seq<Square>>)
    requires boards != []
    ensures WordBytes(PackWords(boards)) == WordBytes(SaveWords(boards[0])) + WordBytes(PackWords(boards[1..]))
  {
    WordBytesAppend(SaveWords(boards[0]), PackWords(boards[1..]));
  }

  /** The middle run of a three-part concatenation is the slice after the first run. */
  lemma {:induction false} MiddleSlice<T>(pre: seq<T>, a: seq<T>, b: seq<T>)
    ensures (pre + (a + b))[|pre|..|pre| + |a|] == a
  {
    var d := pre + (a + b);
    assert forall i :: 0 <= i < |a| ==> d[|pre|..|pre| + |a|][i] == a[i];
  }

  /** The save words of two runs of boards are the two runs' words in turn. */
  lemma {:induction false} PackWordsAppend(a: seq<seq<Square>>, b: seq<seq<Square>>)
    ensures PackWords(a + b) == PackWords(a) + PackWords(b)
    decreases |a|
  {
    if a == [] {
      assert a + b == b;
    } else {
      assert (a + b)[1..] == a[1..] + b;
      PackWordsAppend(a[1..], b);
    }
  }

  /** In a pack save, board k's stretch holds the bytes of that board's own save words. */
  lemma {:induction false} SaveWindow(boards: seq<seq<Square>>, k: nat)
    requires k < |boards|
    ensures 2 * Cells(boards[..k]) + 2 * |boards[k]| <= |WordBytes(PackWords(boards))|
    ensures WordBytes(PackWords(boards))[2 * Cells(boards[..k])..2 * Cells(boards[..k]) + 2 * |boards[k]|]
      == WordBytes(SaveWords(boards[k]))
  {
    var pre, b, rest := boards[..k], boards[k], boards[k + 1..];
    assert boards == pre + ([b] + rest);
    assert ([b] + rest)[1..] == rest;
    PackWordsAppend(pre, [b] + rest);
    var wpre, wown, wrest := PackWords(pre), SaveWords(b), PackWords(rest);
    assert PackWords(boards) == wpre + (wown + wrest);
    WordBytesAppend(wown, wrest);
    WordBytesAppend(wpre, wown + wrest);
    var head, own, tail := WordBytes(wpre), WordBytes(wown), WordBytes(wrest);
    assert WordBytes(PackWords(boards)) == head + (own + tail);
    assert |head| == 2 * Cells(pre);
    MiddleSlice(head, own, tail);
  }

  /** A board whose colours fit the five bits a save word gives them. */
  predicate Savable(sq: seq<Square>)
  {
    forall i :: 0 <= i < |sq| ==> sq[i].color < 32 && (sq[i].bridge ==> sq[i].aboveColor < 32)
  }

  /** Saving a pack and loading the save into the same boards restores them when colours fit five bits. */
  lemma {:induction false} SaveLoadPack(boards: seq<seq<Square>>)
    requires forall k :: 0 <= k < |boards| ==> Savable(boards[k])
    ensures LoadedPack(boards, WordBytes(PackWords(boards))) == boards
  {
    var data := WordBytes(PackWords(boards));
    var r := LoadedPack(boards, data);
    forall k | 0 <= k < |boards|
      ensures r[k] == boards[k]
    {
      SaveLoadBoardAt(boards, k);
    }
  }

  /** Board k loads back from its stretch of the pack save. */
  lemma {:induction false} SaveLoadBoardAt(boards: seq<seq<Square>>, k: nat)
    requires k < |boards| && Savable(boards[k])
    ensures LoadedPack(boards, WordBytes(PackWords(boards)))[k] == boards[k]
  {
    var data := WordBytes(PackWords(boards));
    SaveWindow(boards, k);
    var w := Window(data, 2 * Cells(boards[..k]), 2 * |boards[k]|);
    assert w == WordBytes(SaveWords(boards[k]));
    LoadOwnSave(boards[k], w);
  }

  /** A board loads back from the bytes of its own save words. */
  lemma {:induction false} LoadOwnSave(b: seq<Square>, w: seq<byte>)
    requires Savable(b) && w == WordBytes(SaveWords(b))
    ensures 2 * |b| <= |w| && LoadedSquares(b, w) == b
  {
    SaveLoadIdentity(b);
  }
}
