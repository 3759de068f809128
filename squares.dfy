/**
 * One board cell (struct Square, main.cpp:351-497): its colour, the directions in
 * which a path leaves it, its walls, the hole/source/bridge flags and, on a bridge,
 * the second ("above") layer that carries the horizontal path.
 *
 * Square is a plain value stored by value in the level's vector; its mutating
 * members (add_direction_color, load_from) are functions returning the updated
 * cell, which the level writes back.
 */
module Squares {
  import opened Bytes

  /** The four move directions; Bit() is the DIR_* flag of each. */
  datatype Dir = North | East | South | West {
    function Bit(): int
    {
      match this
      case North => 1
      case East => 2
      case South => 4
      case West => 8
    }

    function Opposite(): (r: Dir)
      ensures r != this && r.Vertical() == Vertical()
    {
      match this
      case North => South
      case East => West
      case South => North
      case West => East
    }

    predicate Vertical()
    {
      this == North || this == South
    }
  }

  lemma OppositeInvolutive(d: Dir)
    ensures d.Opposite().Opposite() == d
  {
  }

  /** A four-bit direction mask: Square::direction and Square::walls. */
  datatype Dirs = Dirs(north: bool, east: bool, south: bool, west: bool) {
    /** mask & d */
    predicate Has(d: Dir)
    {
      match d
      case North => north
      case East => east
      case South => south
      case West => west
    }

    /** mask | d */
    function With(d: Dir): (r: Dirs)
      ensures forall e :: r.Has(e) == (Has(e) || e == d)
    {
      match d
      case North => this.(north := true)
      case East => this.(east := true)
      case South => this.(south := true)
      case West => this.(west := true)
    }

    /** mask & ~d */
    function Without(d: Dir): (r: Dirs)
      ensures forall e :: r.Has(e) == (Has(e) && e != d)
    {
      match d
      case North => this.(north := false)
      case East => this.(east := false)
      case South => this.(south := false)
      case West => this.(west := false)
    }

    /** The mask as the number the source stores in four bits. */
    function Value(): (r: int)
      ensures 0 <= r < 16
    {
      (if north then 1 else 0) + (if east then 2 else 0) + (if south then 4 else 0) + (if west then 8 else 0)
    }

    /** How many directions the mask holds. */
    function Count(): nat
    {
      (if north then 1 else 0) + (if east then 1 else 0) + (if south then 1 else 0) + (if west then 1 else 0)
    }
  }

  const NoDirs := Dirs(false, false, false, false)

  /** The mask held in the low four bits of `v` (v & 0xF). */
  function DirsOf(v: nat): Dirs
  {
    Dirs(v % 2 == 1, (v / 2) % 2 == 1, (v / 4) % 2 == 1, (v / 8) % 2 == 1)
  }

  lemma DirsOfValue(m: Dirs)
    ensures DirsOf(m.Value()) == m
  {
  }

  lemma ValueOfDirsOf(v: nat)
    requires v < 16
    ensures DirsOf(v).Value() == v
  {
  }

  /**
   * Square::bridge_above_direction, the two halves of a bridge's horizontal
   * layer: 1 = joined to the west neighbour, 2 = joined to the east one, 3 = full.
   */
  datatype Halves = Halves(west: bool, east: bool) {
    function Value(): (r: int)
      ensures 0 <= r < 4
    {
      (if west then 1 else 0) + (if east then 2 else 0)
    }

    /** How many halves are joined. */
    function Count(): nat
    {
      (if west then 1 else 0) + (if east then 1 else 0)
    }
  }

  const NoHalves := Halves(false, false)

  /** The two-bit overlay held in the low two bits of `v`. */
  function HalvesOf(v: nat): Halves
  {
    Halves(v % 2 == 1, (v / 2) % 2 == 1)
  }

  lemma HalvesOfValue(m: Halves)
    ensures HalvesOf(m.Value()) == m
  {
  }

  lemma ValueOfHalvesOf(v: nat)
    requires v < 4
    ensures HalvesOf(v).Value() == v
  {
  }

  /** A direction mask widened to the u32 that number_of_bits receives. */
  function MaskWord(m: Dirs): bv32
  {
    (if m.north then 1 else 0) | (if m.east then 2 else 0) | (if m.south then 4 else 0) | (if m.west then 8 else 0)
  }

  /** number_of_bits (main.cpp:23-28): the parallel bit count on a 32-bit word. */
  function NumberOfBits(i0: bv32): int
  {
    var i1 := i0 - ((i0 >> 1) & 0x55555555);
    var i2 := (i1 & 0x33333333) + ((i1 >> 2) & 0x33333333);
    ((((i2 + (i2 >> 4)) & 0x0F0F0F0F) * 0x01010101) >> 24) as int
  }

  /** On a four-bit mask the parallel bit count is the number of directions set. */
  lemma NumberOfBitsOfMask(m: Dirs)
    ensures NumberOfBits(MaskWord(m)) == m.Count()
  {
  }

  datatype Square = Square(
    color: byte,
    direction: Dirs,
    walls: Dirs,
    hole: bool,
    source: bool,
    bridge: bool,
    aboveDirection: Halves,
    aboveColor: byte)
  {
    predicate IsConnected()
    {
      direction != NoDirs
    }

    /** connection_count: the number of connection bits (number_of_bits of the mask, see ConnectionCountIsNumberOfBits). */
    function ConnectionCount(): (r: nat)
      ensures r <= 4
      ensures r == 0 <==> direction == NoDirs
    {
      direction.Count()
    }

    /** bridge_above_conn_count: 2 when full, 0 when empty, 1 otherwise. */
    function AboveConnCount(): (r: nat)
      ensures r == aboveDirection.Count()
    {
      if aboveDirection.Value() == 3 then 2
      else if aboveDirection.Value() == 0 then 0
      else 1
    }

    /**
     * The connection toward `d` on the layer that carries it: on a bridge the
     * east and west connections live in the overlay, everything else in `direction`.
     */
    predicate HasLink(d: Dir)
    {
      if bridge && d == East then aboveDirection.east
      else if bridge && d == West then aboveDirection.west
      else direction.Has(d)
    }

    /** The colour of the layer that carries direction `d`. */
    function LayerColor(d: Dir): byte
    {
      if bridge && !d.Vertical() then aboveColor else color
    }

    /** complete (main.cpp:434-446). */
    predicate Complete()
    {
      if hole then true
      else if source && IsConnected() then true
      else if ConnectionCount() == 2 then
        (if bridge then aboveDirection.Value() == 3 else true)
      else false
    }

    /**
     * add_direction_color (main.cpp:448-473): a bridge takes east and west into its
     * overlay, everything else goes to the direction mask and the colour.
     */
    function AddDirectionColor(d: Dir, col: byte): (r: Square)
      ensures SameLayout(this, r)
      ensures forall e :: r.HasLink(e) == (HasLink(e) || e == d)
      ensures r.LayerColor(d) == col
      ensures bridge && !d.Vertical() ==> r.direction == direction && r.color == color
      ensures !(bridge && !d.Vertical()) ==> r.aboveDirection == aboveDirection && r.aboveColor == aboveColor
      ensures !(bridge && !d.Vertical()) ==> r.direction == direction.With(d)
    {
      if bridge && d == East then
        this.(aboveDirection := aboveDirection.(east := true), aboveColor := col)
      else if bridge && d == West then
        this.(aboveDirection := aboveDirection.(west := true), aboveColor := col)
      else
        this.(direction := direction.With(d), color := col)
    }

    /**
     * The per-cell part of Level::remove_direction (main.cpp:664-678): clears one
     * connection bit on its layer and leaves every colour as it was.
     */
    function WithoutDirection(d: Dir): (r: Square)
      ensures SameLayout(this, r)
      ensures forall e :: r.HasLink(e) == (HasLink(e) && e != d)
      ensures r.color == color && r.aboveColor == aboveColor
      ensures bridge && !d.Vertical() ==> r.direction == direction
      ensures !(bridge && !d.Vertical()) ==> r.aboveDirection == aboveDirection
    {
      if bridge && d == East then this.(aboveDirection := aboveDirection.(east := false))
      else if bridge && d == West then this.(aboveDirection := aboveDirection.(west := false))
      else this.(direction := direction.Without(d))
    }

    /** load_from (main.cpp:474-483). */
    function LoadFrom(v: u16): (r: Square)
      ensures SameLayout(this, r)
      ensures !bridge ==> r.aboveDirection == aboveDirection && r.aboveColor == aboveColor
    {
      var loaded := this.(direction := DirsOf(v % 16), color := (v / 16) % 32);
      if bridge then loaded.(aboveDirection := HalvesOf((v / 512) % 4), aboveColor := (v / 2048) % 32)
      else loaded
    }

    /** pack_into (main.cpp:485-496): the 16-bit save word of the cell. */
    function PackInto(): u16
    {
      direction.Value() + 16 * (color % 32)
        + (if bridge then 512 * aboveDirection.Value() + 2048 * (aboveColor % 32) else 0)
    }
  }

  /** connection_count (main.cpp:378-381) is number_of_bits of the direction mask. */
  lemma ConnectionCountIsNumberOfBits(s: Square)
    ensures s.ConnectionCount() == NumberOfBits(MaskWord(s.direction))
  {
    NumberOfBitsOfMask(s.direction);
  }

  /**
   * What complete() asks of the links a player sees: a hole is always complete; a
   * source that is not a bridge once any link leaves it; a bridge (whose
   * direction mask carries only north and south) once all four links are there;
   * any other cell once exactly two links leave it.
   */
  lemma CompleteLinks(s: Square)
    requires s.bridge ==> !s.direction.east && !s.direction.west
    ensures s.hole ==> s.Complete()
    ensures !s.hole && s.source && !s.bridge ==> (s.Complete() <==> exists d: Dir :: s.HasLink(d))
    ensures !s.hole && s.bridge && !s.source ==> (s.Complete() <==> forall d: Dir :: s.HasLink(d))
    ensures !s.hole && !s.source && !s.bridge ==>
      (s.Complete() <==> exists d: Dir, e: Dir :: d != e && s.HasLink(d) && s.HasLink(e) && forall f: Dir :: s.HasLink(f) ==> f == d || f == e)
  {
    if !s.hole && !s.source && !s.bridge {
      TwoLinks(s.direction);
      assert forall d: Dir :: s.HasLink(d) == s.direction.Has(d);
    }
    if !s.hole && s.source && !s.bridge && s.direction != NoDirs {
      assert s.HasLink(North) || s.HasLink(East) || s.HasLink(South) || s.HasLink(West);
    }
    if !s.hole && s.bridge && !s.source && s.Complete() {
      assert s.direction.north && s.direction.south;
      assert s.aboveDirection.west && s.aboveDirection.east;
      forall d: Dir
        ensures s.HasLink(d)
      {
        match d
        case North =>
        case East =>
        case South =>
        case West =>
      }
    }
    if !s.hole && s.bridge && !s.source && forall d: Dir :: s.HasLink(d) {
      assert s.HasLink(North) && s.HasLink(East) && s.HasLink(South) && s.HasLink(West);
    }
  }

  /** A mask counts two exactly when it names two distinct directions and no other. */
  lemma TwoLinks(m: Dirs)
    ensures m.Count() == 2 <==>
      exists d: Dir, e: Dir :: d != e && m.Has(d) && m.Has(e) && forall f: Dir :: m.Has(f) ==> f == d || f == e
  {
    if m.Count() == 2 {
      TwoNamed(m);
    } else {
      forall d: Dir, e: Dir | d != e && m.Has(d) && m.Has(e)
        ensures exists f: Dir :: m.Has(f) && f != d && f != e
      {
        ThirdLink(m, d, e);
      }
    }
  }

  /** A mask counting two names its two directions. */
  lemma TwoNamed(m: Dirs)
    requires m.Count() == 2
    ensures exists d: Dir, e: Dir :: d != e && m.Has(d) && m.Has(e) && forall f: Dir :: m.Has(f) ==> f == d || f == e
  {
    var d: Dir, e: Dir;
    if m.north && m.east { d, e := North, East; }
    else if m.north && m.south { d, e := North, South; }
    else if m.north && m.west { d, e := North, West; }
    else if m.east && m.south { d, e := East, South; }
    else if m.east && m.west { d, e := East, West; }
    else { d, e := South, West; }
    OnlyTwo(m, d, e);
    assert d != e && m.Has(d) && m.Has(e) && forall f: Dir :: m.Has(f) ==> f == d || f == e;
  }

  /** A mask holding two distinct directions but not counting two holds a third. */
  lemma ThirdLink(m: Dirs, d: Dir, e: Dir)
    requires m.Count() != 2 && d != e && m.Has(d) && m.Has(e)
    ensures exists f: Dir :: m.Has(f) && f != d && f != e
  {
    if forall f: Dir :: m.Has(f) ==> f == d || f == e {
      CountTwo(m, d, e);
    }
  }

  /** A mask of two set directions d and e names no third one. */
  lemma OnlyTwo(m: Dirs, d: Dir, e: Dir)
    requires m.Count() == 2 && d != e && m.Has(d) && m.Has(e)
    ensures forall f: Dir :: m.Has(f) ==> f == d || f == e
  {
    forall f: Dir | m.Has(f) ensures f == d || f == e {
      match f
      case North =>
      case East =>
      case South =>
      case West =>
    }
  }

  /** A mask naming two distinct directions and no other counts two. */
  lemma CountTwo(m: Dirs, d: Dir, e: Dir)
    requires d != e && m.Has(d) && m.Has(e)
    requires forall f: Dir :: m.Has(f) ==> f == d || f == e
    ensures m.Count() == 2
  {
    assert m.Has(North) ==> North == d || North == e;
    assert m.Has(East) ==> East == d || East == e;
    assert m.Has(South) ==> South == d || South == e;
    assert m.Has(West) ==> West == d || West == e;
  }

  /** Walls and the hole, source and bridge flags: what play never changes. */
  predicate SameLayout(a: Square, b: Square)
  {
    a.walls == b.walls && a.hole == b.hole && a.source == b.source && a.bridge == b.bridge
  }

  /** The all-zero cell a freshly sized board holds. */
  const ZeroSquare := Square(0, NoDirs, NoDirs, false, false, false, NoHalves, 0)

  /**
   * Loading a cell's save word into a cell of the same kind restores its paths:
   * direction and colour, and on a bridge the overlay, provided the colours fit
   * the five bits the word gives them.  Everything else stays the target's.
   */
  lemma LoadPacked(s: Square, t: Square)
    requires s.color < 32 && (s.bridge ==> s.aboveColor < 32)
    requires t.bridge == s.bridge
    ensures t.LoadFrom(s.PackInto()) ==
      if s.bridge then t.(direction := s.direction, color := s.color,
                           aboveDirection := s.aboveDirection, aboveColor := s.aboveColor)
      else t.(direction := s.direction, color := s.color)
  {
    var a, c := s.direction.Value(), s.color as int;
    var h, ac := if s.bridge then s.aboveDirection.Value() else 0, if s.bridge then s.aboveColor as int else 0;
    WordFields(a, c, h, ac);
    var v := s.PackInto();
    assert v == a + 16 * c + 512 * h + 2048 * ac by {
      assert s.color % 32 == s.color;
      assert s.bridge ==> s.aboveColor % 32 == s.aboveColor;
    }
    DirsOfValue(s.direction);
    var r := t.LoadFrom(v);
    assert r.direction == s.direction && r.color == s.color;
    if s.bridge {
      HalvesOfValue(s.aboveDirection);
      assert r.aboveDirection == s.aboveDirection && r.aboveColor == s.aboveColor;
    }
  }

  /** The four fields of a save word come back out of it by division and remainder. */
  lemma {:induction false} WordFields(a: int, c: int, h: int, ac: int)
    requires 0 <= a < 16 && 0 <= c < 32 && 0 <= h < 4 && 0 <= ac < 32
    ensures (a + 16 * c + 512 * h + 2048 * ac) % 16 == a
    ensures (a + 16 * c + 512 * h + 2048 * ac) / 16 % 32 == c
    ensures (a + 16 * c + 512 * h + 2048 * ac) / 512 % 4 == h
    ensures (a + 16 * c + 512 * h + 2048 * ac) / 2048 % 32 == ac
  {
    var v := a + 16 * c + 512 * h + 2048 * ac;
    assert v / 16 == c + 32 * h + 128 * ac;
    assert v / 512 == h + 4 * ac;
    assert v / 2048 == ac;
  }

  /**
   * The other direction: a word loaded into a bridge packs back to itself, and into
   * any other cell to its low nine bits, the only ones a non-bridge keeps.
   */
  lemma PackLoaded(t: Square, v: u16)
    ensures t.LoadFrom(v).PackInto() == if t.bridge then v else v % 512
  {
    var r := t.LoadFrom(v);
    ValueOfDirsOf(v % 16);
    WordSplit(v);
    assert r.direction.Value() == v % 16;
    assert r.color == (v / 16) % 32;
    if t.bridge {
      ValueOfHalvesOf((v / 512) % 4);
      assert r.aboveDirection.Value() == (v / 512) % 4;
      assert r.aboveColor == (v / 2048) % 32;
    }
  }

  /** A 16-bit word is the sum of its four fields, and its low nine bits the sum of the first two. */
  lemma {:induction false} WordSplit(v: int)
    requires 0 <= v < 0x1_0000
    ensures v == v % 16 + 16 * ((v / 16) % 32) + 512 * ((v / 512) % 4) + 2048 * ((v / 2048) % 32)
    ensures v % 512 == v % 16 + 16 * ((v / 16) % 32)
  {
    assert v == v % 512 + 512 * (v / 512);
    assert v / 512 == (v / 512) % 4 + 4 * (v / 2048);
    assert v % 512 == v % 16 + 16 * ((v / 16) % 32);
  }
}
