/**
 * The `walls` dictionary of process_level (convert_level_packs.py:75-79): cell
 * index to wall mask, keys kept in insertion order as a Python dict keeps them.
 */
module WallDicts {
  import opened Squares

  predicate Distinct(s: seq<int>)
  {
    forall i, j :: 0 <= i < j < |s| ==> s[i] != s[j]
  }

  /** masks holds the values; order lists every key once, oldest first. */
  datatype Walls = Walls(masks: map<int, Dirs>, order: seq<int>) {
    predicate Valid()
    {
      && Distinct(order)
      && (forall p :: p in masks ==> p in order)
      && (forall i :: 0 <= i < |order| ==> order[i] in masks)
    }

    /** walls.get(p, 0) */
    function Get(p: int): Dirs
    {
      if p in masks then masks[p] else NoDirs
    }

    /**
     * add_direction(p, d): walls[p] = walls.get(p, 0) | d.  A new key goes to the
     * end of the order; an existing one keeps its place.
     */
    function Add(p: int, d: Dir): (r: Walls)
      requires Valid()
      ensures r.Valid()
      ensures r.Get(p) == Get(p).With(d)
      ensures forall q :: q != p ==> r.Get(q) == Get(q)
      ensures p in r.masks && forall q :: q in r.masks <==> q in masks || q == p
      ensures |r.order| == |order| + (if p in masks then 0 else 1)
    {
      if p in masks then Walls(masks[p := masks[p].With(d)], order)
      else Walls(masks[p := NoDirs.With(d)], order + [p])
    }

    /** Every mask of this dictionary has at least the directions of `w`'s at the same key. */
    ghost predicate Covers(w: Walls)
    {
      forall q, e :: w.Get(q).Has(e) ==> Get(q).Has(e)
    }
  }

  const Empty := Walls(map[], [])

  /** Adding a direction only ever adds: the new dictionary covers the old one. */
  lemma AddCovers(w: Walls, p: int, d: Dir)
    requires w.Valid()
    ensures w.Add(p, d).Covers(w) && w.Add(p, d).Get(p).Has(d)
  {
  }

  lemma CoversTrans(a: Walls, b: Walls, c: Walls)
    requires c.Covers(b) && b.Covers(a)
    ensures c.Covers(a)
  {
  }
}
