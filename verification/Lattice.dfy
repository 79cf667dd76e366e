/**
 * The toroidal grid the agents live on: a width-by-height array of cells whose
 * coordinates wrap around in both directions, and the 3x3 Moore neighbourhood
 * (centre included) that persons query for events.
 */
module Lattice {

  /** A cell coordinate; `x` runs along the width, `y` along the height. */
  datatype Pos = Pos(x: int, y: int)

  datatype Dims = Dims(width: int, height: int) {

    predicate Valid() {
      width > 0 && height > 0
    }

    predicate Contains(p: Pos) {
      0 <= p.x < width && 0 <= p.y < height
    }
  }

  /** Coordinate `c` moved by `delta` on a ring of `size` cells. */
  function Offset(c: int, delta: int, size: int): (r: int)
    requires size > 0
    ensures 0 <= r < size
  {
    (c + delta) % size
  }

  /** `b` is at most one step away from `a` on a ring of `size` cells. */
  predicate WithinOne(a: int, b: int, size: int)
    requires size > 0
  {
    var r := (b - a) % size;
    r == size - 1 || r == 0 || r == 1
  }

  /**
   * Event cell `e` lies in the Moore neighbourhood of `p` (centre included) on
   * the torus: both coordinate differences are -1, 0 or 1 modulo the side.
   */
  predicate IsNeighbour(d: Dims, p: Pos, e: Pos)
    requires d.Valid()
  {
    WithinOne(p.x, e.x, d.width) && WithinOne(p.y, e.y, d.height)
  }

  /**
   * The cells the grid enumerates around `p`: every shift of `p` by -1, 0 or 1
   * in each direction, wrapped onto the grid.
   */
  function MooreBlock(d: Dims, p: Pos): (cells: set<Pos>)
    requires d.Valid()
    ensures forall c :: c in cells ==> d.Contains(c)
  {
    set dx, dy | -1 <= dx <= 1 && -1 <= dy <= 1 :: Pos(Offset(p.x, dx, d.width), Offset(p.y, dy, d.height))
  }

  /** The wrapped difference of two on-grid coordinates, without the modulus. */
  lemma WrappedDifference(a: int, b: int, size: int)
    requires size > 0 && 0 <= a < size && 0 <= b < size
    ensures (b - a) % size == if b >= a then b - a else b - a + size
  {
  }

  /** A shift by -1, 0 or 1 of an on-grid coordinate, without the modulus. */
  lemma WrappedShift(a: int, delta: int, size: int)
    requires size > 0 && 0 <= a < size && -1 <= delta <= 1
    ensures Offset(a, delta, size) ==
      if a + delta < 0 then size - 1 else if a + delta >= size then 0 else a + delta
  {
  }

  /** On one axis, being within one step is the same as being a wrapped shift by -1, 0 or 1. */
  lemma WithinOneIffShift(a: int, b: int, size: int)
    requires size > 0 && 0 <= a < size && 0 <= b < size
    ensures WithinOne(a, b, size) <==> exists delta :: -1 <= delta <= 1 && Offset(a, delta, size) == b
  {
    var r := (b - a) % size;
    WrappedDifference(a, b, size);
    WrappedShift(a, -1, size);
    WrappedShift(a, 0, size);
    WrappedShift(a, 1, size);
    if WithinOne(a, b, size) {
      if r == 0 {
        assert Offset(a, 0, size) == b;
      } else if r == 1 {
        assert Offset(a, 1, size) == b;
      } else {
        assert Offset(a, -1, size) == b;
      }
    }
    if exists delta :: -1 <= delta <= 1 && Offset(a, delta, size) == b {
      var delta :| -1 <= delta <= 1 && Offset(a, delta, size) == b;
      assert delta == -1 || delta == 0 || delta == 1;
    }
  }

  /**
   * The arithmetic neighbour test agrees with the enumerated 3x3 block, for
   * every cell of the grid, at interior, edge and corner positions alike.
   */
  lemma NeighbourIffInMooreBlock(d: Dims, p: Pos, e: Pos)
    requires d.Valid() && d.Contains(p) && d.Contains(e)
    ensures IsNeighbour(d, p, e) <==> e in MooreBlock(d, p)
  {
    WithinOneIffShift(p.x, e.x, d.width);
    WithinOneIffShift(p.y, e.y, d.height);
    if IsNeighbour(d, p, e) {
      var dx :| -1 <= dx <= 1 && Offset(p.x, dx, d.width) == e.x;
      var dy :| -1 <= dy <= 1 && Offset(p.y, dy, d.height) == e.y;
      assert e == Pos(Offset(p.x, dx, d.width), Offset(p.y, dy, d.height));
    }
    if e in MooreBlock(d, p) {
      var dx, dy :| -1 <= dx <= 1 && -1 <= dy <= 1 && e == Pos(Offset(p.x, dx, d.width), Offset(p.y, dy, d.height));
      assert Offset(p.x, dx, d.width) == e.x;
      assert Offset(p.y, dy, d.height) == e.y;
    }
  }

  /** Neighbourhood is symmetric: `e` sees `p` exactly when `p` sees `e`. */
  lemma NeighbourSymmetric(d: Dims, p: Pos, e: Pos)
    requires d.Valid() && d.Contains(p) && d.Contains(e)
    ensures IsNeighbour(d, p, e) <==> IsNeighbour(d, e, p)
  {
    WrappedDifference(p.x, e.x, d.width);
    WrappedDifference(e.x, p.x, d.width);
    WrappedDifference(p.y, e.y, d.height);
    WrappedDifference(e.y, p.y, d.height);
  }

  /** On the default 20x20 grid the corner cell (0,0) sees an event at the opposite corner (19,19). */
  lemma CornerWrapsToOppositeCorner()
    ensures IsNeighbour(Dims(20, 20), Pos(0, 0), Pos(19, 19))
    ensures Pos(19, 19) in MooreBlock(Dims(20, 20), Pos(0, 0))
  {
    NeighbourIffInMooreBlock(Dims(20, 20), Pos(0, 0), Pos(19, 19));
  }
}
