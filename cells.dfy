/// Materials, coordinates and the bounds-checked coordinate gate of the
/// falling-sand engine (simulation.hpp).
module Cells {

  /** The material occupying one grid slot. The enumerators are declared in
      this order, so their underlying values are 0, 1, 2, 3 and 4. */
  datatype Cell = Air | Snow | Wall | Sand | Eraser

  /** A signed grid coordinate: x grows to the right, y grows downwards (the row). */
  datatype Point = Point(x: int, y: int)

  datatype Option<T> = None | Some(value: T)

  /** The underlying value of each enumerator. */
  function Ordinal(c: Cell): (n: nat)
    ensures n < 5
    ensures CellOf(n) == Some(c)
  {
    match c
    case Air => 0
    case Snow => 1
    case Wall => 2
    case Sand => 3
    case Eraser => 4
  }

  /** The enumerator whose underlying value is n, if there is one. */
  function CellOf(n: int): (c: Option<Cell>)
    ensures c.Some? <==> 0 <= n < 5
  {
    if n == 0 then Some(Air)
    else if n == 1 then Some(Snow)
    else if n == 2 then Some(Wall)
    else if n == 3 then Some(Sand)
    else if n == 4 then Some(Eraser)
    else None
  }

  /** Every underlying value 0..4 names exactly one enumerator, and no other
      value names one: the enumeration is closed with five kinds. */
  lemma CellOfInvertsOrdinal(n: int)
    requires CellOf(n).Some?
    ensures Ordinal(CellOf(n).value) == n
  {
  }

  /** The value a value-initialised Cell takes (a freshly sized vector of
      cells holds it everywhere). */
  function DefaultCell(): (c: Cell)
    ensures Ordinal(c) == 0
  {
    Air
  }

  /** The bounds-checked coordinate gate: the row-major index of p in a grid
      of the given size, or None when p lies outside the grid. */
  function IndexFromCoordinates(p: Point, size: Point): (r: Option<nat>)
    ensures r.Some? <==> 0 <= p.x < size.x && 0 <= p.y < size.y
    ensures r.Some? ==> r.value == p.y * size.x + p.x && r.value < size.x * size.y
  {
    if 0 <= p.x < size.x && 0 <= p.y < size.y then
      RowMajorBound(p.x, p.y, size.x, size.y);
      Some(p.y * size.x + p.x)
    else
      None
  }

  /** The coordinate of row-major index i in a grid of width w. */
  function PointOf(i: nat, w: nat): Point
    requires w > 0
  {
    Point(i % w, i / w)
  }

  /** The gate is undone by PointOf: an in-bounds point is recovered from its index. */
  lemma IndexFromCoordinatesInverse(p: Point, size: Point)
    requires IndexFromCoordinates(p, size).Some?
    ensures PointOf(IndexFromCoordinates(p, size).value, size.x) == p
  {
    RowMajorDivMod(p.x, p.y, size.x);
  }

  /** Every index of the grid is the gate's image of its own coordinate. */
  lemma PointOfInBounds(i: nat, size: Point)
    requires 0 < size.x && 0 <= size.y && i < size.x * size.y
    ensures IndexFromCoordinates(PointOf(i, size.x), size) == Some(i)
  {
    var w := size.x;
    var q, r := i / w, i % w;
    assert i == q * w + r;
    if q >= size.y {
      MulMonotone(size.y, q, w);
      assert false;
    }
  }

  /** Distinct in-bounds points never share an index: no row aliasing. */
  lemma IndexFromCoordinatesInjective(p: Point, q: Point, size: Point)
    requires IndexFromCoordinates(p, size).Some?
    requires IndexFromCoordinates(p, size) == IndexFromCoordinates(q, size)
    ensures p == q
  {
    IndexFromCoordinatesInverse(p, size);
    IndexFromCoordinatesInverse(q, size);
  }

  /** The out-of-bounds probes of the test suite, and the one in-bounds probe. */
  lemma IndexFromCoordinatesProbes()
    ensures IndexFromCoordinates(Point(0, 0), Point(1, 1)) == Some(0)
    ensures IndexFromCoordinates(Point(-1, 0), Point(1, 1)) == None
    ensures IndexFromCoordinates(Point(1, 0), Point(1, 1)) == None
    ensures IndexFromCoordinates(Point(0, -1), Point(1, 1)) == None
    ensures IndexFromCoordinates(Point(0, 1), Point(1, 1)) == None
  {
  }

  // Arithmetic facts about row-major offsets.

  lemma MulMonotone(a: int, b: int, c: int)
    requires a <= b && 0 <= c
    ensures a * c <= b * c
  {
    assert b * c - a * c == (b - a) * c;
  }

  lemma RowMajorBound(x: int, y: int, w: int, h: int)
    requires 0 <= x < w && 0 <= y < h
    ensures 0 <= y * w + x < w * h
  {
    MulMonotone(0, y, w);
    MulMonotone(y + 1, h, w);
  }

  lemma RowMajorDivMod(x: int, y: int, w: int)
    requires 0 <= x < w && 0 <= y
    ensures (y * w + x) / w == y && (y * w + x) % w == x
  {
    var i := y * w + x;
    var q, r := i / w, i % w;
    assert i == q * w + r;
    assert (y - q) * w == r - x;
    if y > q {
      MulMonotone(1, y - q, w);
    } else if y < q {
      MulMonotone(1, q - y, w);
    }
  }
}
