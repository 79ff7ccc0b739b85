/// The one-tick transition of the engine (simulation.cpp).
module Simulation {
  import opened Cells

  /** One component of the unsigned 32-bit world size the tick is given. */
  type u32 = n: nat | n < 0x1_0000_0000

  /** size_t arithmetic wraps modulo 2^64. */
  const SizeModulus: int := 0x1_0000_0000_0000_0000

  /** The unchecked row-major index used inside the transition: y * width + x
      computed in size_t, so it wraps for negative or oversized coordinates. */
  function RowMajorIndex(p: Point, width: nat): (r: nat)
    ensures r < SizeModulus
    ensures 0 <= p.x && 0 <= p.y && p.y * width + p.x < SizeModulus ==> r == p.y * width + p.x
  {
    (p.y * width + p.x) % SizeModulus
  }

  /** On in-bounds points of a grid whose size fits size_t, the unchecked index
      and the bounds-checked gate agree. */
  lemma RowMajorIndexAgreesWithGate(p: Point, size: Point)
    requires IndexFromCoordinates(p, size).Some?
    requires size.x * size.y <= SizeModulus
    ensures IndexFromCoordinates(p, size) == Some(RowMajorIndex(p, size.x))
  {
  }

  /** Without the gate, a column past the right edge lands at the start of the
      next row, and a column before the left edge at the end of the previous row. */
  lemma RowMajorIndexAliasesRows(w: nat)
    requires 0 < w < 0x1_0000_0000
    ensures RowMajorIndex(Point(w, 0), w) == RowMajorIndex(Point(0, 1), w)
    ensures RowMajorIndex(Point(-1, 1), w) == RowMajorIndex(Point(w - 1, 0), w)
    ensures IndexFromCoordinates(Point(w, 0), Point(w, 2)).None?
    ensures IndexFromCoordinates(Point(-1, 1), Point(w, 2)).None?
  {
  }

  /** A cell that falling material may move into: only the empty material,
      the one a freshly sized grid holds everywhere. */
  predicate IsPermissive(c: Cell)
    ensures IsPermissive(c) <==> Ordinal(c) == Ordinal(DefaultCell())
  {
    c == Air
  }

  /** The Snow at index i of the input moves down this tick: it is not on the
      bottom row and the input cell directly below it is permissive. */
  predicate Falls(front: seq<Cell>, w: nat, i: nat)
    requires i < |front|
  {
    front[i] == Snow && i + w < |front| && IsPermissive(front[i + w])
  }

  /** What index i of the output holds, read off the input alone. */
  function NextCell(front: seq<Cell>, w: nat, i: nat): Cell
    requires i < |front|
  {
    match front[i]
    case Wall => Wall
    case Snow => if Falls(front, w, i) then Air else Snow
    case Air => if w <= i && Falls(front, w, i - w) then Snow else Air
    case Sand => Air
    case Eraser => Air
  }

  /** The next generation of a grid of width w and height h. */
  function Step(front: seq<Cell>, w: nat, h: nat): (next: seq<Cell>)
    requires |front| == w * h
    ensures |next| == w * h
  {
    seq(|front|, i requires 0 <= i < |front| => NextCell(front, w, i))
  }

  /** Output cells below index k still hold what the scan has not yet
      finished with: Air, or Snow that has already fallen into them. */
  ghost predicate ScannedUpTo(front: seq<Cell>, w: nat, out: seq<Cell>, k: int)
    requires |out| == |front|
  {
    && (forall i :: 0 <= i < k && i < |out| ==> out[i] == NextCell(front, w, i))
    && (forall i :: 0 <= k <= i < |out| ==>
          out[i] == (if w <= i < k + w && Falls(front, w, i - w) then Snow else Air))
  }

  /** Before the scan, the all-Air output holds nothing yet. */
  lemma ScanStarts(front: seq<Cell>, w: nat, out: seq<Cell>)
    requires |out| == |front|
    requires forall i :: 0 <= i < |out| ==> out[i] == Air
    ensures ScannedUpTo(front, w, out, 0)
  {
  }

  /** After the last cell, the output is the next generation. */
  lemma ScanEnds(front: seq<Cell>, w: nat, h: nat, out: seq<Cell>)
    requires |front| == w * h && |out| == |front|
    requires ScannedUpTo(front, w, out, |front|)
    ensures out == Step(front, w, h)
  {
  }

  /** Scanning a cell the switch does not write (Air, Sand, Eraser). */
  lemma ScanSkips(front: seq<Cell>, w: nat, out: seq<Cell>, k: nat)
    requires |out| == |front| && k < |front|
    requires front[k] == Air || front[k] == Sand || front[k] == Eraser
    requires ScannedUpTo(front, w, out, k)
    ensures ScannedUpTo(front, w, out, k + 1)
  {
  }

  /** Scanning a cell that stays where it is (Wall, or Snow that does not fall). */
  lemma ScanKeeps(front: seq<Cell>, w: nat, out: seq<Cell>, k: nat)
    requires |out| == |front| && k < |front|
    requires front[k] == Wall || (front[k] == Snow && !Falls(front, w, k))
    requires ScannedUpTo(front, w, out, k)
    ensures ScannedUpTo(front, w, out[k := front[k]], k + 1)
  {
  }

  /** Scanning Snow that falls: Air at its own slot, Snow one row down. */
  lemma ScanFalls(front: seq<Cell>, w: nat, out: seq<Cell>, k: nat)
    requires |out| == |front| && k < |front|
    requires Falls(front, w, k)
    requires ScannedUpTo(front, w, out, k)
    ensures ScannedUpTo(front, w, out[k := Air][k + w := Snow], k + 1)
  {
  }

  /** The index arithmetic of the scan at column x of row y. */
  lemma ScanIndices(x: nat, y: nat, w: u32, h: u32)
    requires x < w && y < h
    ensures y * w + x < w * h
    ensures RowMajorIndex(Point(x, y), w) == y * w + x
    ensures y == h - 1 <==> y * w + x + w >= w * h
    ensures y < h - 1 ==> RowMajorIndex(Point(x, y + 1), w) == y * w + x + w
  {
    SizeFitsSizeT(w, h);
    RowMajorBound(x, y, w, h);
    if y < h - 1 {
      RowMajorBound(x, y + 1, w, h);
    } else {
      assert y * w + w == h * w;
    }
  }

  lemma NextRowStart(y: int, w: int)
    ensures (y + 1) * w == y * w + w && y * w == w * y
  {
  }

  lemma SizeFitsSizeT(w: u32, h: u32)
    ensures w * h < SizeModulus
  {
    MulMonotone(w, 0xFFFF_FFFF, h);
    MulMonotone(h, 0xFFFF_FFFF, 0xFFFF_FFFF);
  }

  /** The switch of the scan for the input cell at column x of row y: Wall is
      copied, Snow on the bottom row is copied, Snow above a permissive input
      cell moves down one row, other Snow is copied, and Air, Sand and Eraser
      are not written (the switch has no case for the last two). */
  method ScanCell(front: seq<Cell>, w: u32, h: u32, x: nat, y: nat, newWorld: array<Cell>)
    requires |front| == w * h && newWorld.Length == |front| && x < w && y < h
    requires ScannedUpTo(front, w, newWorld[..], y * w + x)
    modifies newWorld
    ensures ScannedUpTo(front, w, newWorld[..], y * w + x + 1)
  {
    ScanIndices(x, y, w, h);
    var cellIndex := RowMajorIndex(Point(x, y), w);
    ghost var k := y * w + x;
    ghost var out := newWorld[..];
    var cell := front[cellIndex];
    match cell {
      case Air =>
        ScanSkips(front, w, out, k);
        return;
      case Snow =>
        if y == h - 1 {
          newWorld[cellIndex] := cell;
          assert newWorld[..] == out[k := front[k]];
          ScanKeeps(front, w, out, k);
          return;
        }
        var belowIndex := RowMajorIndex(Point(x, y + 1), w);
        var below := front[belowIndex];
        if IsPermissive(below) {
          newWorld[cellIndex] := Air;
          newWorld[belowIndex] := cell;
          assert newWorld[..] == out[k := Air][k + w := Snow];
          ScanFalls(front, w, out, k);
        } else {
          newWorld[cellIndex] := cell;
          assert newWorld[..] == out[k := front[k]];
          ScanKeeps(front, w, out, k);
        }
      case Wall =>
        newWorld[cellIndex] := cell;
        assert newWorld[..] == out[k := front[k]];
        ScanKeeps(front, w, out, k);
      case Sand | Eraser =>
        ScanSkips(front, w, out, k);
    }
  }

  /** One tick: a fresh all-Air grid is filled by scanning the input rows top
      to bottom and each row left to right, reading only the input. */
  method SimulateStep(front: seq<Cell>, w: u32, h: u32) returns (next: seq<Cell>)
    requires |front| == w * h
    ensures next == Step(front, w, h)
  {
    var newWorld := new Cell[w * h](_ => DefaultCell());
    ScanStarts(front, w, newWorld[..]);
    ghost var rowStart := 0;
    for y := 0 to h
      invariant rowStart == y * w
      invariant ScannedUpTo(front, w, newWorld[..], rowStart)
    {
      for x := 0 to w
        invariant ScannedUpTo(front, w, newWorld[..], rowStart + x)
      {
        ScanCell(front, w, h, x, y, newWorld);
      }
      NextRowStart(y, w);
      rowStart := rowStart + w;
    }
    assert rowStart == |front| by { NextRowStart(h, w); }
    ScanEnds(front, w, h, newWorld[..]);
    next := newWorld[..];
  }

  // Where each material ends up after one tick.

  /** Wall cells appear at exactly the same indices before and after a tick. */
  lemma StepKeepsWalls(front: seq<Cell>, w: nat, h: nat)
    requires |front| == w * h
    ensures Positions(Step(front, w, h), Wall) == Positions(front, Wall)
  {
  }

  /** Snow on the bottom row stays put. */
  lemma StepKeepsBottomSnow(front: seq<Cell>, w: nat, h: nat, i: nat)
    requires |front| == w * h && i < |front|
    requires front[i] == Snow && (h - 1) * w <= i
    ensures Step(front, w, h)[i] == Snow
  {
  }

  /** Snow above a permissive input cell moves down exactly one row and
      leaves Air behind. */
  lemma StepDropsSnow(front: seq<Cell>, w: nat, h: nat, i: nat)
    requires |front| == w * h && i < (h - 1) * w
    requires front[i] == Snow && IsPermissive(front[i + w])
    ensures Step(front, w, h)[i] == Air && Step(front, w, h)[i + w] == Snow
  {
  }

  /** Snow above a cell that is not permissive (Snow, Wall, and also Sand or
      Eraser) stays in place. */
  lemma StepBlocksSnow(front: seq<Cell>, w: nat, h: nat, i: nat)
    requires |front| == w * h && i < (h - 1) * w
    requires front[i] == Snow && !IsPermissive(front[i + w])
    ensures Step(front, w, h)[i] == Snow
  {
  }

  /** The source's switch has no case for Sand or Eraser: their slots come
      out Air and neither material survives a tick. */
  lemma StepDropsSandAndEraser(front: seq<Cell>, w: nat, h: nat)
    requires |front| == w * h
    ensures forall i :: 0 <= i < |front| && (front[i] == Sand || front[i] == Eraser) ==>
              Step(front, w, h)[i] == Air
    ensures Positions(Step(front, w, h), Sand) == {}
    ensures Positions(Step(front, w, h), Eraser) == {}
  {
  }

  // Conservation: every Snow cell has one destination, no two share one.

  /** The indices of s that hold c. */
  function Positions(s: seq<Cell>, c: Cell): set<nat>
  {
    set i: nat | i < |s| && s[i] == c
  }

  /** Where the material at input index i is written. */
  function Destination(front: seq<Cell>, w: nat, i: nat): nat
    requires i < |front|
  {
    if Falls(front, w, i) then i + w else i
  }

  function Destinations(front: seq<Cell>, w: nat, cells: set<nat>): set<nat>
    requires forall i :: i in cells ==> i < |front|
  {
    set i | i in cells :: Destination(front, w, i)
  }

  /** No two Snow cells land in one slot. */
  lemma DestinationInjective(front: seq<Cell>, w: nat, i: nat, j: nat)
    requires i < |front| && j < |front| && front[i] == Snow && front[j] == Snow
    requires Destination(front, w, i) == Destination(front, w, j)
    ensures i == j
  {
  }

  lemma {:induction false} DestinationsCount(front: seq<Cell>, w: nat, cells: set<nat>)
    requires forall i :: i in cells ==> i < |front| && front[i] == Snow
    ensures |Destinations(front, w, cells)| == |cells|
    decreases |cells|
  {
    if cells != {} {
      var x :| x in cells;
      var rest := cells - {x};
      DestinationsCount(front, w, rest);
      assert Destinations(front, w, cells) == Destinations(front, w, rest) + {Destination(front, w, x)};
      forall j | j in rest
        ensures Destination(front, w, j) != Destination(front, w, x)
      {
        if Destination(front, w, j) == Destination(front, w, x) {
          DestinationInjective(front, w, j, x);
        }
      }
    }
  }

  /** The Snow of the output is exactly the destinations of the input's Snow. */
  lemma StepSnowIsDestinations(front: seq<Cell>, w: nat, h: nat)
    requires |front| == w * h
    ensures Positions(Step(front, w, h), Snow) == Destinations(front, w, Positions(front, Snow))
  {
    var next := Step(front, w, h);
    var sources := Positions(front, Snow);
    forall j | j in Positions(next, Snow)
      ensures j in Destinations(front, w, sources)
    {
      if front[j] == Snow {
        assert Destination(front, w, j) == j;
      } else {
        assert Destination(front, w, j - w) == j;
      }
    }
    forall j | j in Destinations(front, w, sources)
      ensures j in Positions(next, Snow)
    {
      var i :| i in sources && Destination(front, w, i) == j;
    }
  }

  lemma {:induction false} CountIsPositions(s: seq<Cell>, c: Cell)
    ensures multiset(s)[c] == |Positions(s, c)|
    decreases |s|
  {
    if s != [] {
      var init, last := s[..|s| - 1], s[|s| - 1];
      CountIsPositions(init, c);
      assert s == init + [last];
      if last == c {
        assert Positions(s, c) == Positions(init, c) + {|s| - 1};
      } else {
        assert Positions(s, c) == Positions(init, c);
      }
    }
  }

  lemma {:induction false} CountsCoverAllCells(s: seq<Cell>)
    ensures multiset(s)[Air] + multiset(s)[Snow] + multiset(s)[Wall]
          + multiset(s)[Sand] + multiset(s)[Eraser] == |s|
    decreases |s|
  {
    if s != [] {
      var init, last := s[..|s| - 1], s[|s| - 1];
      CountsCoverAllCells(init);
      assert s == init + [last];
      assert multiset(s) == multiset(init) + multiset{last};
      match last
      case Air =>
      case Snow =>
      case Wall =>
      case Sand =>
      case Eraser =>
    }
  }

  /** A tick neither creates nor destroys Snow. */
  lemma StepConservesSnow(front: seq<Cell>, w: nat, h: nat)
    requires |front| == w * h
    ensures multiset(Step(front, w, h))[Snow] == multiset(front)[Snow]
  {
    StepSnowIsDestinations(front, w, h);
    DestinationsCount(front, w, Positions(front, Snow));
    CountIsPositions(Step(front, w, h), Snow);
    CountIsPositions(front, Snow);
  }

  /** A tick keeps the number of Wall cells; the Air count grows by exactly
      the Sand and Eraser that were dropped. */
  lemma StepConservesWallsAndCountsAir(front: seq<Cell>, w: nat, h: nat)
    requires |front| == w * h
    ensures multiset(Step(front, w, h))[Wall] == multiset(front)[Wall]
    ensures multiset(Step(front, w, h))[Air]
         == multiset(front)[Air] + multiset(front)[Sand] + multiset(front)[Eraser]
  {
    var next := Step(front, w, h);
    StepKeepsWalls(front, w, h);
    StepDropsSandAndEraser(front, w, h);
    StepConservesSnow(front, w, h);
    CountIsPositions(next, Wall);
    CountIsPositions(front, Wall);
    CountIsPositions(next, Sand);
    CountIsPositions(next, Eraser);
    CountsCoverAllCells(next);
    CountsCoverAllCells(front);
  }

  /** A grid without Sand or Eraser in which no Snow can fall is left as it is. */
  lemma StepFixedPoint(front: seq<Cell>, w: nat, h: nat)
    requires |front| == w * h
    requires forall i :: 0 <= i < |front| ==>
               front[i] != Sand && front[i] != Eraser && !Falls(front, w, i)
    ensures Step(front, w, h) == front
  {
    var next := Step(front, w, h);
    forall i | 0 <= i < |front|
      ensures next[i] == front[i]
    {
      if w <= i {
        assert !Falls(front, w, i - w);
      }
    }
  }

  /** Every input of the test suite's transition cases. The Snow and Wall
      cases come out as the suite expects; on the others the transition
      differs from the suite: a column of Snow opens a gap, and every Sand
      cell disappears, whether falling, resting, stacked or meant to slide. */
  lemma StepScenarios()
    ensures Step([], 0, 0) == []
    ensures Step([Air], 1, 1) == [Air]
    ensures Step([Wall, Air], 1, 2) == [Wall, Air]
    ensures Step([Snow, Air], 1, 2) == [Air, Snow]
    ensures Step([Snow], 1, 1) == [Snow]
    ensures Step([Wall, Wall], 1, 2) == [Wall, Wall]
    ensures Step([Wall, Snow], 1, 2) == [Wall, Snow]
    ensures Step([Snow, Wall], 1, 2) == [Snow, Wall]
    ensures Step([Snow, Snow], 1, 2) == [Snow, Snow]
    ensures Step([Air, Snow, Air, Air, Snow, Air], 3, 2) == [Air, Snow, Air, Air, Snow, Air]
    ensures Step([Snow, Snow, Air], 1, 3) == [Snow, Air, Snow]
    ensures Step([Sand, Air], 1, 2) == [Air, Air]
    ensures Step([Sand], 1, 1) == [Air]
    ensures Step([Sand, Sand, Air], 1, 3) == [Air, Air, Air]
    ensures Step([Wall, Sand], 1, 2) == [Wall, Air]
    ensures Step([Sand, Wall], 1, 2) == [Air, Wall]
    ensures Step([Snow, Sand], 1, 2) == [Snow, Air]
    ensures Step([Sand, Snow], 1, 2) == [Air, Snow]
    ensures Step([Sand, Sand], 1, 2) == [Air, Air]
    ensures Step([Sand, Air, Sand, Air], 2, 2) == [Air, Air, Air, Air]
    ensures Step([Air, Sand, Air, Sand], 2, 2) == [Air, Air, Air, Air]
    ensures Step([Sand, Sand, Sand, Sand, Air, Air], 3, 2) == [Air, Air, Air, Air, Air, Air]
  {
  }
}
