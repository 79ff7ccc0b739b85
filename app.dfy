/// The engine-facing parts of the application loop (main.cpp): the colour of
/// each material, writing a world into an RGBA pixel buffer, clearing a world
/// and stamping the square brush.
module App {
  import opened Cells
  import Simulation

  newtype byte = n: int | 0 <= n < 256

  datatype Color = Color(r: byte, g: byte, b: byte, a: byte)

  /** A world the colour table can draw: the toolbox never places Eraser. */
  predicate Drawable(cells: seq<Cell>)
  {
    forall i :: 0 <= i < |cells| ==> cells[i] != Eraser
  }

  /** The material a colour of the palette stands for. */
  function MaterialOf(color: Color): Option<Cell>
  {
    if color == Color(0, 0, 0, 255) then Some(Air)
    else if color == Color(255, 255, 255, 255) then Some(Snow)
    else if color == Color(128, 128, 128, 255) then Some(Wall)
    else if color == Color(180, 110, 0, 255) then Some(Sand)
    else None
  }

  /** The colour a material is drawn in: opaque, and telling the materials apart. */
  function RenderCell(c: Cell): (color: Color)
    requires c != Eraser
    ensures color.a == 255
    ensures MaterialOf(color) == Some(c)
  {
    match c
    case Air => Color(0, 0, 0, 255)
    case Snow => Color(255, 255, 255, 255)
    case Wall => Color(128, 128, 128, 255)
    case Sand => Color(180, 110, 0, 255)
  }

  /** Channel k of a colour, in the buffer's R, G, B, A order. */
  function Channel(color: Color, k: nat): byte
    requires k < 4
  {
    if k == 0 then color.r else if k == 1 then color.g else if k == 2 then color.b else color.a
  }

  /** The pixel buffer of a world: four bytes per cell, in cell order. */
  function RenderedPixels(cells: seq<Cell>): (pixels: seq<byte>)
    requires Drawable(cells)
    ensures |pixels| == 4 * |cells|
  {
    seq(4 * |cells|, j requires 0 <= j < 4 * |cells| => Channel(RenderCell(cells[j / 4]), j % 4))
  }

  /** Bytes 4i .. 4i+3 of the buffer are the RGBA of cell i. */
  lemma RenderedPixelsAt(cells: seq<Cell>, i: nat)
    requires Drawable(cells) && i < |cells|
    ensures RenderedPixels(cells)[4 * i .. 4 * i + 4]
         == [RenderCell(cells[i]).r, RenderCell(cells[i]).g, RenderCell(cells[i]).b, RenderCell(cells[i]).a]
  {
    var pixels := RenderedPixels(cells);
    var color := RenderCell(cells[i]);
    assert pixels[4 * i] == color.r;
    assert pixels[4 * i + 1] == color.g;
    assert pixels[4 * i + 2] == color.b;
    assert pixels[4 * i + 3] == color.a;
  }

  /** Reads a pixel buffer back into materials, four bytes at a time. */
  function DecodePixels(pixels: seq<byte>): Option<seq<Cell>>
    decreases |pixels|
  {
    if |pixels| == 0 then Some([])
    else if |pixels| < 4 then None
    else
      match (MaterialOf(Color(pixels[0], pixels[1], pixels[2], pixels[3])), DecodePixels(pixels[4..]))
      case (Some(c), Some(rest)) => Some([c] + rest)
      case _ => None
  }

  /** A rendered world can be read back exactly: no two materials share a
      colour and no cell is skipped or repeated. */
  lemma {:induction false} DecodeRenderedPixels(cells: seq<Cell>)
    requires Drawable(cells)
    ensures DecodePixels(RenderedPixels(cells)) == Some(cells)
    decreases |cells|
  {
    if cells != [] {
      var pixels := RenderedPixels(cells);
      var tail := cells[1..];
      assert RenderedPixels(tail) == pixels[4..] by {
        forall j | 0 <= j < 4 * |tail|
          ensures RenderedPixels(tail)[j] == pixels[4..][j]
        {
          assert (j + 4) / 4 == j / 4 + 1 && (j + 4) % 4 == j % 4;
        }
      }
      DecodeRenderedPixels(tail);
      RenderedPixelsAt(cells, 0);
      assert Color(pixels[0], pixels[1], pixels[2], pixels[3]) == RenderCell(cells[0]);
      assert cells == [cells[0]] + tail;
    }
  }

  /** Writes every cell's colour into the image's pixel buffer, whose
      dimensions equal the world's (four bytes per pixel). */
  method RenderWorld(into: array<byte>, front: seq<Cell>, worldSize: Point)
    requires 0 <= worldSize.x && 0 <= worldSize.y
    requires |front| == worldSize.x * worldSize.y
    requires into.Length == 4 * (worldSize.x * worldSize.y)
    requires Drawable(front)
    modifies into
    ensures into[..] == RenderedPixels(front)
  {
    var numberOfCells := worldSize.x * worldSize.y;
    for i := 0 to numberOfCells
      invariant forall j :: 0 <= j < 4 * i ==> into[j] == RenderedPixels(front)[j]
    {
      var cellColor := RenderCell(front[i]);
      into[i * 4] := cellColor.r;
      into[i * 4 + 1] := cellColor.g;
      into[i * 4 + 2] := cellColor.b;
      into[i * 4 + 3] := cellColor.a;
    }
    assert into[..] == RenderedPixels(front) by {
      forall j | 0 <= j < into.Length
        ensures into[..][j] == RenderedPixels(front)[j]
      {
      }
    }
  }

  /** A world of n cells, all Air. */
  function AllAir(n: nat): seq<Cell>
  {
    seq(n, _ => Air)
  }

  /** The New menu item: every cell becomes Air, and the world keeps its size. */
  method ClearWorld(world: array<Cell>)
    modifies world
    ensures world[..] == AllAir(world.Length)
  {
    forall i | 0 <= i < world.Length {
      world[i] := Air;
    }
  }

  /** A cleared world is a fixed point of the transition and draws all black. */
  lemma ClearedWorldIsStill(w: nat, h: nat)
    ensures Simulation.Step(AllAir(w * h), w, h) == AllAir(w * h)
    ensures forall i :: 0 <= i < 4 * (w * h) ==>
              RenderedPixels(AllAir(w * h))[i] == (if i % 4 == 3 then 255 else 0)
  {
    Simulation.StepFixedPoint(AllAir(w * h), w, h);
  }

  // The brush.

  /** The brush square of half-width brushSize around center: the half-open
      ranges [cx - b, cx + b) by [cy - b, cy + b). */
  predicate InSquare(p: Point, center: Point, brushSize: int)
  {
    && center.x - brushSize <= p.x < center.x + brushSize
    && center.y - brushSize <= p.y < center.y + brushSize
  }

  /** The world after one stamp of tool: the cells whose coordinate lies in
      the brush square hold tool, all others are as before. */
  function Stamped(cells: seq<Cell>, worldSize: Point, center: Point, brushSize: int, tool: Cell): (r: seq<Cell>)
    requires 0 <= worldSize.x && 0 <= worldSize.y && |cells| == worldSize.x * worldSize.y
    ensures |r| == |cells|
  {
    seq(|cells|, i requires 0 <= i < |cells| =>
      if InSquare(PointOf(i, worldSize.x), center, brushSize) then tool else cells[i])
  }

  /** Every in-bounds point of the square is painted with the tool. */
  lemma StampPaintsSquare(cells: seq<Cell>, worldSize: Point, center: Point, brushSize: int, tool: Cell, p: Point)
    requires 0 <= worldSize.x && 0 <= worldSize.y && |cells| == worldSize.x * worldSize.y
    requires InSquare(p, center, brushSize) && IndexFromCoordinates(p, worldSize).Some?
    ensures Stamped(cells, worldSize, center, brushSize, tool)[IndexFromCoordinates(p, worldSize).value] == tool
  {
    IndexFromCoordinatesInverse(p, worldSize);
  }

  /** Nothing else changes: a cell differs after the stamp only if some point
      of the square passes the gate onto exactly that index, so points off
      the grid are skipped rather than wrapped into another row. */
  lemma StampTouchesOnlySquare(cells: seq<Cell>, worldSize: Point, center: Point, brushSize: int, tool: Cell, i: nat)
    requires 0 <= worldSize.x && 0 <= worldSize.y && |cells| == worldSize.x * worldSize.y
    requires i < |cells| && Stamped(cells, worldSize, center, brushSize, tool)[i] != cells[i]
    ensures exists p :: InSquare(p, center, brushSize) && IndexFromCoordinates(p, worldSize) == Some(i)
  {
    PointOfInBounds(i, worldSize);
  }

  /** Stamping twice with the same centre, size and tool is stamping once. */
  lemma StampIdempotent(cells: seq<Cell>, worldSize: Point, center: Point, brushSize: int, tool: Cell)
    requires 0 <= worldSize.x && 0 <= worldSize.y && |cells| == worldSize.x * worldSize.y
    ensures Stamped(Stamped(cells, worldSize, center, brushSize, tool), worldSize, center, brushSize, tool)
         == Stamped(cells, worldSize, center, brushSize, tool)
  {
  }

  /** Cells of the brush rows already done, and of the current row up to column x. */
  ghost predicate Painted(p: Point, center: Point, brushSize: int, y: int, x: int)
  {
    || (center.x - brushSize <= p.x < center.x + brushSize && center.y - brushSize <= p.y < center.y + y)
    || (center.x - brushSize <= p.x < center.x + x && p.y == center.y + y)
  }

  /** The brush loop's progress: the painted part holds tool, the rest is as before. */
  ghost predicate PaintedSoFar(cells: seq<Cell>, before: seq<Cell>, worldSize: Point,
                               center: Point, brushSize: int, tool: Cell, y: int, x: int)
    requires 0 <= worldSize.x && 0 <= worldSize.y && |before| == worldSize.x * worldSize.y
  {
    && |cells| == |before|
    && forall i :: 0 <= i < |cells| ==>
         cells[i] == if Painted(PointOf(i, worldSize.x), center, brushSize, y, x) then tool else before[i]
  }

  /** One iteration of the inner brush loop paints the point (cx + x, cy + y)
      if, and only if, it passes the gate. */
  lemma PaintPoint(cells: seq<Cell>, before: seq<Cell>, worldSize: Point,
                   center: Point, brushSize: int, tool: Cell, y: int, x: int)
    requires 0 <= worldSize.x && 0 <= worldSize.y && |before| == worldSize.x * worldSize.y
    requires -brushSize <= x
    requires PaintedSoFar(cells, before, worldSize, center, brushSize, tool, y, x)
    ensures var index := IndexFromCoordinates(Point(center.x + x, center.y + y), worldSize);
            PaintedSoFar(if index.Some? then cells[index.value := tool] else cells,
                         before, worldSize, center, brushSize, tool, y, x + 1)
  {
    var target := Point(center.x + x, center.y + y);
    var index := IndexFromCoordinates(target, worldSize);
    if index.Some? {
      IndexFromCoordinatesInverse(target, worldSize);
    }
    forall i | 0 <= i < |cells|
      ensures PointOf(i, worldSize.x) == target <==> index == Some(i)
    {
      PointOfInBounds(i, worldSize);
    }
  }

  /** A finished brush row extends the block of finished rows. */
  lemma FinishRow(cells: seq<Cell>, before: seq<Cell>, worldSize: Point,
                  center: Point, brushSize: int, tool: Cell, y: int)
    requires 0 <= worldSize.x && 0 <= worldSize.y && |before| == worldSize.x * worldSize.y
    requires -brushSize <= y
    requires PaintedSoFar(cells, before, worldSize, center, brushSize, tool, y, brushSize)
    ensures PaintedSoFar(cells, before, worldSize, center, brushSize, tool, y + 1, -brushSize)
  {
  }

  /** The brush loop run while the left mouse button is down: every point of
      the square that passes the gate is overwritten with the current tool. */
  method StampBrush(world: array<Cell>, worldSize: Point, center: Point, brushSize: int, tool: Cell)
    requires 0 <= worldSize.x && 0 <= worldSize.y && world.Length == worldSize.x * worldSize.y
    modifies world
    ensures world[..] == Stamped(old(world[..]), worldSize, center, brushSize, tool)
  {
    ghost var before := world[..];
    var y := -brushSize;
    while y < brushSize
      invariant -brushSize <= y && (brushSize < 0 ==> y == -brushSize)
      invariant brushSize >= 0 ==> y <= brushSize
      invariant PaintedSoFar(world[..], before, worldSize, center, brushSize, tool, y, -brushSize)
    {
      var x := -brushSize;
      while x < brushSize
        invariant -brushSize <= x <= brushSize
        invariant PaintedSoFar(world[..], before, worldSize, center, brushSize, tool, y, x)
      {
        PaintPoint(world[..], before, worldSize, center, brushSize, tool, y, x);
        var index := IndexFromCoordinates(Point(center.x + x, center.y + y), worldSize);
        if index.Some? {
          world[index.value] := tool;
        }
        x := x + 1;
      }
      FinishRow(world[..], before, worldSize, center, brushSize, tool, y);
      y := y + 1;
    }
    assert world[..] == Stamped(before, worldSize, center, brushSize, tool);
  }

  /** A stamp near the corner of a 2 by 2 world reaches only the one cell of
      the square that lies on the grid. */
  lemma StampScenario()
    ensures Stamped([Air, Air, Air, Air], Point(2, 2), Point(0, 0), 1, Sand) == [Sand, Air, Air, Air]
  {
  }
}
