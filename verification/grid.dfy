/**
 * The grid overlay: origin, cell size, line width, colour and three flags; its snapping
 * arithmetic, the cell origins `draw` strokes, and its attribute (de)serialisation.
 */
module Grids {
  import opened Basics
  import opened Text

  /** The fields of a Grid, as a value. */
  datatype GridState = GridState(
    x: int, y: int, w: int, h: int, lineWidth: int, color: string,
    enabled: bool, snapEnabled: bool, renderAbove: bool)

  function BoolText(b: bool): string { if b then "true" else "false" }

  /** The attributes `toNode` writes. `renderAbove` is not among them. */
  function NodeOf(g: GridState): Attributes
  {
    map["x" := IntToString(g.x), "y" := IntToString(g.y),
        "w" := IntToString(g.w), "h" := IntToString(g.h),
        "lineWidth" := IntToString(g.lineWidth), "color" := g.color,
        "enabled" := BoolText(g.enabled), "snap" := BoolText(g.snapEnabled)]
  }

  /** `node.get(name) == 'true'`: a missing attribute reads as false. */
  function GetFlag(node: Attributes, name: string): bool
  {
    name in node && node[name] == "true"
  }

  /** What `fromNode` leaves in the grid, and whether it ran to the end without raising. */
  datatype Decoding = Decoding(state: GridState, ok: bool)

  /**
   * `fromNode` applied to a grid in state g: fields are assigned one after another, so a bad
   * attribute leaves the fields before it already updated. `snapEnabled` is read from the
   * `enabled` attribute and `renderAbove` is never read.
   */
  function Decoded(g: GridState, node: Attributes): Decoding
  {
    match GetInt(node, "x")
    case None => Decoding(g, false)
    case Some(x) =>
      var g1 := g.(x := x);
      match GetInt(node, "y")
      case None => Decoding(g1, false)
      case Some(y) =>
        var g2 := g1.(y := y);
        match GetInt(node, "w")
        case None => Decoding(g2, false)
        case Some(w) =>
          var g3 := g2.(w := w);
          match GetInt(node, "h")
          case None => Decoding(g3, false)
          case Some(h) =>
            var g4 := g3.(h := h);
            match GetInt(node, "lineWidth")
            case None => Decoding(g4, false)
            case Some(lw) =>
              var g5 := g4.(lineWidth := lw);
              if "color" !in node then Decoding(g5, false)
              else
                var g6 := g5.(color := node["color"]);
                Decoding(g6.(enabled := GetFlag(node, "enabled"),
                             snapEnabled := GetFlag(node, "enabled")), true)
  }

  /**
   * Writing a grid and reading it back into a grid in any state s0 restores position, cell size,
   * line width, colour and `enabled`; `snapEnabled` comes back equal to `enabled`, and
   * `renderAbove` keeps the value it had in s0.
   */
  lemma RoundTrip(s0: GridState, g: GridState)
    ensures Decoded(s0, NodeOf(g)) ==
      Decoding(g.(snapEnabled := g.enabled, renderAbove := s0.renderAbove), true)
  {
    ParseIntToString(g.x);
    ParseIntToString(g.y);
    ParseIntToString(g.w);
    ParseIntToString(g.h);
    ParseIntToString(g.lineWidth);
  }

  /** The saved `snap` flag is lost: a grid with snapping on but the grid off reads back unsnapped. */
  lemma SnapFlagNotRestored(s0: GridState, g: GridState)
    requires g.snapEnabled && !g.enabled
    ensures Decoded(s0, NodeOf(g)).state.snapEnabled == false
  {
    RoundTrip(s0, g);
  }

  /** `int(v / c) * c` for a positive cell size c: v rounded toward zero to a multiple of c. */
  function SnapCoord(v: int, c: int): int
    requires c > 0
  {
    TruncDiv(v, c) * c
  }

  lemma SnapCoordFacts(v: int, c: int)
    requires c > 0
    ensures SnapCoord(v, c) % c == 0
    ensures v >= 0 ==> 0 <= SnapCoord(v, c) <= v && v - SnapCoord(v, c) < c
    ensures v < 0 ==> v <= SnapCoord(v, c) <= 0 && SnapCoord(v, c) - v < c
  {
    if v >= 0 {
      SnapNonneg(v, c);
    } else {
      SnapNonneg(-v, c);
      var q := (-v) / c;
      assert SnapCoord(v, c) == (-q) * c;
      assert (-q) * c == -(q * c);
      MulDivExact(-q, c);
    }
  }

  lemma SnapNonneg(v: int, c: int)
    requires c > 0 && v >= 0
    ensures SnapCoord(v, c) == (v / c) * c
    ensures 0 <= (v / c) * c <= v && v - (v / c) * c < c
    ensures ((v / c) * c) % c == 0
  {
    var q := v / c;
    assert v == q * c + v % c;
    MulNonneg(q, c);
    MulDivExact(q, c);
  }

  /** Snapping a point that is already on a grid line leaves it where it is. */
  lemma SnapIdempotent(v: int, c: int)
    requires c > 0
    ensures SnapCoord(SnapCoord(v, c), c) == SnapCoord(v, c)
  {
    SnapCoordFacts(v, c);
    var k := TruncDiv(v, c);
    var s := k * c;
    if s >= 0 {
      MulDivExact(k, c);
    } else {
      assert -s == (-k) * c;
      MulDivExact(-k, c);
    }
  }

  /** Start offset loop of `draw`: step the origin back by whole cells until it is not positive. */
  function StartOf(origin: int, cell: int): int
    requires cell > 0
    decreases origin
  {
    if origin <= 0 then origin else StartOf(origin - cell, cell)
  }

  /**
   * The start offset is not positive, lies on the grid (same remainder modulo the cell size),
   * is less than one cell to the left of zero when the origin was positive, and is the origin
   * itself otherwise.
   */
  lemma {:induction false} StartOfFacts(origin: int, cell: int)
    requires cell > 0
    ensures StartOf(origin, cell) <= 0
    ensures StartOf(origin, cell) % cell == origin % cell
    ensures origin > 0 ==> StartOf(origin, cell) > -cell
    ensures origin <= 0 ==> StartOf(origin, cell) == origin
    decreases origin
  {
    if origin > 0 {
      StartOfFacts(origin - cell, cell);
      ModSubCell(origin, cell);
    }
  }

  /** Number of positions start, start + step, ... that lie before limit. */
  function Steps(start: int, step: int, limit: int): nat
    requires step > 0
    decreases limit - start
  {
    if start >= limit then 0 else 1 + Steps(start + step, step, limit)
  }

  /** Cells stroked in the column at x, from row y downwards, while the row is above viewH. */
  function Column(x: int, y: int, h: int, viewH: int): seq<(int, int)>
    requires h > 0
    decreases viewH - y
  {
    if y >= viewH then [] else [(x, y)] + Column(x, y + h, h, viewH)
  }

  /** Cells stroked column by column from column x, each column restarting at row startY. */
  function Tiles(x: int, startY: int, w: int, h: int, viewW: int, viewH: int): seq<(int, int)>
    requires w > 0 && h > 0
    decreases viewW - x
  {
    if x >= viewW then [] else Column(x, startY, h, viewH) + Tiles(x + w, startY, w, h, viewW, viewH)
  }

  /** Row j of a column is the cell at y + j*h, for every row before viewH and no other. */
  lemma {:induction false} ColumnShape(x: int, y: int, h: int, viewH: int)
    requires h > 0
    ensures |Column(x, y, h, viewH)| == Steps(y, h, viewH)
    ensures forall j :: 0 <= j < Steps(y, h, viewH) ==>
      Column(x, y, h, viewH)[j] == (x, y + j * h) && y + j * h < viewH
    ensures y + Steps(y, h, viewH) * h >= viewH
    decreases viewH - y
  {
    if y < viewH {
      ColumnShape(x, y + h, h, viewH);
      var col := Column(x, y, h, viewH);
      var rest := Column(x, y + h, h, viewH);
      var n := Steps(y, h, viewH);
      forall j | 0 <= j < n
        ensures col[j] == (x, y + j * h) && y + j * h < viewH
      {
        if j > 0 {
          assert col[j] == rest[j - 1];
          NextMultiple(y, h, j - 1);
        }
      }
      NextMultiple(y, h, n - 1);
    }
  }

  lemma NextMultiple(a: int, c: int, k: int)
    ensures a + c + k * c == a + (k + 1) * c
  {
  }

  /** Joins a sequence of columns into one sequence of cells, in order. */
  function Concat<T>(ss: seq<seq<T>>): seq<T>
  {
    if |ss| == 0 then [] else ss[0] + Concat(ss[1..])
  }

  /** The columns `draw` visits from x: one for every x + i*w before viewW. */
  function ColumnsFrom(x: int, startY: int, w: int, h: int, viewW: int, viewH: int): seq<seq<(int, int)>>
    requires w > 0 && h > 0
  {
    seq(Steps(x, w, viewW), i => Column(x + i * w, startY, h, viewH))
  }

  /** The cells come column by column, each column restarting at startY. */
  lemma {:induction false} TilesByColumn(x: int, startY: int, w: int, h: int, viewW: int, viewH: int)
    requires w > 0 && h > 0
    ensures Tiles(x, startY, w, h, viewW, viewH) == Concat(ColumnsFrom(x, startY, w, h, viewW, viewH))
    decreases viewW - x
  {
    if x < viewW {
      TilesByColumn(x + w, startY, w, h, viewW, viewH);
      var cols := ColumnsFrom(x, startY, w, h, viewW, viewH);
      var rest := ColumnsFrom(x + w, startY, w, h, viewW, viewH);
      forall i | 0 < i < |cols|
        ensures cols[i] == rest[i - 1]
      {
        NextMultiple(x, w, i - 1);
      }
      assert cols[1..] == rest;
    }
  }

  /** Column i of `draw` is at x + i*w: before viewW for every counted column, and the next one is not. */
  lemma {:induction false} StepsBound(x: int, w: int, viewW: int)
    requires w > 0
    ensures forall i :: 0 <= i < Steps(x, w, viewW) ==> x + i * w < viewW
    ensures x + Steps(x, w, viewW) * w >= viewW
    decreases viewW - x
  {
    if x < viewW {
      StepsBound(x + w, w, viewW);
      var n := Steps(x, w, viewW);
      forall i | 0 < i < n
        ensures x + i * w < viewW
      {
        NextMultiple(x, w, i - 1);
      }
      NextMultiple(x, w, n - 1);
    }
  }

  /** Snapping the snapped point of a grid again returns it unchanged. */
  lemma SnapTwice(g: Grid, px: int, py: int, scale: int)
    requires g.w * scale > 0 && g.h * scale > 0
    ensures g.Snap(g.Snap(px, py, scale).0, g.Snap(px, py, scale).1, scale) == g.Snap(px, py, scale)
  {
    SnapIdempotent(px, g.w * scale);
    SnapIdempotent(py, g.h * scale);
  }

  /** Start offset loop of `draw`, as the source runs it. */
  method StartOffset(origin: int, cell: int) returns (start: int)
    requires cell > 0
    ensures start == StartOf(origin, cell)
  {
    start := origin;
    while start > 0
      invariant StartOf(start, cell) == StartOf(origin, cell)
      decreases start
    {
      start := start - cell;
    }
  }

  class Grid {
    var x: int
    var y: int
    var w: int
    var h: int
    var lineWidth: int
    var color: string
    var enabled: bool
    var snapEnabled: bool
    var renderAbove: bool

    function State(): GridState
      reads this
    {
      GridState(x, y, w, h, lineWidth, color, enabled, snapEnabled, renderAbove)
    }

    /** A new grid is off, does not snap, renders above the strokes. */
    constructor (w: int, h: int, x: int := 0, y: int := 0, lineWidth: int := 1, color: string := "black")
      ensures State() == GridState(x, y, w, h, lineWidth, color, false, false, true)
    {
      this.x := x;
      this.y := y;
      this.w := w;
      this.h := h;
      this.lineWidth := lineWidth;
      this.color := color;
      this.enabled := false;
      this.snapEnabled := false;
      this.renderAbove := true;
    }

    function ToNode(): Attributes
      reads this
    {
      NodeOf(State())
    }

    /** Reads the attributes back; ok is false where the source raises part-way. */
    method FromNode(node: Attributes) returns (ok: bool)
      modifies this
      ensures Decoded(old(State()), node) == Decoding(State(), ok)
    {
      ok := false;
      var vx := GetInt(node, "x");
      if vx.None? { return; }
      x := vx.value;
      var vy := GetInt(node, "y");
      if vy.None? { return; }
      y := vy.value;
      var vw := GetInt(node, "w");
      if vw.None? { return; }
      w := vw.value;
      var vh := GetInt(node, "h");
      if vh.None? { return; }
      h := vh.value;
      var vl := GetInt(node, "lineWidth");
      if vl.None? { return; }
      lineWidth := vl.value;
      if "color" !in node { return; }
      color := node["color"];
      enabled := GetFlag(node, "enabled");
      snapEnabled := GetFlag(node, "enabled");
      ok := true;
    }

    /**
     * `snap(px, py, scale)` for an integer scale: each coordinate moves toward zero onto a
     * multiple of the scaled cell, by less than one cell, and snapping again changes nothing.
     */
    function Snap(px: int, py: int, scale: int): (r: (int, int))
      reads this
      requires w * scale > 0 && h * scale > 0
      ensures r.0 % (w * scale) == 0 && r.1 % (h * scale) == 0
      ensures px >= 0 ==> 0 <= r.0 <= px && px - r.0 < w * scale
      ensures px < 0 ==> px <= r.0 <= 0 && r.0 - px < w * scale
      ensures py >= 0 ==> 0 <= r.1 <= py && py - r.1 < h * scale
      ensures py < 0 ==> py <= r.1 <= 0 && r.1 - py < h * scale
    {
      SnapCoordFacts(px, w * scale);
      SnapCoordFacts(py, h * scale);
      SnapIdempotent(px, w * scale);
      SnapIdempotent(py, h * scale);
      (SnapCoord(px, w * scale), SnapCoord(py, h * scale))
    }

    /**
     * The cell origins `draw` strokes over a view of viewW x viewH: the start offsets come from
     * the origin stepped back by whole cells, then columns left to right, rows top to bottom.
     */
    method Draw(viewW: int, viewH: int) returns (cells: seq<(int, int)>)
      requires w > 0 && h > 0
      ensures cells == Tiles(StartOf(x, w), StartOf(y, h), w, h, viewW, viewH)
    {
      var startX := StartOffset(x, w);
      var startY := StartOffset(y, h);
      var cx := startX;
      cells := [];
      while cx < viewW
        invariant cells + Tiles(cx, startY, w, h, viewW, viewH) == Tiles(startX, startY, w, h, viewW, viewH)
        decreases viewW - cx
      {
        cells := DrawColumn(cells, cx, startY, viewH);
        cx := cx + w;
      }
    }

    /** The inner loop of `draw`: one column at cx, rows from startY while above viewH. */
    method DrawColumn(cells: seq<(int, int)>, cx: int, startY: int, viewH: int) returns (out: seq<(int, int)>)
      requires h > 0
      ensures out == cells + Column(cx, startY, h, viewH)
    {
      out := cells;
      var cy := startY;
      while cy < viewH
        invariant out + Column(cx, cy, h, viewH) == cells + Column(cx, startY, h, viewH)
        decreases viewH - cy
      {
        AppendRegroup(out, (cx, cy), Column(cx, cy + h, h, viewH));
        out := out + [(cx, cy)];
        cy := cy + h;
      }
    }
  }
}
