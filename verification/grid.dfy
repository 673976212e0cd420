/** The 4x4 grid: which cell each item occupies and where the cell lies on screen (`layout_grid`). */
module Grid {
  import opened Config
  import opened Numeric
  import opened Items

  /** The window's size in pixels, as the windowing layer reports it. */
  datatype Screen = Screen(width: nat, height: nat)

  /** A grid cell, by column and row. */
  datatype Slot = Slot(col: nat, row: nat)

  /** Item `i` goes to column `i % 4`, row `i // 4`: row-major order. */
  function SlotOf(i: nat): (s: Slot)
    ensures s.col < GRID_COLS
    ensures i == s.row * GRID_COLS + s.col
  {
    Slot(i % GRID_COLS, i / GRID_COLS)
  }

  /** The row-major index of a cell. */
  function IndexOf(s: Slot): nat
  {
    s.row * GRID_COLS + s.col
  }

  /** Every item of a full round lands inside the 4x4 grid. */
  lemma SlotInGrid(i: nat)
    requires i < GRID_COUNT
    ensures SlotOf(i).col < GRID_COLS && SlotOf(i).row < GRID_ROWS
  {
  }

  /** Reading back a cell's index gives the cell: the mapping is a bijection onto the grid. */
  lemma SlotRoundTrip(s: Slot)
    requires s.col < GRID_COLS && s.row < GRID_ROWS
    ensures IndexOf(s) < GRID_COUNT
    ensures SlotOf(IndexOf(s)) == s
  {
  }

  /** Distinct items get distinct cells. */
  lemma SlotInjective(i: nat, j: nat)
    requires i != j
    ensures SlotOf(i) != SlotOf(j)
  {
  }

  /**
   * The float geometry `layout_grid` derives from the window size: cell width and
   * height, and the top-left corner of the grid.
   */
  datatype Geometry = Geometry(cellW: real, cellH: real, startX: real, startY: real)

  /** Cell size and grid origin for a window, with the residual centred inside the margins. */
  function Layout(screen: Screen): (g: Geometry)
    ensures g.startX == EDGE_PADDING as real && g.startY == EDGE_PADDING as real
    ensures g.startX + GRID_COLS as real * g.cellW + (GRID_COLS - 1) as real * PADDING as real
         == screen.width as real - EDGE_PADDING as real
    ensures g.startY + GRID_ROWS as real * g.cellH + (GRID_ROWS - 1) as real * PADDING as real
         == screen.height as real - EDGE_PADDING as real
  {
    var usableW := (screen.width - EDGE_PADDING * 2) as real;
    var usableH := (screen.height - EDGE_PADDING * 2) as real;
    var cellW := (usableW - (PADDING * (GRID_COLS - 1)) as real) / GRID_COLS as real;
    var cellH := (usableH - (PADDING * (GRID_ROWS - 1)) as real) / GRID_ROWS as real;
    var gridW := cellW * GRID_COLS as real + (PADDING * (GRID_COLS - 1)) as real;
    var gridH := cellH * GRID_ROWS as real + (PADDING * (GRID_ROWS - 1)) as real;
    Geometry(cellW, cellH,
             EDGE_PADDING as real + (usableW - gridW) / 2.0,
             EDGE_PADDING as real + (usableH - gridH) / 2.0)
  }

  /** Left and top edges of a cell: `k` steps of cell size plus padding from the grid origin. */
  function CellLeft(g: Geometry, s: Slot): real
  {
    g.startX + Offset(s.col, g.cellW + PADDING as real)
  }

  function CellTop(g: Geometry, s: Slot): real
  {
    g.startY + Offset(s.row, g.cellH + PADDING as real)
  }

  function Offset(k: nat, step: real): real
  {
    k as real * step
  }

  /** Item `i`'s layout: the truncated cell size as its box, the cell centre as its target. */
  function Place(it: Item, g: Geometry, i: nat): (p: Item)
    ensures p == it.(w := p.w, h := p.h, tx := p.tx, ty := p.ty)
    ensures p.tx == CellLeft(g, SlotOf(i)) + g.cellW / 2.0
    ensures p.ty == CellTop(g, SlotOf(i)) + g.cellH / 2.0
    ensures g.cellW >= 0.0 ==> 0 <= p.w && p.w as real <= g.cellW < p.w as real + 1.0
    ensures g.cellH >= 0.0 ==> 0 <= p.h && p.h as real <= g.cellH < p.h as real + 1.0
  {
    var s := SlotOf(i);
    it.(w := Trunc(g.cellW), h := Trunc(g.cellH),
        tx := CellLeft(g, s) + g.cellW / 2.0,
        ty := CellTop(g, s) + g.cellH / 2.0)
  }

  /** `layout_grid`: every item is placed in the cell its position selects; nothing else changes. */
  function LayoutItems(items: seq<Item>, screen: Screen): (r: seq<Item>)
    ensures |r| == |items|
    ensures forall i :: 0 <= i < |r| ==> r[i] == Place(items[i], Layout(screen), i)
  {
    var g := Layout(screen);
    seq(|items|, i requires 0 <= i < |items| => Place(items[i], g, i))
  }

  /** After `layout_grid`, each item's target lies inside its own cell. */
  lemma LayoutTargetInCell(items: seq<Item>, screen: Screen, i: nat)
    requires Layout(screen).cellW >= 0.0 && Layout(screen).cellH >= 0.0
    requires i < |items|
    ensures CellLeft(Layout(screen), SlotOf(i)) <= LayoutItems(items, screen)[i].tx
                                               <= CellLeft(Layout(screen), SlotOf(i)) + Layout(screen).cellW
    ensures CellTop(Layout(screen), SlotOf(i)) <= LayoutItems(items, screen)[i].ty
                                              <= CellTop(Layout(screen), SlotOf(i)) + Layout(screen).cellH
  {
    assert LayoutItems(items, screen)[i] == Place(items[i], Layout(screen), i);
  }

  /**
   * After `layout_grid`, two different items never share a target, as long as the
   * window leaves cells a non-negative size.
   */
  lemma LayoutTargetsDistinct(items: seq<Item>, screen: Screen, i: nat, j: nat)
    requires Layout(screen).cellW >= 0.0 && Layout(screen).cellH >= 0.0
    requires i < |items| && j < |items| && i != j
    ensures LayoutItems(items, screen)[i].tx != LayoutItems(items, screen)[j].tx
         || LayoutItems(items, screen)[i].ty != LayoutItems(items, screen)[j].ty
  {
    var g, r := Layout(screen), LayoutItems(items, screen);
    assert r[i] == Place(items[i], g, i);
    assert r[j] == Place(items[j], g, j);
    SlotInjective(i, j);
    CellsSeparated(g, SlotOf(i), SlotOf(j));
  }

  /**
   * A window 69 to 75 pixels high leaves cells less than one pixel high (of either
   * sign), so `int(cell_h)` gives every item a box height of 0.
   */
  lemma ThinCellsZeroBox(items: seq<Item>, screen: Screen)
    requires 69 <= screen.height <= 75
    ensures forall i :: 0 <= i < |items| ==> LayoutItems(items, screen)[i].h == 0
  {
    var g := Layout(screen);
    assert g.cellH == (screen.height - 72) as real / 4.0;
    assert -1.0 < g.cellH < 1.0;
    assert Trunc(g.cellH) == 0;
  }

  /**
   * Cells of different slots never overlap: they are separated horizontally or
   * vertically by at least the padding, as long as cells have non-negative size.
   */
  lemma CellsSeparated(g: Geometry, a: Slot, b: Slot)
    requires a != b && g.cellW >= 0.0 && g.cellH >= 0.0
    ensures || CellLeft(g, a) + g.cellW + PADDING as real <= CellLeft(g, b)
            || CellLeft(g, b) + g.cellW + PADDING as real <= CellLeft(g, a)
            || CellTop(g, a) + g.cellH + PADDING as real <= CellTop(g, b)
            || CellTop(g, b) + g.cellH + PADDING as real <= CellTop(g, a)
  {
    if a.col < b.col {
      StepApart(a.col, b.col, g.cellW + PADDING as real);
    } else if b.col < a.col {
      StepApart(b.col, a.col, g.cellW + PADDING as real);
    } else if a.row < b.row {
      StepApart(a.row, b.row, g.cellH + PADDING as real);
    } else {
      StepApart(b.row, a.row, g.cellH + PADDING as real);
    }
  }

  lemma StepApart(m: nat, n: nat, step: real)
    requires m < n && step >= 0.0
    ensures Offset(m, step) + step <= Offset(n, step)
  {
    var d := (n - m - 1) as real;
    NonNegRealProduct(d, step);
    assert n as real * step - m as real * step - step == d * step;
  }
}
