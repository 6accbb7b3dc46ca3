/**
 * Pixel geometry of the drawing (`projectX`, `projectY`, `Screen` and the
 * frame backdrop in index.js). Every length is an integer number of
 * hundredths of a pixel: `projectX` and `projectY` round to two decimals, so
 * hundredths hold their results exactly, and the screen sizes (19.5 px per
 * row) are whole hundredths too.
 */
module Geometry {

  /** JavaScript's `Math.round`: the nearest integer, halves rounded up. */
  function Round(v: real): (n: int)
    ensures v - 0.5 < n as real <= v + 0.5
  {
    (v + 0.5).Floor
  }

  /** `projectX`, in hundredths: the column position 10 * x px, rounded to two decimals. */
  function ProjectX(x: real): int
  {
    Round(x * 0.5 * 2000.0)
  }

  /** `projectY`, in hundredths: 20 * y px, rounded to two decimals. */
  function ProjectY(y: real): int
  {
    Round(y * 2000.0)
  }

  /** The y at which `Group` draws the text of terminal row `row`. */
  function TextY(row: int): int
  {
    ProjectY(row as real + 0.8)
  }

  lemma RoundWhole(n: int)
    ensures Round(n as real) == n
  {
  }

  /** Column x of the terminal is drawn 10 * x px from the left: `projectX(x)` is exactly 1000 * x hundredths. */
  lemma ColumnPosition(x: int)
    ensures ProjectX(x as real) == 1000 * x
  {
    assert (x as real) * 0.5 * 2000.0 == (1000 * x) as real;
    RoundWhole(1000 * x);
  }

  /** The baseline of row y is `projectY(y + .8)` = 20 * y + 16 px. */
  lemma Baseline(y: int)
    ensures TextY(y) == 2000 * y + 1600
  {
    assert (y as real + 0.8) * 2000.0 == (2000 * y + 1600) as real;
    RoundWhole(2000 * y + 1600);
  }

  /** Consecutive columns are 10 px apart and consecutive rows 20 px apart. */
  lemma Spacing(x: int, y: int)
    ensures ProjectX((x + 1) as real) - ProjectX(x as real) == 1000
    ensures TextY(y + 1) - TextY(y) == 2000
  {
    ColumnPosition(x);
    ColumnPosition(x + 1);
    Baseline(y);
    Baseline(y + 1);
  }

  /** The sizes `Screen` gives the window for a terminal of the given columns and rows, in hundredths. */
  datatype Window = Window(
    outerWidth: int, outerHeight: int,    // the svg element
    innerWidth: int, innerHeight: int,    // the rounded rect
    innerY: int,                          // the rect's top edge
    contentX: int, contentY: int)         // the nested svg holding the text

  /** The content area is 10 px per column and 19.5 px per row. */
  function ContentWidth(columns: nat): int { 1000 * columns }
  function ContentHeight(rows: nat): int { 1950 * rows }

  function ScreenWindow(columns: nat, rows: nat): Window
  {
    var width, height := ContentWidth(columns), ContentHeight(rows);
    var outerWidth := width + 3200;
    Window(outerWidth, height + 12700, width + 3100, height + 7600, 5000, 1500, 10000)
  }

  /** The black backdrop of an animation frame: 10 px per column, 19 px per row plus 30 px. */
  function BackdropWidth(columns: nat): int { 1000 * columns }
  function BackdropHeight(rows: nat): int { 1900 * rows + 3000 }

  /** The rounded rect lies inside the svg element, 1 px from its right edge and bottom. */
  lemma WindowNests(columns: nat, rows: nat)
    ensures var w := ScreenWindow(columns, rows);
      0 < w.innerWidth < w.outerWidth && 0 <= w.innerY && w.innerY + w.innerHeight < w.outerHeight
  {
  }

  /**
   * Every column's cell, 10 px wide and placed by `projectX`, ends inside the
   * rounded rect.
   */
  lemma ColumnsFit(columns: nat, x: nat)
    requires x < columns
    ensures 0 <= ScreenWindow(columns, 0).contentX + ProjectX(x as real)
    ensures ScreenWindow(columns, 0).contentX + ProjectX(x as real) + 1000 <= ScreenWindow(columns, 0).innerWidth
  {
    ColumnPosition(x);
  }

  /**
   * Rows are laid out 20 px apart while the window grows by 19.5 px per row,
   * so the last baseline of a terminal stays inside the rounded rect exactly
   * when it has at most 60 rows.
   */
  lemma BaselinesFit(rows: nat)
    requires rows > 0
    ensures (forall y: nat :: y < rows ==>
               ScreenWindow(0, rows).contentY + TextY(y) <= ScreenWindow(0, rows).innerY + ScreenWindow(0, rows).innerHeight)
            <==> rows <= 60
  {
    var w := ScreenWindow(0, rows);
    Baseline(rows - 1);
    if rows <= 60 {
      forall y: nat | y < rows ensures w.contentY + TextY(y) <= w.innerY + w.innerHeight {
        Baseline(y);
      }
    }
  }
}
