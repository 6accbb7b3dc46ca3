/**
 * Cell extraction (`matrix` in index.js): the terminal buffer is walked row
 * by row and column by column; cells without a glyph are skipped, a space is
 * kept only between two present non-space glyphs, and every kept cell gets
 * its decoded attributes and resolved colours.
 */
module Extraction {
  import Attributes

  /** One buffer cell as the terminal engine reports it: the packed attribute word and the glyph. */
  datatype RawCell = RawCell(attr: int, glyph: string)

  /** The terminal's display buffer: rows of cells, each row with its own column count. */
  type Grid = seq<seq<RawCell>>

  /** The props of an extracted cell. */
  datatype Props = Props(x: nat, y: nat, fg: string, bg: string, inverse: bool, underline: bool, bold: bool)

  /** An extracted cell: its props and its glyph. */
  datatype Cell = Cell(props: Props, children: string)

  /** The glyph at column x of a row; a column outside the row has no glyph. */
  function GlyphAt(row: seq<RawCell>, x: int): string
  {
    if 0 <= x < |row| then row[x].glyph else ""
  }

  /** Whether the cell at column x is emitted. */
  predicate Kept(row: seq<RawCell>, x: nat)
    requires x < |row|
  {
    var glyph := row[x].glyph;
    var pre, post := GlyphAt(row, x - 1), GlyphAt(row, x + 1);
    glyph != "" && !(glyph == " " && (pre == "" || pre == " " || post == "" || post == " "))
  }

  /** The extracted cell for column x of row y, colours resolved through the palette. */
  function CellAt(row: seq<RawCell>, y: nat, x: nat): (c: Cell)
    requires x < |row|
    ensures c.props.x == x && c.props.y == y && c.children == row[x].glyph
  {
    var a := Attributes.Decode(row[x].attr);
    Cell(Props(x, y, Attributes.Resolve(a.fg, "#fff"), Attributes.Resolve(a.bg, "#000"),
               a.inverse, a.underline, a.bold),
         row[x].glyph)
  }

  /** The cells emitted from the first n columns of row y. */
  function ExtractPrefix(row: seq<RawCell>, y: nat, n: nat): seq<Cell>
    requires n <= |row|
  {
    if n == 0 then []
    else ExtractPrefix(row, y, n - 1) + (if Kept(row, n - 1) then [CellAt(row, y, n - 1)] else [])
  }

  function ExtractRow(row: seq<RawCell>, y: nat): seq<Cell>
  {
    ExtractPrefix(row, y, |row|)
  }

  /** `matrix`: the nested loops that push each kept cell onto its row. */
  method Matrix(grid: Grid) returns (rows: seq<seq<Cell>>)
    ensures |rows| == |grid|
    ensures forall y :: 0 <= y < |grid| ==> rows[y] == ExtractRow(grid[y], y)
  {
    rows := [];
    for y := 0 to |grid|
      invariant |rows| == y
      invariant forall y' :: 0 <= y' < y ==> rows[y'] == ExtractRow(grid[y'], y')
    {
      var row := grid[y];
      var cells := [];
      for x := 0 to |row|
        invariant cells == ExtractPrefix(row, y, x)
      {
        if row[x].glyph == "" {
          continue;
        }
        if row[x].glyph == " " {
          var pre, post := GlyphAt(row, x - 1), GlyphAt(row, x + 1);
          if pre == "" || pre == " " || post == "" || post == " " {
            continue;
          }
        }
        cells := cells + [CellAt(row, y, x)];
      }
      rows := rows + [cells];
    }
  }

  /** Every cell of a prefix is the cell of a kept column below n. */
  lemma {:induction false} PrefixCellsKept(row: seq<RawCell>, y: nat, n: nat)
    requires n <= |row|
    ensures forall i :: 0 <= i < |ExtractPrefix(row, y, n)| ==>
      && ExtractPrefix(row, y, n)[i].props.x < n
      && Kept(row, ExtractPrefix(row, y, n)[i].props.x)
      && ExtractPrefix(row, y, n)[i] == CellAt(row, y, ExtractPrefix(row, y, n)[i].props.x)
  {
    if n > 0 {
      PrefixCellsKept(row, y, n - 1);
      var prev := ExtractPrefix(row, y, n - 1);
      assert ExtractPrefix(row, y, n) == prev + (if Kept(row, n - 1) then [CellAt(row, y, n - 1)] else []);
    }
  }

  /** The cells of a prefix are in increasing column order. */
  lemma {:induction false} PrefixCellsOrdered(row: seq<RawCell>, y: nat, n: nat)
    requires n <= |row|
    ensures forall i, j :: 0 <= i < j < |ExtractPrefix(row, y, n)| ==>
      ExtractPrefix(row, y, n)[i].props.x < ExtractPrefix(row, y, n)[j].props.x
  {
    if n > 0 {
      PrefixCellsOrdered(row, y, n - 1);
      PrefixCellsKept(row, y, n - 1);
      var prev, cur := ExtractPrefix(row, y, n - 1), ExtractPrefix(row, y, n);
      assert cur == prev + (if Kept(row, n - 1) then [CellAt(row, y, n - 1)] else []);
      forall i, j | 0 <= i < j < |cur| ensures cur[i].props.x < cur[j].props.x {
        assert cur[i] == prev[i];
        if j == |prev| {
          assert cur[j] == CellAt(row, y, n - 1);
        } else {
          assert cur[j] == prev[j];
        }
      }
    }
  }

  /** Every kept column below n has its cell in the prefix. */
  lemma {:induction false} PrefixCellsComplete(row: seq<RawCell>, y: nat, n: nat)
    requires n <= |row|
    ensures forall x :: 0 <= x < n && Kept(row, x) ==>
      exists i :: 0 <= i < |ExtractPrefix(row, y, n)| && ExtractPrefix(row, y, n)[i].props.x == x
  {
    if n > 0 {
      PrefixCellsComplete(row, y, n - 1);
      var prev := ExtractPrefix(row, y, n - 1);
      assert ExtractPrefix(row, y, n) == prev + (if Kept(row, n - 1) then [CellAt(row, y, n - 1)] else []);
      forall x | 0 <= x < n && Kept(row, x)
        ensures exists i :: 0 <= i < |ExtractPrefix(row, y, n)| && ExtractPrefix(row, y, n)[i].props.x == x
      {
        if x < n - 1 {
          var i :| 0 <= i < |prev| && prev[i].props.x == x;
          assert ExtractPrefix(row, y, n)[i].props.x == x;
        } else {
          assert ExtractPrefix(row, y, n)[|prev|].props.x == x;
        }
      }
    }
  }

  /** The three facts about a whole row. */
  lemma PrefixCells(row: seq<RawCell>, y: nat, n: nat)
    requires n <= |row|
    ensures forall i :: 0 <= i < |ExtractPrefix(row, y, n)| ==>
      && ExtractPrefix(row, y, n)[i].props.x < n
      && Kept(row, ExtractPrefix(row, y, n)[i].props.x)
      && ExtractPrefix(row, y, n)[i] == CellAt(row, y, ExtractPrefix(row, y, n)[i].props.x)
    ensures forall i, j :: 0 <= i < j < |ExtractPrefix(row, y, n)| ==>
      ExtractPrefix(row, y, n)[i].props.x < ExtractPrefix(row, y, n)[j].props.x
    ensures forall x :: 0 <= x < n && Kept(row, x) ==>
      exists i :: 0 <= i < |ExtractPrefix(row, y, n)| && ExtractPrefix(row, y, n)[i].props.x == x
  {
    PrefixCellsKept(row, y, n);
    PrefixCellsOrdered(row, y, n);
    PrefixCellsComplete(row, y, n);
  }

  /**
   * The extraction rules for one row: a column is emitted exactly when its
   * glyph is present and it is not a space lacking a present non-space glyph
   * on either side; emitted cells are that column's decoded cell, in column
   * order.
   */
  lemma ExtractionRules(row: seq<RawCell>, y: nat)
    ensures forall x :: 0 <= x < |row| ==>
      ((exists i :: 0 <= i < |ExtractRow(row, y)| && ExtractRow(row, y)[i].props.x == x) <==>
       (row[x].glyph != "" &&
        (row[x].glyph == " " ==>
           && GlyphAt(row, x - 1) != "" && GlyphAt(row, x - 1) != " "
           && GlyphAt(row, x + 1) != "" && GlyphAt(row, x + 1) != " ")))
    ensures forall i :: 0 <= i < |ExtractRow(row, y)| ==>
      ExtractRow(row, y)[i].props.x < |row| && ExtractRow(row, y)[i] == CellAt(row, y, ExtractRow(row, y)[i].props.x)
    ensures forall i, j :: 0 <= i < j < |ExtractRow(row, y)| ==>
      ExtractRow(row, y)[i].props.x < ExtractRow(row, y)[j].props.x
  {
    PrefixCells(row, y, |row|);
    assert ExtractRow(row, y) == ExtractPrefix(row, y, |row|);
    forall x | 0 <= x < |row|
      ensures (exists i :: 0 <= i < |ExtractRow(row, y)| && ExtractRow(row, y)[i].props.x == x) <==>
        (row[x].glyph != "" &&
         (row[x].glyph == " " ==>
            && GlyphAt(row, x - 1) != "" && GlyphAt(row, x - 1) != " "
            && GlyphAt(row, x + 1) != "" && GlyphAt(row, x + 1) != " "))
    {
      if i :| 0 <= i < |ExtractRow(row, y)| && ExtractRow(row, y)[i].props.x == x {
        assert Kept(row, ExtractRow(row, y)[i].props.x);
      } else {
        assert !Kept(row, x);
      }
    }
  }

  /** The glyph of every emitted cell is present. */
  lemma EmittedGlyphsPresent(row: seq<RawCell>, y: nat)
    ensures forall c :: c in ExtractRow(row, y) ==> c.children != ""
  {
    PrefixCells(row, y, |row|);
    assert ExtractRow(row, y) == ExtractPrefix(row, y, |row|);
    var out := ExtractRow(row, y);
    forall c | c in out ensures c.children != "" {
      var i :| 0 <= i < |out| && out[i] == c;
      assert out[i].props.x < |row| && Kept(row, out[i].props.x);
    }
  }

  /** An emitted space sits between two present non-space glyphs. */
  lemma EmittedSpaceFlanked(row: seq<RawCell>, y: nat, i: nat)
    requires i < |ExtractRow(row, y)| && ExtractRow(row, y)[i].children == " "
    ensures var x := ExtractRow(row, y)[i].props.x;
      && 0 < x < |row| - 1
      && row[x - 1].glyph != "" && row[x - 1].glyph != " "
      && row[x + 1].glyph != "" && row[x + 1].glyph != " "
  {
    PrefixCells(row, y, |row|);
    assert ExtractRow(row, y) == ExtractPrefix(row, y, |row|);
    var out := ExtractRow(row, y);
    assert out[i].props.x < |row| && Kept(row, out[i].props.x) && out[i] == CellAt(row, y, out[i].props.x);
  }
}
