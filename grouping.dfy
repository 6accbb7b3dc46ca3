/**
 * Run grouping (`group` in index.js): a greedy left-to-right merge of the
 * extracted cells of a row into text runs. A run keeps the props of its first
 * cell and the concatenated glyphs of all its cells.
 *
 * The source merges a cell into the current run whenever their props agree
 * outside x and y, even when elided columns lie between them; the run is
 * then drawn as one string from its first column, so the later glyphs slide
 * left. `AsWritten` is that rule, and the renderer uses it; `Contiguous`
 * additionally asks the cell to sit in the column right after the run's last
 * cell, and is the corrected rule under which every glyph keeps its column.
 */
module Grouping {
  import opened Extraction

  /** The props without their position: what `isEqual(omit(props, ['x', 'y']), ...)` compares. */
  datatype Look = Look(fg: string, bg: string, inverse: bool, underline: bool, bold: bool)

  function LookOf(p: Props): Look
  {
    Look(p.fg, p.bg, p.inverse, p.underline, p.bold)
  }

  /** A text run: the props of its first cell and the glyphs of all its cells. */
  datatype Run = Run(props: Props, text: string)

  datatype MergeRule = AsWritten | Contiguous

  /** Whether cell c extends the run `last`, whose final cell is `prev`. */
  predicate Joins(rule: MergeRule, last: Run, prev: Cell, c: Cell)
  {
    LookOf(c.props) == LookOf(last.props) && (rule == AsWritten || c.props.x == prev.props.x + 1)
  }

  /**
   * One step of the reduce: cell c, which follows the cells `init` already
   * grouped into `groups`, either extends the last run or starts a new one.
   */
  function Push(rule: MergeRule, groups: seq<Run>, init: seq<Cell>, c: Cell): (runs: seq<Run>)
    requires |groups| <= |init|
    ensures 0 < |runs| <= |groups| + 1
  {
    if |groups| == 0 then [Run(c.props, c.children)]
    else
      var last := groups[|groups| - 1];
      if Joins(rule, last, init[|init| - 1], c) then groups[..|groups| - 1] + [Run(last.props, last.text + c.children)]
      else groups + [Run(c.props, c.children)]
  }

  /** The runs of a row: the reduce over its cells. */
  function Grouped(rule: MergeRule, cells: seq<Cell>): (runs: seq<Run>)
    ensures |runs| <= |cells|
    ensures |runs| == 0 <==> |cells| == 0
  {
    if |cells| == 0 then []
    else Push(rule, Grouped(rule, cells[..|cells| - 1]), cells[..|cells| - 1], cells[|cells| - 1])
  }

  /** The concatenated glyphs of a sequence of cells. */
  function Glyphs(cells: seq<Cell>): string
  {
    if |cells| == 0 then "" else Glyphs(cells[..|cells| - 1]) + cells[|cells| - 1].children
  }

  /** The concatenated texts of a sequence of runs. */
  function Texts(runs: seq<Run>): string
  {
    if |runs| == 0 then "" else Texts(runs[..|runs| - 1]) + runs[|runs| - 1].text
  }

  lemma TextsSnoc(runs: seq<Run>, r: Run)
    ensures Texts(runs + [r]) == Texts(runs) + r.text
  {
    assert (runs + [r])[..|runs|] == runs;
  }

  /** Concatenating the run texts gives the concatenated glyphs of the row. */
  lemma {:induction false} GroupedText(rule: MergeRule, cells: seq<Cell>)
    ensures Texts(Grouped(rule, cells)) == Glyphs(cells)
  {
    if |cells| > 0 {
      var init, c := cells[..|cells| - 1], cells[|cells| - 1];
      assert cells == init + [c];
      GroupedText(rule, init);
      GroupedSnoc(rule, init, c);
      GlyphsSnoc(init, c);
      TextsPush(rule, Grouped(rule, init), init, c);
    }
  }

  /** A step of the reduce appends the new cell's glyph to the texts. */
  lemma TextsPush(rule: MergeRule, groups: seq<Run>, init: seq<Cell>, c: Cell)
    requires |groups| <= |init|
    ensures Texts(Push(rule, groups, init, c)) == Texts(groups) + c.children
  {
    if |groups| == 0 {
      TextsSnoc([], Run(c.props, c.children));
    } else if Joins(rule, groups[|groups| - 1], init[|init| - 1], c) {
      TextsJoin(groups, c.children);
    } else {
      TextsSnoc(groups, Run(c.props, c.children));
    }
  }

  lemma TextsJoin(groups: seq<Run>, s: string)
    requires |groups| > 0
    ensures Texts(groups[..|groups| - 1] + [Run(groups[|groups| - 1].props, groups[|groups| - 1].text + s)]) == Texts(groups) + s
  {
    var n := |groups| - 1;
    TextsSnoc(groups[..n], Run(groups[n].props, groups[n].text + s));
  }

  /** Whether the block boundary between cells a and b is forced by the rule. */
  predicate Breaks(rule: MergeRule, a: Cell, b: Cell)
  {
    LookOf(b.props) != LookOf(a.props) || (rule == Contiguous && b.props.x != a.props.x + 1)
  }

  /** The concatenation of a sequence of blocks of cells. */
  function Flatten(blocks: seq<seq<Cell>>): seq<Cell>
  {
    if |blocks| == 0 then [] else Flatten(blocks[..|blocks| - 1]) + blocks[|blocks| - 1]
  }

  function LastCell(block: seq<Cell>): Cell
    requires |block| > 0
  {
    block[|block| - 1]
  }

  /**
   * `run` is built from the non-empty `block`: the props of the block's first
   * cell, the glyphs of the whole block, the same look throughout, every cell
   * joining the one before it, and under Contiguous consecutive columns.
   */
  ghost predicate BlockOf(rule: MergeRule, run: Run, block: seq<Cell>)
  {
    && |block| > 0
    && run == Run(block[0].props, Glyphs(block))
    && (forall j :: 0 <= j < |block| ==> LookOf(block[j].props) == LookOf(run.props))
    && (forall j :: 0 < j < |block| ==> !Breaks(rule, block[j - 1], block[j]))
    && (rule == Contiguous ==> forall j :: 0 <= j < |block| ==> block[j].props.x == run.props.x + j)
  }

  /** The boundary between two consecutive blocks is forced by the rule. */
  predicate Boundary(rule: MergeRule, before: seq<Cell>, after: seq<Cell>)
  {
    |before| > 0 && |after| > 0 && Breaks(rule, LastCell(before), after[0])
  }

  /**
   * `runs` are the maximal blocks of `cells`: the blocks cut the row in order,
   * each run is built from its block, and every boundary is forced.
   */
  ghost predicate MaximalBlocks(rule: MergeRule, cells: seq<Cell>, runs: seq<Run>, blocks: seq<seq<Cell>>)
  {
    && |blocks| == |runs|
    && Flatten(blocks) == cells
    && (forall k :: 0 <= k < |blocks| ==> BlockOf(rule, runs[k], blocks[k]))
    && (forall k :: 0 < k < |blocks| ==> Boundary(rule, blocks[k - 1], blocks[k]))
  }

  /** One step of the reduce, unfolded. */
  lemma GroupedSnoc(rule: MergeRule, cells: seq<Cell>, c: Cell)
    ensures Grouped(rule, cells + [c]) == Push(rule, Grouped(rule, cells), cells, c)
  {
    var cells' := cells + [c];
    assert cells'[..|cells'| - 1] == cells;
  }

  /** The step of Blocks that mirrors Push. */
  ghost function PushBlock(rule: MergeRule, groups: seq<Run>, blocks: seq<seq<Cell>>, init: seq<Cell>, c: Cell): seq<seq<Cell>>
    requires |groups| <= |init| && |blocks| == |groups|
  {
    if |groups| == 0 then [[c]]
    else if Joins(rule, groups[|groups| - 1], init[|init| - 1], c) then blocks[..|blocks| - 1] + [blocks[|blocks| - 1] + [c]]
    else blocks + [[c]]
  }

  /** Grouping one more cell of a row is one more step of the reduce. */
  lemma GroupedPrefix(rule: MergeRule, cells: seq<Cell>, i: nat)
    requires i < |cells|
    ensures Grouped(rule, cells[..i + 1]) == Push(rule, Grouped(rule, cells[..i]), cells[..i], cells[i])
    ensures i > 0 ==> cells[..i][i - 1] == cells[i - 1]
  {
    assert cells[..i + 1] == cells[..i] + [cells[i]];
    GroupedSnoc(rule, cells[..i], cells[i]);
  }

  /** The blocks that the reduce builds, alongside its runs. */
  ghost function Blocks(rule: MergeRule, cells: seq<Cell>): (blocks: seq<seq<Cell>>)
    ensures |blocks| == |Grouped(rule, cells)|
  {
    if |cells| == 0 then []
    else
      var init := cells[..|cells| - 1];
      PushBlock(rule, Grouped(rule, init), Blocks(rule, init), init, cells[|cells| - 1])
  }

  lemma GlyphsSnoc(cells: seq<Cell>, c: Cell)
    ensures Glyphs(cells + [c]) == Glyphs(cells) + c.children
  {
    assert (cells + [c])[..|cells|] == cells;
  }

  lemma FlattenSnoc(blocks: seq<seq<Cell>>, b: seq<Cell>)
    ensures Flatten(blocks + [b]) == Flatten(blocks) + b
  {
    assert (blocks + [b])[..|blocks|] == blocks;
  }

  /** The last cell of a flattened sequence of non-empty blocks is the last cell of the last block. */
  lemma FlattenLast(blocks: seq<seq<Cell>>)
    requires |blocks| > 0 && |blocks[|blocks| - 1]| > 0
    ensures |Flatten(blocks)| > 0 && Flatten(blocks)[|Flatten(blocks)| - 1] == LastCell(blocks[|blocks| - 1])
  {
  }

  /** A single cell makes a block. */
  lemma BlockOfSingle(rule: MergeRule, c: Cell)
    ensures BlockOf(rule, Run(c.props, c.children), [c])
  {
    GlyphsSnoc([], c);
    assert [] + [c] == [c];
  }

  /** A cell that joins a run extends its block. */
  lemma BlockOfExtend(rule: MergeRule, run: Run, block: seq<Cell>, c: Cell)
    requires BlockOf(rule, run, block)
    requires Joins(rule, run, LastCell(block), c)
    ensures BlockOf(rule, Run(run.props, run.text + c.children), block + [c])
  {
    GlyphsSnoc(block, c);
    var block' := block + [c];
    assert block'[0] == block[0];
    assert LookOf(LastCell(block).props) == LookOf(run.props);
    if rule == Contiguous {
      assert LastCell(block).props.x == run.props.x + |block| - 1;
    }
  }

  /** One step of the blocks, unfolded like GroupedSnoc. */
  lemma BlocksSnoc(rule: MergeRule, cells: seq<Cell>, c: Cell)
    ensures Blocks(rule, cells + [c]) == PushBlock(rule, Grouped(rule, cells), Blocks(rule, cells), cells, c)
  {
    var cells' := cells + [c];
    assert cells'[..|cells'| - 1] == cells;
  }

  /** A cell that breaks with the last block starts a block of its own. */
  lemma MaximalAppend(rule: MergeRule, cells: seq<Cell>, runs: seq<Run>, blocks: seq<seq<Cell>>, c: Cell)
    requires MaximalBlocks(rule, cells, runs, blocks)
    requires |blocks| > 0 && |blocks[|blocks| - 1]| > 0
    requires Breaks(rule, LastCell(blocks[|blocks| - 1]), c)
    ensures MaximalBlocks(rule, cells + [c], runs + [Run(c.props, c.children)], blocks + [[c]])
  {
    var runs', blocks' := runs + [Run(c.props, c.children)], blocks + [[c]];
    FlattenSnoc(blocks, [c]);
    BlockOfSingle(rule, c);
    forall k | 0 <= k < |blocks'| ensures BlockOf(rule, runs'[k], blocks'[k]) {
      if k < |blocks| {
        assert runs'[k] == runs[k] && blocks'[k] == blocks[k];
      }
    }
    forall k | 0 < k < |blocks'| ensures Boundary(rule, blocks'[k - 1], blocks'[k]) {
      if k < |blocks| {
        assert blocks'[k - 1] == blocks[k - 1] && blocks'[k] == blocks[k];
      }
    }
  }

  /** A cell that joins the last run extends the last block. */
  lemma MaximalExtend(rule: MergeRule, cells: seq<Cell>, runs: seq<Run>, blocks: seq<seq<Cell>>, c: Cell)
    requires MaximalBlocks(rule, cells, runs, blocks)
    requires |blocks| > 0 && |blocks[|blocks| - 1]| > 0
    requires Joins(rule, runs[|runs| - 1], LastCell(blocks[|blocks| - 1]), c)
    ensures var n := |blocks| - 1;
      MaximalBlocks(rule, cells + [c], runs[..n] + [Run(runs[n].props, runs[n].text + c.children)], blocks[..n] + [blocks[n] + [c]])
  {
    var n := |blocks| - 1;
    var runs', blocks' := runs[..n] + [Run(runs[n].props, runs[n].text + c.children)], blocks[..n] + [blocks[n] + [c]];
    assert blocks[..n] + [blocks[n]] == blocks;
    FlattenSnoc(blocks[..n], blocks[n]);
    FlattenSnoc(blocks[..n], blocks[n] + [c]);
    BlockOfExtend(rule, runs[n], blocks[n], c);
    forall k | 0 <= k < |blocks'| ensures BlockOf(rule, runs'[k], blocks'[k]) {
      if k < n {
        assert runs'[k] == runs[k] && blocks'[k] == blocks[k];
      }
    }
    forall k | 0 < k < |blocks'| ensures Boundary(rule, blocks'[k - 1], blocks'[k]) {
      assert blocks'[k - 1] == blocks[k - 1];
      assert Boundary(rule, blocks[k - 1], blocks[k]);
      assert blocks'[k][0] == blocks[k][0];
    }
  }

  /** The reduce builds exactly the maximal blocks of the row. */
  lemma {:induction false} GroupedMaximal(rule: MergeRule, cells: seq<Cell>)
    ensures MaximalBlocks(rule, cells, Grouped(rule, cells), Blocks(rule, cells))
  {
    if |cells| > 0 {
      var init, c := cells[..|cells| - 1], cells[|cells| - 1];
      assert cells == init + [c];
      GroupedMaximal(rule, init);
      GroupedSnoc(rule, init, c);
      BlocksSnoc(rule, init, c);
      MaximalPush(rule, init, Grouped(rule, init), Blocks(rule, init), c);
    }
  }

  /** One step of the reduce keeps the runs the maximal blocks of the row. */
  lemma MaximalPush(rule: MergeRule, init: seq<Cell>, groups: seq<Run>, blocks: seq<seq<Cell>>, c: Cell)
    requires MaximalBlocks(rule, init, groups, blocks) && |groups| <= |init|
    ensures MaximalBlocks(rule, init + [c], Push(rule, groups, init, c), PushBlock(rule, groups, blocks, init, c))
  {
    if |groups| == 0 {
      assert init == Flatten(blocks) == [];
      assert [] + [c] == [c];
      MaximalSingle(rule, c);
    } else {
      var n := |blocks| - 1;
      assert BlockOf(rule, groups[n], blocks[n]);
      FlattenLast(blocks);
      if Joins(rule, groups[n], init[|init| - 1], c) {
        MaximalExtend(rule, init, groups, blocks, c);
      } else {
        assert LookOf(LastCell(blocks[n]).props) == LookOf(groups[n].props);
        MaximalAppend(rule, init, groups, blocks, c);
      }
    }
  }

  /** A single cell is one block. */
  lemma MaximalSingle(rule: MergeRule, c: Cell)
    ensures MaximalBlocks(rule, [c], [Run(c.props, c.children)], [[c]])
  {
    FlattenSnoc([], [c]);
    assert [] + [[c]] == [[c]];
    BlockOfSingle(rule, c);
  }

  /**
   * The properties of the reduce that the source relies on: runs keep their
   * first cell's props, and under the source's rule consecutive runs always
   * differ outside x and y, so no run could have been longer.
   */
  lemma RunsAreMaximal(cells: seq<Cell>)
    ensures forall k :: 0 < k < |Grouped(AsWritten, cells)| ==>
      LookOf(Grouped(AsWritten, cells)[k - 1].props) != LookOf(Grouped(AsWritten, cells)[k].props)
  {
    GroupedMaximal(AsWritten, cells);
    var runs: seq<Run>, blocks: seq<seq<Cell>> := Grouped(AsWritten, cells), Blocks(AsWritten, cells);
    forall k | 0 < k < |runs| ensures LookOf(runs[k - 1].props) != LookOf(runs[k].props) {
      assert BlockOf(AsWritten, runs[k - 1], blocks[k - 1]) && BlockOf(AsWritten, runs[k], blocks[k]);
      assert Boundary(AsWritten, blocks[k - 1], blocks[k]);
      var prev := blocks[k - 1];
      assert LookOf(LastCell(prev).props) == LookOf(runs[k - 1].props);
      assert LookOf(blocks[k][0].props) == LookOf(runs[k].props);
    }
  }

  /** Under the corrected rule, each glyph of a run is drawn in the column it came from. */
  lemma ContiguousRunsKeepColumns(cells: seq<Cell>)
    ensures |Blocks(Contiguous, cells)| == |Grouped(Contiguous, cells)|
    ensures Flatten(Blocks(Contiguous, cells)) == cells
    ensures forall k, j :: 0 <= k < |Blocks(Contiguous, cells)| && 0 <= j < |Blocks(Contiguous, cells)[k]| ==>
      Blocks(Contiguous, cells)[k][j].props.x == Grouped(Contiguous, cells)[k].props.x + j
  {
    GroupedMaximal(Contiguous, cells);
    var runs: seq<Run>, blocks: seq<seq<Cell>> := Grouped(Contiguous, cells), Blocks(Contiguous, cells);
    forall k, j | 0 <= k < |blocks| && 0 <= j < |blocks[k]| ensures blocks[k][j].props.x == runs[k].props.x + j {
      assert BlockOf(Contiguous, runs[k], blocks[k]);
    }
  }

  /**
   * Under the source's rule two same-look cells with elided columns between
   * them (the row "a  b": both spaces are dropped) become one run "ab" drawn
   * from column 0, so "b" appears in column 1 instead of column 3.
   */
  lemma MergesAcrossGap(p: Props, q: Props)
    requires p.x == 0 && q.x == 3 && LookOf(p) == LookOf(q)
    ensures Grouped(AsWritten, [Cell(p, "a"), Cell(q, "b")]) == [Run(p, "ab")]
    ensures Grouped(Contiguous, [Cell(p, "a"), Cell(q, "b")]) == [Run(p, "a"), Run(q, "b")]
  {
    var cells := [Cell(p, "a"), Cell(q, "b")];
    assert "a" + "b" == "ab";
    assert cells[..1] == [Cell(p, "a")];
    assert Grouped(AsWritten, cells[..1]) == [Run(p, "a")];
    assert Grouped(Contiguous, cells[..1]) == [Run(p, "a")];
  }

  /** Runs written back as one cell each. */
  function AsCells(runs: seq<Run>): (cells: seq<Cell>)
    ensures |cells| == |runs|
    ensures forall k :: 0 <= k < |runs| ==> cells[k] == Cell(runs[k].props, runs[k].text)
  {
    seq(|runs|, k requires 0 <= k < |runs| => Cell(runs[k].props, runs[k].text))
  }

  /** Cells whose neighbours always differ in look group into one run per cell. */
  lemma {:induction false} GroupDistinctNeighbours(cells: seq<Cell>)
    requires forall k :: 0 < k < |cells| ==> LookOf(cells[k - 1].props) != LookOf(cells[k].props)
    ensures Grouped(AsWritten, cells) == seq(|cells|, k requires 0 <= k < |cells| => Run(cells[k].props, cells[k].children))
  {
    if |cells| > 0 {
      var init := cells[..|cells| - 1];
      var c := cells[|cells| - 1];
      GroupDistinctNeighbours(init);
      var groups := Grouped(AsWritten, init);
      if |init| > 0 {
        assert groups[|groups| - 1].props == init[|init| - 1].props;
        assert !Joins(AsWritten, groups[|groups| - 1], init[|init| - 1], c);
        assert Grouped(AsWritten, cells) == groups + [Run(c.props, c.children)];
      }
    }
  }

  /** Grouping again the runs of a row, one cell per run, gives back the same runs. */
  lemma GroupIdempotent(cells: seq<Cell>)
    ensures Grouped(AsWritten, AsCells(Grouped(AsWritten, cells))) == Grouped(AsWritten, cells)
  {
    var runs := Grouped(AsWritten, cells);
    RunsAreMaximal(cells);
    var again := AsCells(runs);
    assert forall k :: 0 < k < |again| ==> LookOf(again[k - 1].props) != LookOf(again[k].props);
    GroupDistinctNeighbours(again);
    assert seq(|again|, k requires 0 <= k < |again| => Run(again[k].props, again[k].children)) == runs;
  }

  /**
   * One row's reduce: the current run is extended in place when the next
   * cell has its look, otherwise a new run is pushed.
   */
  method GroupRow(cells: seq<Cell>) returns (groups: seq<Run>)
    ensures groups == Grouped(AsWritten, cells)
  {
    groups := [];
    for i := 0 to |cells|
      invariant groups == Grouped(AsWritten, cells[..i])
    {
      GroupedPrefix(AsWritten, cells, i);
      var cell := cells[i];
      if |groups| == 0 {
        groups := [Run(cell.props, cell.children)];
      } else if LookOf(cell.props) == LookOf(groups[|groups| - 1].props) {
        var prev := groups[|groups| - 1];
        groups := groups[..|groups| - 1] + [Run(prev.props, prev.text + cell.children)];
      } else {
        groups := groups + [Run(cell.props, cell.children)];
      }
    }
    assert cells[..|cells|] == cells;
  }

  /** `group`: every row of the matrix grouped on its own. */
  method Group(rows: seq<seq<Cell>>) returns (out: seq<seq<Run>>)
    ensures |out| == |rows|
    ensures forall y :: 0 <= y < |rows| ==> out[y] == Grouped(AsWritten, rows[y])
  {
    out := [];
    for y := 0 to |rows|
      invariant |out| == y
      invariant forall y' :: 0 <= y' < y ==> out[y'] == Grouped(AsWritten, rows[y'])
    {
      var runs := GroupRow(rows[y]);
      out := out + [runs];
    }
  }
}
