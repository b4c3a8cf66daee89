/**
  The plain renderer's legend: one fixed line of help text, measured with the
  same size detector as the keybinding legend.
*/
module RendererLegend {
  import opened RustStr
  import opened Legend

  /** The help line, without its terminator. */
  const LEGEND_LINE: string := "^C: Quit | ^S: Save | ^O: Open "

  /** The detector's bookkeeping for any write: newlines add rows, the width never shrinks and covers the cursor. */
  lemma WriteStrCounts(m: Measure, s: string)
    ensures AfterWrite(m, s).size.rows == m.size.rows + Count(s, '\n')
    ensures AfterWrite(m, s).cursor.row == m.cursor.row + Count(s, '\n')
    ensures '\n' !in s ==> AfterWrite(m, s).cursor.col == m.cursor.col + |s|
    ensures AfterWrite(m, s).size.cols >= m.size.cols
    ensures AfterWrite(m, s).size.cols >= AfterWrite(m, s).cursor.col
  {
    AfterWriteRows(m, s);
    AfterWriteCols(m, s);
    if '\n' !in s {
      AfterWriteSameRow(m, s);
    }
  }

  /** `render_to_writer`: the help line and a newline, whatever the editor state. */
  method RenderToWriter(d: SizeDetector)
    modifies d
    ensures d.State() == AfterWrite(old(d.State()), LEGEND_LINE + "\n")
  {
    d.WriteStr(LEGEND_LINE + "\n");
  }

  /** A single terminated line, written to a fresh detector, occupies one row as wide as the line. */
  lemma OneLineSize(line: string)
    requires '\n' !in line
    ensures AfterWrite(ORIGIN, line + "\n").size == TerminalSize(1, |line|)
    ensures AfterWrite(ORIGIN, line + "\n").cursor == TerminalPosition(1, 0)
  {
    RunSameRow(ORIGIN, line);
    RunAppend(ORIGIN, line, "\n");
    var x := Run(ORIGIN, line);
    assert Run(x, "\n") == Run(Step(x, '\n'), []);
  }

  /** The help line occupies one row of 31 columns. */
  lemma LegendLineSize()
    ensures AfterWrite(ORIGIN, LEGEND_LINE + "\n").size == TerminalSize(1, 31)
    ensures AfterWrite(ORIGIN, LEGEND_LINE + "\n").cursor == TerminalPosition(1, 0)
  {
    assert '\n' !in LEGEND_LINE;
    OneLineSize(LEGEND_LINE);
  }

  /** The measuring half of `region`: a fresh detector after the legend is written. */
  method MeasureLegend() returns (size: TerminalSize)
    ensures size == TerminalSize(1, 31)
  {
    var d := new SizeDetector();
    RenderToWriter(d);
    LegendLineSize();
    size := d.size;
  }
}
