/**
  The keybinding legend: the box listing the current group's visible bindings,
  and the size detector that measures text written to it. The detector is a
  writer that only counts: a newline closes a row, every other character takes
  one column, and the widest row seen is kept.
*/
module Legend {
  import opened Wrappers
  import opened RustStr
  import opened Mame
  import opened Keybindings

  datatype TerminalPosition = TerminalPosition(row: nat, col: nat)

  datatype TerminalSize = TerminalSize(rows: nat, cols: nat)

  /** What a size detector holds: where the next character goes and the extent seen so far. */
  datatype Measure = Measure(cursor: TerminalPosition, size: TerminalSize)

  /** A freshly made detector. */
  const ORIGIN: Measure := Measure(TerminalPosition(0, 0), TerminalSize(0, 0))

  function Max(a: nat, b: nat): nat
  {
    if a < b then b else a
  }

  /** One character: a newline closes the row, anything else takes one column. */
  function Step(m: Measure, ch: char): Measure
  {
    if ch == '\n' then
      Measure(TerminalPosition(m.cursor.row + 1, 0), TerminalSize(m.size.rows + 1, Max(m.size.cols, m.cursor.col)))
    else
      Measure(m.cursor.(col := m.cursor.col + 1), m.size)
  }

  function Run(m: Measure, s: string): Measure
    decreases |s|
  {
    if s == [] then m else Run(Step(m, s[0]), s[1..])
  }

  /** The widest row includes the row the cursor is on. */
  function Settle(m: Measure): Measure
  {
    m.(size := m.size.(cols := Max(m.size.cols, m.cursor.col)))
  }

  /** The detector's state after one `write_str` call. */
  function AfterWrite(m: Measure, s: string): Measure
  {
    Settle(Run(m, s))
  }

  // ----------------------------------------------------------------------
  // Facts about the character loop

  lemma {:induction false} RunAppend(m: Measure, a: string, b: string)
    ensures Run(m, a + b) == Run(Run(m, a), b)
    decreases |a|
  {
    if a == [] {
      assert a + b == b;
    } else {
      assert (a + b)[0] == a[0];
      assert (a + b)[1..] == a[1..] + b;
      RunAppend(Step(m, a[0]), a[1..], b);
    }
  }

  lemma {:induction false} RunRows(m: Measure, s: string)
    ensures Run(m, s).size.rows == m.size.rows + Count(s, '\n')
    ensures Run(m, s).cursor.row == m.cursor.row + Count(s, '\n')
    decreases |s|
  {
    if s != [] {
      RunRows(Step(m, s[0]), s[1..]);
    }
  }

  lemma {:induction false} RunSameRow(m: Measure, s: string)
    requires '\n' !in s
    ensures Run(m, s) == m.(cursor := m.cursor.(col := m.cursor.col + |s|))
    decreases |s|
  {
    if s != [] {
      assert s[0] != '\n';
      RunSameRow(Step(m, s[0]), s[1..]);
    }
  }

  lemma {:induction false} RunGrows(m: Measure, s: string)
    ensures Run(m, s).size.cols >= m.size.cols
    ensures Max(Run(m, s).size.cols, Run(m, s).cursor.col) >= Max(m.size.cols, m.cursor.col)
    decreases |s|
  {
    if s != [] {
      RunGrows(Step(m, s[0]), s[1..]);
    }
  }

  /** After a non-empty write the cursor is off the left edge exactly when the last character was not a newline. */
  lemma {:induction false} RunLastColumn(m: Measure, s: string)
    requires s != []
    ensures Run(m, s).cursor.col > 0 <==> s[|s| - 1] != '\n'
    decreases |s|
  {
    if |s| > 1 {
      assert s[1..][|s[1..]| - 1] == s[|s| - 1];
      RunLastColumn(Step(m, s[0]), s[1..]);
    }
  }

  /** Raising the recorded width to at most the cursor column changes nothing that a later settle would not. */
  lemma {:induction false} RunRaised(m: Measure, k: nat, s: string)
    requires k <= m.cursor.col
    ensures AfterWrite(m.(size := m.size.(cols := Max(m.size.cols, k))), s) == AfterWrite(m, s)
    decreases |s|
  {
    var raised := m.(size := m.size.(cols := Max(m.size.cols, k)));
    if s != [] {
      if s[0] == '\n' {
        assert Step(raised, s[0]) == Step(m, s[0]);
      } else {
        assert Step(raised, s[0]) == Step(m, s[0]).(size := Step(m, s[0]).size.(cols := Max(m.size.cols, k)));
        RunRaised(Step(m, s[0]), k, s[1..]);
      }
    }
  }

  // ----------------------------------------------------------------------
  // What one write does

  /** Rows and the cursor row both grow by the number of newlines written. */
  lemma AfterWriteRows(m: Measure, s: string)
    ensures AfterWrite(m, s).size.rows == m.size.rows + Count(s, '\n')
    ensures AfterWrite(m, s).cursor.row == m.cursor.row + Count(s, '\n')
  {
    RunRows(m, s);
  }

  /** Without a newline the cursor moves right by one column per character, whatever its display width. */
  lemma AfterWriteSameRow(m: Measure, s: string)
    requires '\n' !in s
    ensures AfterWrite(m, s).cursor == m.cursor.(col := m.cursor.col + |s|)
    ensures AfterWrite(m, s).size.rows == m.size.rows
  {
    RunSameRow(m, s);
  }

  /** After a newline the cursor column is the number of characters written since the last one. */
  lemma AfterWriteNewRow(m: Measure, a: string, b: string)
    requires '\n' !in b
    ensures AfterWrite(m, a + "\n" + b).cursor.col == |b|
  {
    RunAppend(m, a + "\n", b);
    RunAppend(m, a, "\n");
    RunSameRow(Run(m, a + "\n"), b);
  }

  /** The recorded width never shrinks and always covers the cursor column. */
  lemma AfterWriteCols(m: Measure, s: string)
    ensures AfterWrite(m, s).size.cols >= m.size.cols
    ensures AfterWrite(m, s).size.cols >= m.cursor.col
    ensures AfterWrite(m, s).size.cols >= AfterWrite(m, s).cursor.col
  {
    RunGrows(m, s);
  }

  /** Writing in pieces measures the same as writing the whole, so `write!` may split its output freely. */
  lemma AfterWriteFragments(m: Measure, s1: string, s2: string)
    ensures AfterWrite(AfterWrite(m, s1), s2) == AfterWrite(m, s1 + s2)
  {
    var x := Run(m, s1);
    RunRaised(x, x.cursor.col, s2);
    RunAppend(m, s1, s2);
  }

  /** `finish` as written: one more row whenever anything has width. */
  function Finished(m: Measure): (r: TerminalSize)
    ensures r.cols == m.size.cols
    ensures r.rows == m.size.rows + (if m.size.cols > 0 then 1 else 0)
  {
    if m.size.cols > 0 then TerminalSize(m.size.rows + 1, m.size.cols) else m.size
  }

  /** `finish` counting an unterminated last row only: one more row when the cursor is not at a row start. */
  function FinishedByLines(m: Measure): (r: TerminalSize)
    ensures r.cols == m.size.cols
    ensures r.rows == m.size.rows + (if m.cursor.col > 0 then 1 else 0)
  {
    if m.cursor.col > 0 then TerminalSize(m.size.rows + 1, m.size.cols) else m.size
  }

  /** Measured from a fresh detector, the corrected height is the number of lines `str::lines` sees. */
  lemma FinishedByLinesCountsLines(t: string)
    ensures FinishedByLines(AfterWrite(ORIGIN, t)).rows == |Lines(t)|
  {
    AfterWriteRows(ORIGIN, t);
    LinesCount(t);
    if t != [] {
      RunLastColumn(ORIGIN, t);
    }
  }

  /** The height as written counts a newline-terminated line twice: `"a\n"` measures two rows. */
  lemma FinishedOvercounts()
    ensures Finished(AfterWrite(ORIGIN, "a\n")).rows == 2
    ensures |Lines("a\n")| == 1
  {
    FinishedByLinesCountsLines("a\n");
    assert Run(ORIGIN, "a\n") == Run(Step(ORIGIN, 'a'), "\n");
  }

  /** The size detector: a writer that measures instead of drawing. */
  class SizeDetector {
    var cursor: TerminalPosition
    var size: TerminalSize

    function State(): Measure
      reads this
    {
      Measure(cursor, size)
    }

    constructor ()
      ensures State() == ORIGIN
    {
      cursor := TerminalPosition(0, 0);
      size := TerminalSize(0, 0);
    }

    /** `write_str`: one step per character, then the width catches up with the cursor. */
    method WriteStr(s: string)
      modifies this
      ensures State() == AfterWrite(old(State()), s)
    {
      var i := 0;
      while i < |s|
        invariant 0 <= i <= |s|
        invariant Run(State(), s[i..]) == Run(old(State()), s)
      {
        assert s[i..][0] == s[i] && s[i..][1..] == s[i + 1..];
        if s[i] == '\n' {
          size := TerminalSize(size.rows + 1, Max(size.cols, cursor.col));
          cursor := TerminalPosition(cursor.row + 1, 0);
        } else {
          cursor := cursor.(col := cursor.col + 1);
        }
        i := i + 1;
      }
      size := size.(cols := Max(size.cols, cursor.col));
    }

    /** `finish`: the measured size, with the row bump as written. */
    method Finish() returns (r: TerminalSize)
      modifies this
      ensures r == Finished(old(State()))
      ensures size == r && cursor == old(cursor)
    {
      if size.cols > 0 {
        size := size.(rows := size.rows + 1);
      }
      r := TerminalSize(size.rows, size.cols);
    }

    /** `finish` with the row bump only for an unterminated last row. */
    method FinishByLines() returns (r: TerminalSize)
      modifies this
      ensures r == FinishedByLines(old(State()))
      ensures size == r && cursor == old(cursor)
    {
      if cursor.col > 0 {
        size := size.(rows := size.rows + 1);
      }
      r := TerminalSize(size.rows, size.cols);
    }
  }

  // ----------------------------------------------------------------------
  // The legend's lines

  /** How keys and actions are shown; their display formats are not part of this model. */
  datatype Show = Show(key: KeyInput -> string, action: ActionName -> string)

  /** The configured label of a key if it has one, otherwise the key itself. */
  function LabelText(b: Keybinding, keylabels: map<KeyInput, string>, show: Show): string
  {
    if b.key in keylabels then keylabels[b.key] else show.key(b.key)
  }

  /** One row of the legend, without its line terminator. */
  function EntryLine(b: Keybinding, keylabels: map<KeyInput, string>, show: Show): string
  {
    "│ " + LabelText(b, keylabels, show) + ": " + show.action(b.action) + " "
  }

  function Repeat(c: char, n: nat): (r: string)
    ensures |r| == n && forall i :: 0 <= i < n ==> r[i] == c
  {
    if n == 0 then [] else [c] + Repeat(c, n - 1)
  }

  /** The bottom border: a corner and then `cols - 1` rules, the subtraction saturating at zero. */
  function BorderLine(cols: nat): (r: string)
    ensures |r| == Max(cols, 1)
    ensures r[0] == '└' && forall i :: 1 <= i < |r| ==> r[i] == '─'
  {
    "└" + Repeat('─', if cols == 0 then 0 else cols - 1)
  }

  /** The bindings the legend shows. */
  function Visible(es: seq<Keybinding>): (r: seq<Keybinding>)
    ensures |r| == VisibleCount(es)
    ensures forall k :: 0 <= k < |r| ==> r[k].visible && r[k] in es
  {
    if es == [] then []
    else
      var init := es[..|es| - 1];
      var last := es[|es| - 1];
      Visible(init) + (if last.visible then [last] else [])
  }

  /** Filtering keeps the order: the visible bindings of `a + b` are those of `a`, then those of `b`. */
  lemma {:induction false} VisibleAppend(a: seq<Keybinding>, b: seq<Keybinding>)
    ensures Visible(a + b) == Visible(a) + Visible(b)
    decreases |b|
  {
    if b == [] {
      assert a + b == a;
    } else {
      var init := b[..|b| - 1];
      var last := b[|b| - 1];
      var tail := if last.visible then [last] else [];
      assert (a + b)[..|a + b| - 1] == a + init;
      assert (a + b)[|a + b| - 1] == last;
      assert Visible(a + b) == Visible(a + init) + tail;
      VisibleAppend(a, init);
      assert Visible(b) == Visible(init) + tail;
    }
  }

  /** A single binding is shown exactly when it is visible. */
  lemma VisibleOne(e: Keybinding)
    ensures Visible([e]) == (if e.visible then [e] else [])
  {
    assert [e][..0] == [];
  }

  /** One line per visible binding, in iteration order. */
  function EntryLines(es: seq<Keybinding>, keylabels: map<KeyInput, string>, show: Show): seq<string>
  {
    if es == [] then []
    else
      var init := es[..|es| - 1];
      var last := es[|es| - 1];
      EntryLines(init, keylabels, show) + (if last.visible then [EntryLine(last, keylabels, show)] else [])
  }

  /** Everything `render_to_writer` writes, line by line: the entries, then the border when a width is given. */
  function LegendLines(es: seq<Keybinding>, keylabels: map<KeyInput, string>, show: Show, cols: Option<nat>): seq<string>
  {
    if cols.Some? then EntryLines(es, keylabels, show) + [BorderLine(cols.value)]
    else EntryLines(es, keylabels, show)
  }

  /** The k-th entry line shows the k-th visible binding; invisible bindings get no line. */
  lemma {:induction false} EntryLinesMatchVisible(es: seq<Keybinding>, keylabels: map<KeyInput, string>, show: Show)
    ensures |EntryLines(es, keylabels, show)| == |Visible(es)|
    ensures forall k :: 0 <= k < |Visible(es)| ==> EntryLines(es, keylabels, show)[k] == EntryLine(Visible(es)[k], keylabels, show)
  {
    if es != [] {
      EntryLinesMatchVisible(es[..|es| - 1], keylabels, show);
    }
  }

  /** A group built from configuration shows exactly one legend line per ordinary member. */
  lemma LegendListsOrdinaryMembers(ms: seq<Member>, parseAction: ActionParser, keylabels: map<KeyInput, string>, show: Show)
    requires GroupEntries(ms, parseAction).Ok?
    ensures |EntryLines(GroupEntries(ms, parseAction).value, keylabels, show)| == OrdinaryCount(ms)
  {
    GroupEntriesCounts(ms, parseAction);
    EntryLinesMatchVisible(GroupEntries(ms, parseAction).value, keylabels, show);
  }

  /**
    `render_to_writer`: the current group's visible bindings, then the border
    when a width is given. The writer's content is returned; a missing group is
    the error `iter` reports.
  */
  method RenderToWriter(kb: Keybindings, ctx: KeybindingsContext, keylabels: map<KeyInput, string>, show: Show, cols: Option<nat>)
    returns (r: Result<string, IterError>)
    ensures Iter(kb, ctx).Err? ==> r == Err(Iter(kb, ctx).error)
    ensures Iter(kb, ctx).Ok? ==> r == Ok(Terminated(LegendLines(Iter(kb, ctx).value, keylabels, show, cols)))
  {
    var it := Iter(kb, ctx);
    if it.Err? {
      return Err(it.error);
    }
    var es := it.value;
    var out := "";
    var i := 0;
    while i < |es|
      invariant 0 <= i <= |es|
      invariant out == Terminated(EntryLines(es[..i], keylabels, show))
    {
      var prefix := es[..i + 1];
      assert prefix[..|prefix| - 1] == es[..i];
      assert prefix[|prefix| - 1] == es[i];
      var b := es[i];
      if b.visible {
        assert EntryLines(prefix, keylabels, show) == EntryLines(es[..i], keylabels, show) + [EntryLine(b, keylabels, show)];
        TerminatedSnoc(EntryLines(es[..i], keylabels, show), EntryLine(b, keylabels, show));
        out := out + EntryLine(b, keylabels, show) + "\n";
        assert out == Terminated(EntryLines(prefix, keylabels, show));
      } else {
        assert EntryLines(prefix, keylabels, show) == EntryLines(es[..i], keylabels, show);
      }
      i := i + 1;
    }
    assert es[..i] == es;
    if cols.Some? {
      TerminatedSnoc(EntryLines(es, keylabels, show), BorderLine(cols.value));
      out := out + BorderLine(cols.value) + "\n";
      assert LegendLines(es, keylabels, show, cols) == EntryLines(es, keylabels, show) + [BorderLine(cols.value)];
    }
    return Ok(out);
  }

  /** The detector `region` starts from: one row already reserved for the bottom border. */
  const BORDER_RESERVED: Measure := Measure(TerminalPosition(0, 0), TerminalSize(1, 0))

  /** No label or action text breaks its line. */
  predicate SingleRowEntries(es: seq<Keybinding>, keylabels: map<KeyInput, string>, show: Show)
  {
    forall k :: 0 <= k < |EntryLines(es, keylabels, show)| ==> '\n' !in EntryLines(es, keylabels, show)[k]
  }

  /** Terminated lines end in a newline. */
  lemma TerminatedEndsInNewline(ls: seq<string>)
    requires ls != []
    ensures Terminated(ls) != [] && Terminated(ls)[|Terminated(ls)| - 1] == '\n'
  {
    TerminatedSnoc(ls[..|ls| - 1], ls[|ls| - 1]);
    assert ls[..|ls| - 1] + [ls[|ls| - 1]] == ls;
  }

  /** A write that starts with a character other than a newline leaves some width recorded. */
  lemma AfterWriteWide(m: Measure, c: char, rest: string)
    requires c != '\n'
    ensures AfterWrite(m, [c] + rest).size.cols > 0
  {
    RunAppend(m, [c], rest);
    RunGrows(Run(m, [c]), rest);
  }

  /** Rows grow by one per terminated line. */
  lemma WriteTerminatedRows(m: Measure, ls: seq<string>)
    requires forall k :: 0 <= k < |ls| ==> '\n' !in ls[k]
    ensures AfterWrite(m, Terminated(ls)).size.rows == m.size.rows + |ls|
  {
    CountTerminated(ls);
    AfterWriteRows(m, Terminated(ls));
  }

  /** After terminated lines the cursor is back at a row start. */
  lemma WriteTerminatedAtRowStart(m: Measure, ls: seq<string>)
    requires ls != []
    ensures AfterWrite(m, Terminated(ls)).cursor.col == 0
  {
    TerminatedEndsInNewline(ls);
    RunLastColumn(m, Terminated(ls));
  }

  /** A first line with at least one character leaves some width recorded. */
  lemma WriteTerminatedWide(m: Measure, ls: seq<string>)
    requires ls != [] && ls[0] != [] && ls[0][0] != '\n'
    ensures AfterWrite(m, Terminated(ls)).size.cols > 0
  {
    var rest := ls[0][1..] + "\n" + Terminated(ls[1..]);
    assert Terminated(ls) == [ls[0][0]] + rest;
    AfterWriteWide(m, ls[0][0], rest);
  }

  /**
    As written, the measured legend is one row taller than the legend drawn:
    with at least one visible binding, `finish` adds a row for a last line that
    the trailing newline has already counted.
  */
  lemma LegendMeasureTooTall(es: seq<Keybinding>, keylabels: map<KeyInput, string>, show: Show, cols: nat)
    requires VisibleCount(es) >= 1 && SingleRowEntries(es, keylabels, show)
    ensures Finished(AfterWrite(BORDER_RESERVED, Terminated(LegendLines(es, keylabels, show, None)))).rows
         == |LegendLines(es, keylabels, show, Some(cols))| + 1
  {
    var ls := EntryLines(es, keylabels, show);
    EntryLinesMatchVisible(es, keylabels, show);
    assert ls[0] == EntryLine(Visible(es)[0], keylabels, show);
    WriteTerminatedRows(BORDER_RESERVED, ls);
    WriteTerminatedAtRowStart(BORDER_RESERVED, ls);
    WriteTerminatedWide(BORDER_RESERVED, ls);
  }

  /** Counting only an unterminated last row, the measured height is exactly the number of lines drawn. */
  lemma LegendMeasureByLines(es: seq<Keybinding>, keylabels: map<KeyInput, string>, show: Show, cols: nat)
    requires SingleRowEntries(es, keylabels, show)
    ensures FinishedByLines(AfterWrite(BORDER_RESERVED, Terminated(LegendLines(es, keylabels, show, None)))).rows
         == |LegendLines(es, keylabels, show, Some(cols))|
  {
    var ls := EntryLines(es, keylabels, show);
    WriteTerminatedRows(BORDER_RESERVED, ls);
    if ls == [] {
      assert Terminated(ls) == [];
    } else {
      WriteTerminatedAtRowStart(BORDER_RESERVED, ls);
    }
  }

  /**
    The measuring half of `region`: reserve the border row, write the legend
    without a border, finish. The source treats a missing group as a bug and
    panics, so the group must exist. The finish used here counts an
    unterminated last row only, so the height is that of the legend drawn.
  */
  method MeasureLegend(kb: Keybindings, ctx: KeybindingsContext, keylabels: map<KeyInput, string>, show: Show)
    returns (size: TerminalSize)
    requires Iter(kb, ctx).Ok?
    ensures size == FinishedByLines(AfterWrite(BORDER_RESERVED, Terminated(LegendLines(Iter(kb, ctx).value, keylabels, show, None))))
    ensures SingleRowEntries(Iter(kb, ctx).value, keylabels, show) ==>
      size.rows == |EntryLines(Iter(kb, ctx).value, keylabels, show)| + 1
  {
    var d := new SizeDetector();
    d.size := d.size.(rows := d.size.rows + 1);
    var text := RenderToWriter(kb, ctx, keylabels, show, None);
    d.WriteStr(text.value);
    size := d.FinishByLines();
    if SingleRowEntries(Iter(kb, ctx).value, keylabels, show) {
      LegendMeasureByLines(Iter(kb, ctx).value, keylabels, show, 0);
    }
  }
}
