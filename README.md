# kk editor core, modelled in Dafny

This project models the self-contained logic of the `kk` terminal text editor
and proves properties about it:

- **Cursor anchors** (`Anchor`): the `PATH:LINE:CHAR` record format of the
  anchor log, read back with `FromStr`. The lenient goto parser accepts
  `LINE`, `PATH:LINE` or `PATH:LINE:CHAR`. The log is read most recent first,
  and the jump-back rule `prev_anchor` picks an earlier location from it.
- **Key strings** (`Mame`): `parse_key_input` turns `"<UP>"`, `"C-x"`, `"M-x"`
  or `"a"` into a key input with ctrl/alt flags. It tests `str::len` in UTF-8
  bytes, and the model does the same.
- **Keybinding groups** (`Keybindings`): a group is built from a JSON object's
  members, in order. A `"__hidden__"` sub-object is flattened into invisible
  bindings. The current context's group is then looked up.
- **Selection arithmetic** (`TextArea`): the marked column span of one row,
  from mark and cursor compared row first. The module also models which buffer
  rows are drawn and which characters of a row are emitted and marked.
- **Loading a file** (`Buffer`): the content is split by `str::lines` and the
  buffer becomes clean.
- **Legend measurement** (`Legend`, `RendererLegend`): the size detector is a
  writer that counts rows and columns. The keybinding legend lists the visible
  bindings and a bottom border. The plain renderer's legend is one fixed help
  line.

`RustStr` models the Rust standard-library string operations these depend on:

- `str::lines`, `trim`, `split(':')` and `splitn(3, ':')`;
- parsing `usize` and `NonZeroUsize`, and decimal display;
- the UTF-8 byte length.

`Wrappers` holds `Option` and `Result`. Integers are unbounded, and a `usize`
is the subset `0 ..= 2^64 - 1` wherever the source's bound matters.

The size detector is written out twice in the source, once in `legend.rs` and
once in `renderer_legend.rs`. The two copies have the same fields and the same
`write_str`; only the copy in `legend.rs` also has `finish`
(`src/legend.rs:77-82`), and the fixed legend reads its size without it. The
detector is modelled once, as the class `Legend.SizeDetector`, and
`RendererLegend` uses its `write_str` and never its `finish`.

## Model

| member | source | states |
|---|---|---|
| RustStr.Lines | src/buffer.rs:15-18 | no line contains `\n`; there are never more lines than characters |
| RustStr.LinesLineEndings | src/buffer.rs:15-18 | a line ends at `\n` or `\r\n`; a `\r` elsewhere stays in the line |
| RustStr.LinesFinalTerminator | src/buffer.rs:15-18 | a final line terminator adds no empty line |
| RustStr.LinesCount | src/buffer.rs:15-18 | one line per `\n`, plus one for an unterminated last line; empty content gives no lines |
| RustStr.LinesRoundTrip | src/buffer.rs:15-18 | content without `\r` that is empty or ends in `\n` is rebuilt exactly by writing each line with `\n` |
| RustStr.LinesOfTerminated | src/buffer.rs:17 | lines keep their characters exactly: writing lines and loading them again gives the same lines |
| RustStr.Trim | src/anchor.rs:76 | the result has no white space at either end |
| RustStr.TrimSpec | src/anchor.rs:76 | the result is the part of the input from `TrimOffset` on, and everything before and after it is white space, so exactly the white space at both ends is removed |
| RustStr.TrimUnpadded | src/anchor.rs:76 | text without white space at either end is left alone |
| RustStr.TrimIdempotent | src/anchor.rs:76 | trimming twice is trimming once |
| RustStr.Split | src/anchor.rs:90 | at least one piece; no piece contains the separator; exactly one piece iff the separator is absent |
| RustStr.SplitJoin | src/anchor.rs:90 | joining the pieces with the separator gives the input back, so no character is lost or reordered |
| RustStr.SplitNone | src/anchor.rs:90 | without the separator the one piece is the whole input |
| RustStr.SplitAfterPrefix | src/anchor.rs:90 | a separator-free prefix followed by the separator is the first piece, and the rest splits on its own |
| RustStr.SplitN3 | src/anchor.rs:116-119 | the input is `path:line:rest`, split at its first two `:` |
| RustStr.SplitN3Fields | src/anchor.rs:116-122 | splitting into three fails exactly when there are fewer than two `:` |
| RustStr.ParseUsize | src/anchor.rs:125-130 | accepts only a non-empty run of digits with an optional leading `+`; a digit run no larger than `usize::MAX` gives its value |
| RustStr.ParseUsizeSpec | src/anchor.rs:125-130 | a lone `+` is rejected; `+` before a digit run parses as the run alone; a digit run larger than `usize::MAX` is rejected |
| RustStr.ParseNonZeroUsize | src/anchor.rs:125-130 | a `usize` parse that also rejects zero |
| RustStr.Decimal | src/anchor.rs:108 | a non-empty run of digits whose value is the number, with no leading zero |
| RustStr.ParseDecimal | src/anchor.rs:106-133 | a displayed positive number parses back to itself |
| RustStr.Utf8LenOne | src/mame.rs:150 | the byte length is 1 exactly for a single character below U+0080 |
| Anchor.FormatCounts | src/anchor.rs:106-110 | the record holds the path's `:` plus two more, ends in a digit, and has no newline when the path has none |
| Anchor.FromStr | src/anchor.rs:112-133 | an accepted record's path is the text before its first `:` and contains no `:` |
| Anchor.FromStrMissingFields | src/anchor.rs:116-122 | the error is "missing fields" exactly when the record has fewer than two `:` |
| Anchor.FromStrExtraColon | src/anchor.rs:116-130 | a third `:` ends up in the character field, and the record is rejected |
| Anchor.FromStrNumberFields | src/anchor.rs:125-130 | a record is accepted iff both number fields are non-zero `usize`s, and then it holds the path and those two values; a zero line or character is rejected |
| Anchor.FormatSplits | src/anchor.rs:106-122 | a record whose path has no `:` splits back into path, line digits and character digits |
| Anchor.FromStrRoundTrip | src/anchor.rs:106-133 | reading back a displayed anchor whose path has no `:` gives the same anchor |
| Anchor.ParseForGotoSpec | src/anchor.rs:75-103 | blank input gives none; a bare positive number is that line in the current file at character 1, and text without `:` gives nothing else; otherwise the path is the first piece and the line must parse from the second |
| Anchor.GotoTrimmed | src/anchor.rs:76 | surrounding white space plays no part: the input and its trimmed text go to the same place |
| Anchor.GotoTokens | src/anchor.rs:90-102 | with a `:` in the trimmed text, the result is read from the pieces; the character defaults to 1 when the third piece is missing or unparsable |
| Anchor.GotoOfFields | src/anchor.rs:76-102 | text left alone by trimming whose first three `:`-pieces are a record's path, line and character goes to that record |
| Anchor.GotoOfFormat | src/anchor.rs:90-102 | the goto prompt accepts the `PATH:LINE:CHAR` record form |
| Anchor.GotoPathLine | src/anchor.rs:90-101 | `PATH:LINE` gives character 1 |
| Anchor.GotoTwoTokens | src/anchor.rs:90-101 | text of two `:`-pieces whose second is a line number goes to that line of the first piece at character 1 |
| Anchor.PathLineShape | src/anchor.rs:76-90 | `PATH:LINE` with a safe path is left alone by trimming and splits into exactly the path and the line |
| Anchor.GotoIgnoresExtraTokens | src/anchor.rs:90-102 | pieces after the third are ignored |
| Anchor.AppendRecord | src/anchor.rs:15-23 | appending keeps the old log as a prefix and ends the log with a newline |
| Anchor.RecentOf | src/anchor.rs:28-33 | yields no more anchors than there are lines |
| Anchor.RecentOfAppend | src/anchor.rs:28-33 | reading a log in two parts, the later part's anchors come first, each part in reverse line order |
| Anchor.RecentOfLine | src/anchor.rs:31 | one line gives its anchor when its trimmed text parses, and nothing otherwise |
| Anchor.RecentAfterAppend | src/anchor.rs:15-33 | after an append, the appended anchor is the most recent one and the rest are unchanged |
| RustStr.LinesAppendLine | src/anchor.rs:15-33 | appending a line without `\n` and a terminator to newline-terminated content adds exactly that line |
| Anchor.RecentSkipsUnparsable | src/anchor.rs:31 | a log line that does not parse contributes nothing |
| Anchor.NormalComponentsSpec | src/anchor.rs:42 | the components among `/`-separated pieces are pieces themselves, never empty and never `.`, and no more than the pieces |
| Anchor.NormalAppend | src/anchor.rs:42 | the components of pieces `a + b` are those of `a` then those of `b`, so every normal piece is kept, in order |
| Anchor.NormalOne | src/anchor.rs:42 | one piece gives itself as a component unless it is empty or `.` |
| Anchor.PathKeySpec | src/anchor.rs:42 | a path's components are never empty; a path starting with `/` has the root and then the normal components of its `/`-pieces; one starting with neither `/` nor a `.` piece has exactly those normal components |
| Anchor.SamePathSpellings | src/anchor.rs:42 | `x//y`, `x/./y` and `x/y/` are the same path as `x/y` |
| Anchor.PathKeyHead | src/anchor.rs:42 | `/x` and `./x` are not the same path as `x` |
| Anchor.PathKeyPlain | src/anchor.rs:42 | a single name is its own one component |
| Anchor.PathKeyTwo | src/anchor.rs:42 | `x/y` has the components `x` and `y` |
| Anchor.PathKeySkipped | src/anchor.rs:42 | an empty or `.` piece between two names adds no component: `x//y` and `x/./y` have the components `x` and `y` |
| Anchor.PathKeyTrailing | src/anchor.rs:42 | a trailing `/` adds no component: `x/y/` has the components `x` and `y` |
| Anchor.SamePathLastName | src/anchor.rs:42 | `x/y` and `x/z` are the same path exactly when `y` and `z` are the same name |
| Anchor.Window | src/anchor.rs:37-41 | at most 1000 entries: the whole recent list when it is that short, otherwise its first 1000 |
| Anchor.FirstWhere | src/anchor.rs:42-52 | the first position whose entry satisfies the predicate, none before it does; none iff no entry does |
| Anchor.FirstWhereUnique | src/anchor.rs:42-52 | a satisfying position with none before it is the one found |
| Anchor.NextWhere | src/anchor.rs:42-43 | the entry right after the first satisfying one, when that is not the last entry; none when no entry but the last satisfies |
| Anchor.NextAfterMatch | src/anchor.rs:38-43 | the entry right after the first entry equal to `current`, paths compared by component; none when no entry but the last is equal |
| Anchor.FindSamePath | src/anchor.rs:48-52 | the first entry whose path equals the given one by component; none iff no entry has it |
| Anchor.FirstIndexWithPath | src/anchor.rs:52 | the first entry whose path equals the given one by component, or none when no entry has it |
| Anchor.PrevAnchor | src/anchor.rs:36-53 | the result lies in the window. It is the entry right after the first entry equal to `current`. Failing that, it is the first entry with `current`'s path, and none when no entry has that path. Paths are compared by component |
| Anchor.PrevAnchorRespelled | src/anchor.rs:36-53 | jumping back from `x/y` finds the entry after one recorded as `x//y` |
| Mame.BracketKey | src/mame.rs:18-117 | a recognised bracket name is one of the spellings of a named key |
| Mame.BracketKeyOfName | src/mame.rs:18-116 | every spelling of a named key, aliases included, is recognised as that key |
| Mame.ParseKeyInput | src/mame.rs:12-161 | no accepted key has both ctrl and alt; a rejection carries the key text |
| Mame.ParseKeyInputSpells | src/mame.rs:12-161 | a string parses to a key iff it spells it: a bracket name, `C-`/`c-` for ctrl, `A-`/`a-`/`M-`/`m-` for alt, or one ASCII character |
| Mame.ParseKeyInputRejects | src/mame.rs:159-160 | a string is rejected iff it spells no key |
| Mame.BracketAliases | src/mame.rs:54-116 | two spellings of one named key give the same unmodified key |
| Mame.BracketNamesCaseSensitive | src/mame.rs:18-160 | `<up>` is rejected |
| Mame.MultiByteCharRejected | src/mame.rs:150-160 | a single character of two or more UTF-8 bytes is rejected |
| Mame.UnknownModifierRejected | src/mame.rs:121-160 | `x-y` with a first character that is not a modifier letter is rejected |
| Mame.CanonicalSpelling | src/mame.rs:12-161 | every expressible key has a spelling |
| Mame.ParseKeyInputRoundTrip | src/mame.rs:12-161 | the canonical spelling of an expressible key parses back to it; only expressible keys are ever produced |
| Keybindings.DefaultContext | src/keybindings.rs:14-21 | current and next group are both `__main__` |
| Keybindings.Iter | src/keybindings.rs:29-35 | fails iff the current group is missing; otherwise yields that group's entries in stored order |
| Keybindings.IterIgnoresNext | src/keybindings.rs:33 | the next group's name plays no part |
| Keybindings.BindingOf | src/keybindings.rs:60-64 | a binding succeeds iff key and action both parse; the key error is reported first; the visibility flag is the one given |
| Keybindings.SingleEntryOutcome | src/keybindings.rs:70-74 | a bad key is reported before the action is read; a bad action is reported only for a good key; otherwise the binding |
| Keybindings.CollectAppend | src/keybindings.rs:57-74 | reading two runs of members one after the other joins the two results |
| Keybindings.CollectPrefixErr | src/keybindings.rs:57-74 | once a prefix fails, the whole run fails with the same error |
| Keybindings.CollectFirstErr | src/keybindings.rs:57-74 | the first failing member's error is the run's error: later members are never read |
| Keybindings.CollectErrIff | src/keybindings.rs:57-74 | a run fails iff one of its members fails |
| Keybindings.GroupEntriesErrIff | src/keybindings.rs:57-74 | a group fails iff one of its members fails |
| Keybindings.HiddenEntriesSpec | src/keybindings.rs:58-67 | hidden bindings fail iff one of them fails; otherwise one invisible binding per hidden member, in order |
| Keybindings.HiddenEntriesValues | src/keybindings.rs:58-67 | a successful hidden run holds one invisible binding per member, in order |
| Keybindings.HiddenEntriesInvisible | src/keybindings.rs:58-67 | the hidden run yields exactly its members' count, none visible |
| Keybindings.GroupEntriesCounts | src/keybindings.rs:56-75 | entries = ordinary members + hidden members; visible entries = ordinary members, so the `__hidden__` key itself is no entry |
| Keybindings.BuildHidden | src/keybindings.rs:59-66 | the inner loop builds exactly the hidden run's bindings, or its first error |
| Keybindings.BuildGroup | src/keybindings.rs:52-77 | the nested loops build exactly the specified group, or its first error |
| TextArea.SelectionBounds | src/text_area.rs:101-105 | the earlier and the later of mark and cursor in row-major order |
| TextArea.CalculateLineMarkedRegion | src/text_area.rs:94-131 | a returned span is non-empty and lies on a row of the selection |
| TextArea.MarkedRegionSymmetric | src/text_area.rs:101-105 | swapping mark and cursor changes no row's span |
| TextArea.EmptySelectionMarksNothing | src/text_area.rs:126-130 | with mark on the cursor, no row has a span |
| TextArea.MarkedRegionOutsideRows | src/text_area.rs:108-110 | rows outside the selection have no span |
| TextArea.MarkedRegionColumns | src/text_area.rs:112-123 | the span starts at the start column on the start row and at 0 below it; it ends at the end column on the end row and at `usize::MAX` above it; inner rows get `(0, usize::MAX)` |
| TextArea.MarkedIffInSelection | src/text_area.rs:63-65 | a column is marked iff its position is at or after the selection start and before its end |
| TextArea.VisibleRows | src/text_area.rs:17-34 | drawn rows are consecutive from the viewport row, all inside the buffer, `min(start + rows, len) - start` of them; filler lines complete the screen |
| TextArea.EmittedSpec | src/text_area.rs:56-65 | emitted characters come from the line, at or right of the left column, each marked iff in the span; one per such cell |
| TextArea.EmittedAppend | src/text_area.rs:56-65 | emission keeps the line's order: the cells of `a + b` emit those of `a`, then those of `b` |
| TextArea.EmittedOne | src/text_area.rs:56-65 | one cell emits one character, with its marking, exactly when it is at or right of the left column |
| TextArea.EmittedAllFromZero | src/text_area.rs:56-57 | with the left column at 0, the whole line is emitted |
| TextArea.RenderLine | src/text_area.rs:56-89 | the character loop emits exactly the specified characters |
| Buffer.TextBuffer.constructor | src/buffer.rs:5-9 | a new buffer has no lines and is clean |
| Buffer.TextBuffer.LoadFile | src/buffer.rs:12-21 | a successful read sets the lines to those of the content and makes the buffer clean; a failed read changes nothing and reports the path |
| Legend.AfterWriteRows | src/legend.rs:89-93 | rows and the cursor row each grow by the number of newlines written |
| Legend.AfterWriteSameRow | src/legend.rs:95-97 | without a newline the cursor moves one column per character, whatever its display width |
| Legend.AfterWriteNewRow | src/legend.rs:92-96 | after a newline the cursor column is the number of characters since the last one |
| Legend.AfterWriteCols | src/legend.rs:86-103 | the width never shrinks and covers the cursor column |
| Legend.AfterWriteFragments | src/legend.rs:86-103 | writing `s1` then `s2` measures the same as writing `s1 + s2` |
| Legend.SizeDetector.constructor | src/legend.rs:70-74 | a new detector is at the origin with size zero |
| Legend.SizeDetector.WriteStr | src/legend.rs:86-103 | the character loop leaves exactly the specified measurement |
| Legend.SizeDetector.Finish | src/legend.rs:77-82 | as written: one more row whenever the width is positive |
| Legend.Finished | src/legend.rs:77-82 | as written: one more row iff the width is positive; the width is kept |
| Legend.FinishedOvercounts | src/legend.rs:77-82 | as written, `"a\n"` measures two rows though it is one line |
| Legend.FinishedByLines | src/legend.rs:77-82 | corrected: one more row iff the cursor is not at a row start |
| Legend.FinishedByLinesCountsLines | src/legend.rs:77-82 | corrected, a fresh detector measures as many rows as `str::lines` finds |
| Legend.SizeDetector.FinishByLines | src/legend.rs:77-82 | the corrected finish, on the detector |
| Legend.BorderLine | src/legend.rs:63 | a corner followed by `cols - 1` rules, saturating: `max(cols, 1)` characters |
| Legend.Visible | src/legend.rs:48-51 | only visible bindings, as many as there are visible bindings, all drawn from the group |
| Legend.VisibleAppend | src/legend.rs:48-51 | the order is kept: the visible bindings of `a + b` are those of `a`, then those of `b` |
| Legend.VisibleOne | src/legend.rs:48-51 | a single binding is shown exactly when it is visible |
| Legend.EntryLinesMatchVisible | src/legend.rs:48-60 | one line per visible binding, in order; the label is the configured one when it exists, otherwise the key |
| Legend.LegendListsOrdinaryMembers | src/legend.rs:48-60 | a group built from configuration shows one line per ordinary member |
| Legend.RenderToWriter | src/legend.rs:41-67 | writes the visible entries and then the border when a width is given; a missing group is the lookup's error |
| Legend.LegendMeasureTooTall | src/legend.rs:24-30 | as written, with a visible binding, the measured height is one more than the lines drawn |
| Legend.LegendMeasureByLines | src/legend.rs:24-30 | corrected, the measured height equals the lines drawn, border included |
| Legend.MeasureLegend | src/legend.rs:24-30 | the region's measurement, with the corrected finish: visible entries plus the border row |
| RendererLegend.WriteStrCounts | src/renderer_legend.rs:43-60 | newlines add rows; other characters add one column each; the width never shrinks and covers the cursor |
| RendererLegend.RenderToWriter | src/renderer_legend.rs:29-33 | writes the fixed help line and a newline, whatever the state |
| RendererLegend.OneLineSize | src/renderer_legend.rs:43-60 | one terminated line measures one row as wide as the line |
| RendererLegend.LegendLineSize | src/renderer_legend.rs:29-33 | the help line measures 1 row by 31 columns |
| RendererLegend.MeasureLegend | src/renderer_legend.rs:17-19 | a fresh detector ends at 1 row by 31 columns |

## Left out

- File I/O. The anchor log is its content string, and `append` is modelled by its effect on that content. The goto and `FromStr` results are not affected.
- `prev_anchor` reads the log twice. The model reads it once, because the log does not change between the reads. A read failure there is not modelled.
- The `HOME` lookup for the log path is left out.
- `load_file` takes the outcome of the read as a parameter. The operating system's error text is not modelled.
- Paths are strings. `PathBuf::from` cannot fail, and a path is displayed as the string itself; non-UTF-8 paths are out of scope.
- Path equality is Unix `PathBuf` equality: component by component, with empty pieces and inner `.` pieces skipped. Windows drive and UNC prefixes are not modelled.
- Anchor.RecentOf: its own contract is only the length bound. What it yields is stated by `Anchor.RecentOfAppend` and `Anchor.RecentOfLine`, which together determine it.
- Error messages are modelled as error kinds: `ParseError`, `KeyError` and `GroupError`.
- The JSON document is abstracted to an object's members: a raw key token, its decoded text, and a value. The nojson parser and `Keybindings::try_from` are not part of this model; the latter is a map of groups by name.
- Reading an `ActionName` from JSON is a parameter: the action table is not part of this model.
- How a key and an action are displayed is a parameter: the tuinix key display and the action display are not part of this model.
- `TextPosition` and `TextLine::char_cols` are not part of this model. Positions are taken to compare row first, then column, as a derived ordering over `(row, col)` does. A row's characters are given as `(display column, char)` pairs.
- The rest of drawing is left out: styles, highlight, cursor underline, frame writes and the tuinix region geometry of `region`, meaning `contains`, `take_top` and `take_right`.
- TextArea.VisibleRows: `start_row + available_rows` is computed on unbounded integers; a `usize` overflow there is not modelled.
- Detector counters and `rows += 1` are unbounded; a `usize` overflow there is not modelled.
- A `write!` of several arguments calls `write_str` once per piece. The model writes the whole text at once, which `Legend.AfterWriteFragments` shows measures the same.
- Legend.MeasureLegend: uses the corrected finish, per the finding below. Its as-written height is one more row, as `Legend.LegendMeasureTooTall` states.

## Findings

| source | as written | input that shows it | evidently intended | confidence | as-written member | corrected member |
|---|---|---|---|---|---|---|
| src/legend.rs:77-82 | `finish` adds a row whenever the measured width is positive, even when the text already ends with a newline | a legend with one visible binding: 1 reserved border row + 1 entry line are written, and `finish` makes it 3 rows for the 2 rows drawn (entry and border); a fresh detector given `"a\n"` measures 2 rows | add a row only for an unterminated last line (cursor not at a row start), as the fixed legend's measurement in `renderer_legend.rs` does implicitly | medium; not executed | Legend.LegendMeasureTooTall | Legend.LegendMeasureByLines |
