/**
  Cursor anchors: saved `(path, line, character)` locations, the one-record-per-line
  text format of the anchor log, the lenient "goto" parser and the jump-back rule.
  The log file itself is represented by its content string.
*/
module Anchor {
  import opened Wrappers
  import opened RustStr

  /** A saved location; `line` and `character` are 1-based. */
  datatype CursorAnchor = CursorAnchor(path: string, line: NonZeroUsize, character: NonZeroUsize)

  /** Why a record of the log was rejected (the source reports these as messages). */
  datatype ParseError = MissingFields | InvalidLine | InvalidCharacter

  /** How many of the most recent log entries the jump-back rule looks at. */
  const LOOKBACK: nat := 1000

  // ----------------------------------------------------------------------
  // The record format

  /** `Display`: `PATH:LINE:CHAR`, both numbers in decimal. */
  function Format(a: CursorAnchor): string
  {
    a.path + ":" + Decimal(a.line) + ":" + Decimal(a.character)
  }

  /** The displayed record is the path and the two numbers joined by `:`. */
  lemma FormatParts(a: CursorAnchor)
    ensures Format(a) == a.path + [':'] + (Decimal(a.line) + [':'] + Decimal(a.character))
  {
  }

  /** The record holds the path's `:` and two more, no newline the path lacks, and ends in a digit. */
  lemma FormatCounts(a: CursorAnchor)
    ensures Count(Format(a), ':') == Count(a.path, ':') + 2
    ensures '\n' !in a.path ==> '\n' !in Format(a)
    ensures Format(a) != [] && IsDigit(Format(a)[|Format(a)| - 1])
  {
    var l := Decimal(a.line);
    var c := Decimal(a.character);
    FormatParts(a);
    CountFields(a.path, l, c, ':');
    CountAbsent(l, ':');
    CountAbsent(c, ':');
    assert Format(a)[|Format(a)| - 1] == c[|c| - 1];
  }

  /**
    `FromStr`: split at the first two `:` only; the path is taken as is, and the
    line and character fields must each parse as a non-zero `usize`.
  */
  function FromStr(s: string): (r: Result<CursorAnchor, ParseError>)
    ensures r.Ok? ==>
      |r.value.path| < |s| && s[..|r.value.path|] == r.value.path && s[|r.value.path|] == ':'
      && ':' !in r.value.path
  {
    match SplitN3(s, ':')
    case None => Err(MissingFields)
    case Some((p, l, c)) =>
      match ParseNonZeroUsize(l)
      case None => Err(InvalidLine)
      case Some(line) =>
        match ParseNonZeroUsize(c)
        case None => Err(InvalidCharacter)
        case Some(ch) => Ok(CursorAnchor(p, line, ch))
  }

  /** A record needs at least two `:`; with fewer it is rejected for missing fields. */
  lemma FromStrMissingFields(s: string)
    ensures FromStr(s) == Err(MissingFields) <==> Count(s, ':') < 2
  {
    SplitN3Fields(s, ':');
  }

  /** A third `:` lands in the character field, which then cannot parse. */
  lemma FromStrExtraColon(s: string)
    requires Count(s, ':') > 2
    ensures FromStr(s).Err?
  {
    var fields := SplitN3(s, ':');
    if fields.Some? {
      var (p, l, c) := fields.value;
      assert s == p + [':'] + (l + [':'] + c);
      CountFields(p, l, c, ':');
      CountAbsent(p, ':');
      CountAbsent(l, ':');
      CountAbsent(c, ':');
      assert ':' in c;
      if ParseUsize(c).Some? {
        ParsedHasNo(c, ':');
      }
      assert ParseNonZeroUsize(c).None?;
    }
  }

  /**
    An accepted record holds the parsed numbers; zero, a sign other than a
    leading `+`, or any non-digit in a number field is rejected.
  */
  lemma FromStrNumberFields(s: string, p: string, l: string, c: string)
    requires SplitN3(s, ':') == Some((p, l, c))
    ensures FromStr(s).Ok? <==> ParseNonZeroUsize(l).Some? && ParseNonZeroUsize(c).Some?
    ensures FromStr(s).Ok? ==>
      FromStr(s).value == CursorAnchor(p, ParseNonZeroUsize(l).value, ParseNonZeroUsize(c).value)
    ensures ParseUsize(l) == Some(0) ==> FromStr(s) == Err(InvalidLine)
    ensures ParseNonZeroUsize(l).Some? && ParseUsize(c) == Some(0) ==> FromStr(s) == Err(InvalidCharacter)
  {
  }

  /** The displayed record splits at exactly the two separators it was built with. */
  lemma FormatSplits(a: CursorAnchor)
    requires ':' !in a.path
    ensures SplitN3(Format(a), ':') == Some((a.path, Decimal(a.line), Decimal(a.character)))
    ensures Split(Format(a), ':') == [a.path, Decimal(a.line), Decimal(a.character)]
  {
    var l := Decimal(a.line);
    var c := Decimal(a.character);
    var s := Format(a);
    assert ':' !in l && ':' !in c;
    assert s == a.path + [':'] + (l + [':'] + c);
    SplitN3Prefix(a.path, l, c, ':');
    SplitAfterPrefixes(a.path, l, c, ':');
  }

  /** Reading back a displayed anchor whose path has no `:` gives the same anchor. */
  lemma FromStrRoundTrip(a: CursorAnchor)
    requires ':' !in a.path
    ensures FromStr(Format(a)) == Ok(a)
  {
    FormatSplits(a);
    ParseDecimal(a.line);
    ParseDecimal(a.character);
  }

  // ----------------------------------------------------------------------
  // The goto parser

  /**
    `parse_for_goto`: trim, then a bare positive number is a line in the current
    file; otherwise the text splits at every `:` into path, line and an optional
    character (1 when absent or unparsable), and later pieces are ignored.
  */
  function ParseForGoto(s: string, currentFile: string): Option<CursorAnchor>
  {
    GotoOfTrimmed(Trim(s), currentFile)
  }

  /** `parse_for_goto` after its first step, on the trimmed text `t`. */
  function GotoOfTrimmed(t: string, currentFile: string): Option<CursorAnchor>
  {
    if t == [] then None
    else match ParseNonZeroUsize(t)
      case Some(line) => Some(CursorAnchor(currentFile, line, 1))
      case None =>
        var tokens := Split(t, ':');
        if |tokens| < 2 then None
        else match ParseNonZeroUsize(tokens[1])
          case None => None
          case Some(line) =>
            var ch :=
              if |tokens| >= 3 && ParseNonZeroUsize(tokens[2]).Some?
              then ParseNonZeroUsize(tokens[2]).value
              else 1;
            Some(CursorAnchor(tokens[0], line, ch))
  }

  /**
    Blank input gives nothing; a bare positive number is that line in the current
    file at character 1, and text without `:` can be nothing else; otherwise the path is the first piece
    and the line must parse from the second.
  */
  lemma ParseForGotoSpec(s: string, currentFile: string)
    ensures Trim(s) == [] ==> ParseForGoto(s, currentFile).None?
    ensures ParseNonZeroUsize(Trim(s)).Some? ==>
      ParseForGoto(s, currentFile) == Some(CursorAnchor(currentFile, ParseNonZeroUsize(Trim(s)).value, 1))
    ensures ParseForGoto(s, currentFile).Some? && ':' !in Trim(s) ==>
      ParseNonZeroUsize(Trim(s)).Some?
      && ParseForGoto(s, currentFile).value == CursorAnchor(currentFile, ParseNonZeroUsize(Trim(s)).value, 1)
    ensures ParseForGoto(s, currentFile).Some? && ':' in Trim(s) ==>
      ParseForGoto(s, currentFile).value.path == Split(Trim(s), ':')[0]
      && ParseNonZeroUsize(Split(Trim(s), ':')[1]) == Some(ParseForGoto(s, currentFile).value.line)
    ensures ':' in Trim(s) && ParseNonZeroUsize(Split(Trim(s), ':')[1]).None? ==> ParseForGoto(s, currentFile).None?
  {
    var t := Trim(s);
    if ParseUsize(t).Some? {
      ParsedHasNo(t, ':');
    }
  }

  /** A path that survives trimming and splitting unchanged. */
  predicate GotoSafePath(p: string)
  {
    ':' !in p && (p == [] || !IsWhitespace(p[0]))
  }

  /** Untrimmed text whose first three `:`-pieces are a record's fields goes to that record. */
  lemma GotoOfFields(s: string, a: CursorAnchor, currentFile: string)
    requires Trim(s) == s && ':' in s
    requires var tokens := Split(s, ':');
      |tokens| >= 3 && tokens[0] == a.path
      && tokens[1] == Decimal(a.line) && tokens[2] == Decimal(a.character)
    ensures ParseForGoto(s, currentFile) == Some(a)
  {
    ParseDecimal(a.line);
    ParseDecimal(a.character);
    GotoTokens(s, currentFile);
  }

  /** The goto prompt accepts the log's own `PATH:LINE:CHAR` form. */
  lemma GotoOfFormat(a: CursorAnchor, currentFile: string)
    requires GotoSafePath(a.path)
    ensures ParseForGoto(Format(a), currentFile) == Some(a)
  {
    var tokens := Split(Format(a), ':');
    FormatUnpadded(a);
    assert |tokens| >= 3 && tokens[0] == a.path
      && tokens[1] == Decimal(a.line) && tokens[2] == Decimal(a.character) by {
      FormatSplits(a);
    }
    GotoOfFields(Format(a), a, currentFile);
  }

  /** A displayed record whose path does not start with white space is left alone by trimming. */
  lemma FormatUnpadded(a: CursorAnchor)
    requires GotoSafePath(a.path)
    ensures Trim(Format(a)) == Format(a) && ':' in Format(a)
  {
    var s := Format(a);
    var l, c := Decimal(a.line), Decimal(a.character);
    FormatParts(a);
    JoinEnds(a.path, ':', l + [':'] + c);
    JoinEnds(l, ':', c);
    assert s[|a.path|] == ':';
    TrimUnpadded(s);
  }

  /** `PATH:LINE` gives character 1. */
  lemma GotoPathLine(p: string, n: NonZeroUsize, currentFile: string)
    requires GotoSafePath(p)
    ensures ParseForGoto(p + ":" + Decimal(n), currentFile) == Some(CursorAnchor(p, n, 1))
  {
    var l := Decimal(n);
    assert l != [] && ':' !in l && !IsWhitespace(l[|l| - 1]);
    PathLineShape(p, l);
    ParseDecimal(n);
    GotoTwoTokens(p + ":" + l, p, l, n, currentFile);
  }

  /** `PATH:LINE` with a safe path and a line that ends in no blank is left alone by trimming and splits in two. */
  lemma PathLineShape(p: string, l: string)
    requires GotoSafePath(p)
    requires l != [] && ':' !in l && !IsWhitespace(l[|l| - 1])
    ensures Trim(p + ":" + l) == p + ":" + l && ':' in p + ":" + l
    ensures Split(p + ":" + l, ':') == [p, l]
  {
    assert p + ":" + l == p + [':'] + l;
    PathLineUnpadded(p, l);
    PathLineSplit(p, l);
  }

  lemma PathLineUnpadded(p: string, l: string)
    requires GotoSafePath(p)
    requires l != [] && !IsWhitespace(l[|l| - 1])
    ensures Trim(p + [':'] + l) == p + [':'] + l && ':' in p + [':'] + l
  {
    var s := p + [':'] + l;
    JoinEnds(p, ':', l);
    JoinParts(p, ':', l);
    TrimUnpadded(s);
  }

  lemma PathLineSplit(p: string, l: string)
    requires ':' !in p && ':' !in l
    ensures Split(p + [':'] + l, ':') == [p, l]
  {
    SplitAfterPrefix(p, l, ':');
    SplitNone(l, ':');
  }

  /** Untrimmed text of two `:`-pieces, the second a line number, goes to that line at character 1. */
  lemma GotoTwoTokens(s: string, p: string, l: string, n: NonZeroUsize, currentFile: string)
    requires Trim(s) == s && ':' in s
    requires Split(s, ':') == [p, l]
    requires ParseNonZeroUsize(l) == Some(n)
    ensures ParseForGoto(s, currentFile) == Some(CursorAnchor(p, n, 1))
  {
    GotoTokens(s, currentFile);
  }

  /** Pieces after the third are ignored. */
  lemma GotoIgnoresExtraTokens(a: CursorAnchor, junk: string, currentFile: string)
    requires GotoSafePath(a.path)
    requires junk == [] || !IsWhitespace(junk[|junk| - 1])
    ensures ParseForGoto(Format(a) + ":" + junk, currentFile) == Some(a)
  {
    var s := Format(a) + ":" + junk;
    var tokens := Split(s, ':');
    ExtraTokensUnpadded(a, junk);
    assert |tokens| >= 3 && tokens[0] == a.path
      && tokens[1] == Decimal(a.line) && tokens[2] == Decimal(a.character) by {
      ExtraTokensSplit(a, junk);
      FirstThree(a.path, Decimal(a.line), Decimal(a.character), Split(junk, ':'));
    }
    GotoOfFields(s, a, currentFile);
  }

  lemma ExtraTokensUnpadded(a: CursorAnchor, junk: string)
    requires GotoSafePath(a.path)
    requires junk == [] || !IsWhitespace(junk[|junk| - 1])
    ensures Trim(Format(a) + ":" + junk) == Format(a) + ":" + junk
    ensures ':' in Format(a) + ":" + junk
  {
    var f := Format(a);
    var s := f + [':'] + junk;
    assert f != [] && !IsWhitespace(f[0]) by {
      FormatParts(a);
      JoinEnds(a.path, ':', Decimal(a.line) + [':'] + Decimal(a.character));
    }
    assert s[0] == f[0] && s[|s| - 1] == if junk == [] then ':' else junk[|junk| - 1] by {
      JoinEnds(f, ':', junk);
    }
    TrimUnpadded(s);
    assert s[|f|] == ':' by {
      JoinParts(f, ':', junk);
    }
  }

  lemma ExtraTokensSplit(a: CursorAnchor, junk: string)
    requires ':' !in a.path
    ensures Split(Format(a) + ":" + junk, ':')
      == [a.path, Decimal(a.line), Decimal(a.character)] + Split(junk, ':')
  {
    var l := Decimal(a.line);
    var c := Decimal(a.character);
    var t1 := c + [':'] + junk;
    FormatParts(a);
    JoinThree(a.path, l, c, junk, ':');
    assert ':' !in l && ':' !in c;
    SplitAfterPrefix(c, junk, ':');
    SplitAfterPrefixes(a.path, l, t1, ':');
    ConsAfterTwo(a.path, l, c, Split(junk, ':'));
  }

  lemma JoinThree<T>(p: seq<T>, l: seq<T>, c: seq<T>, rest: seq<T>, x: T)
    ensures p + [x] + (l + [x] + c) + [x] + rest == p + [x] + (l + [x] + (c + [x] + rest))
  {
  }

  lemma ConsAfterTwo<T>(x: T, y: T, z: T, r: seq<T>)
    ensures [x, y] + ([z] + r) == [x, y, z] + r
  {
  }

  /** With a `:` left after trimming, the goto parser reads the `:`-separated pieces of the trimmed text. */
  lemma GotoTokens(s: string, currentFile: string)
    requires ':' in Trim(s)
    ensures var tokens := Split(Trim(s), ':');
      |tokens| >= 2 &&
      ParseForGoto(s, currentFile) ==
        match ParseNonZeroUsize(tokens[1])
        case None => None
        case Some(line) =>
          Some(CursorAnchor(tokens[0], line,
            if |tokens| >= 3 && ParseNonZeroUsize(tokens[2]).Some? then ParseNonZeroUsize(tokens[2]).value else 1))
  {
    var t := Trim(s);
    if ParseUsize(t).Some? {
      ParsedHasNo(t, ':');
    }
  }

  /** Surrounding white space plays no part: the prompt text is read after trimming. */
  lemma GotoTrimmed(s: string, currentFile: string)
    ensures ParseForGoto(s, currentFile) == ParseForGoto(Trim(s), currentFile)
  {
    TrimIdempotent(s);
  }

  // ----------------------------------------------------------------------
  // The anchor log

  /** What `append` adds to the log file: the record and a newline. */
  function AppendRecord(log: string, a: CursorAnchor): (r: string)
    ensures NewlineTerminated(r)
    ensures |r| > |log| && r[..|log|] == log
  {
    log + Format(a) + "\n"
  }

  /** The anchors of a list of log lines, last line first, unparsable lines skipped. */
  function RecentOf(lines: seq<string>): (r: seq<CursorAnchor>)
    ensures |r| <= |lines|
  {
    if lines == [] then []
    else
      AnchorOfLine(lines[|lines| - 1]) + RecentOf(lines[..|lines| - 1])
  }

  /** What one log line contributes: its anchor when the trimmed line parses, otherwise nothing. */
  function AnchorOfLine(x: string): seq<CursorAnchor>
  {
    match FromStr(Trim(x))
    case Ok(a) => [a]
    case Err(_) => []
  }

  /** `recent_anchors`: the log's lines in reverse order, trimmed and parsed, failures dropped. */
  function RecentAnchors(log: string): seq<CursorAnchor>
  {
    RecentOf(Lines(log))
  }

  /** A record that reads back unchanged: no `:` or newline in the path, no leading blank. */
  predicate WellFormedRecord(a: CursorAnchor)
  {
    GotoSafePath(a.path) && '\n' !in a.path
  }

  /** A line added at the end of the log is the first one read back. */
  lemma RecentOfSnoc(lines: seq<string>, x: string)
    ensures RecentOf(lines + [x]) == AnchorOfLine(x) + RecentOf(lines)
  {
    assert (lines + [x])[..|lines + [x]| - 1] == lines;
  }

  /** Reading a log in two parts: the later part's anchors come first. */
  lemma {:induction false} RecentOfAppend(a: seq<string>, b: seq<string>)
    ensures RecentOf(a + b) == RecentOf(b) + RecentOf(a)
    decreases |b|
  {
    if b == [] {
      assert a + b == a;
    } else {
      var init := b[..|b| - 1];
      var x := b[|b| - 1];
      var px := AnchorOfLine(x);
      assert RecentOf(a + b) == px + RecentOf(a + init) by {
        assert (a + b)[..|a + b| - 1] == a + init;
        assert (a + b)[|a + b| - 1] == x;
      }
      assert RecentOf(b) == px + RecentOf(init);
      RecentOfAppend(a, init);
      AppendAssoc(px, RecentOf(init), RecentOf(a));
    }
  }

  /** One log line gives its anchor when its trimmed text parses, and nothing otherwise. */
  lemma RecentOfLine(x: string)
    ensures FromStr(Trim(x)).Ok? ==> RecentOf([x]) == [FromStr(Trim(x)).value]
    ensures FromStr(Trim(x)).Err? ==> RecentOf([x]) == []
  {
    RecentOfSnoc([], x);
    assert [] + [x] == [x];
  }

  /** After `append`, the appended anchor is the most recent one and the rest is unchanged. */
  lemma RecentAfterAppend(log: string, a: CursorAnchor)
    requires NewlineTerminated(log)
    requires WellFormedRecord(a)
    ensures RecentAnchors(AppendRecord(log, a)) == [a] + RecentAnchors(log)
  {
    var f := Format(a);
    assert Lines(AppendRecord(log, a)) == Lines(log) + [f] by {
      FormatCounts(a);
      LinesAppendLine(log, f);
    }
    assert FromStr(Trim(f)) == Ok(a) by {
      FormatUnpadded(a);
      FromStrRoundTrip(a);
    }
    RecentOfSnoc(Lines(log), f);
  }

  /** A log line that does not parse contributes nothing. */
  lemma RecentSkipsUnparsable(log: string, junk: string)
    requires NewlineTerminated(log)
    requires '\n' !in junk && !EndsWithCR(junk)
    requires FromStr(Trim(junk)).Err?
    ensures RecentAnchors(log + junk + "\n") == RecentAnchors(log)
  {
    LinesAppendLine(log, junk);
    RecentOfSnoc(Lines(log), junk);
  }

  // ----------------------------------------------------------------------
  // Path equality

  /** The normal components among `/`-separated pieces: empty pieces and `.` are skipped. */
  function NormalComponents(pieces: seq<string>): seq<string>
  {
    if pieces == [] then []
    else
      NormalComponents(pieces[..|pieces| - 1]) + Component(pieces[|pieces| - 1])
  }

  /** The components are pieces themselves, never empty and never `.`, and no more than the pieces. */
  lemma {:induction false} NormalComponentsSpec(pieces: seq<string>)
    ensures |NormalComponents(pieces)| <= |pieces|
    ensures forall k :: 0 <= k < |NormalComponents(pieces)| ==>
      var c := NormalComponents(pieces)[k]; c != [] && c != "." && c in pieces
  {
    if pieces != [] {
      var init := pieces[..|pieces| - 1];
      NormalComponentsSpec(init);
      forall k | 0 <= k < |NormalComponents(init)|
        ensures NormalComponents(init)[k] in pieces
      {
        assert NormalComponents(init)[k] in init;
      }
    }
  }

  /** A piece as a component: none when it is empty or `.`. */
  function Component(piece: string): seq<string>
  {
    if piece == [] || piece == "." then [] else [piece]
  }

  /**
    `Path::components` on a Unix path: a root `/` when the path starts with one, a
    leading `.` when the path is `.` or starts with `./`, then the normal components.
    Repeated separators, interior `.` and a trailing separator leave no trace.
  */
  function PathKey(p: string): seq<string>
  {
    var pieces := Split(p, '/');
    var head := if p != [] && p[0] == '/' then ["/"] else if pieces[0] == "." then ["."] else [];
    head + NormalComponents(pieces)
  }

  /**
    A path's components are never empty. A path starting with `/` has the root
    and then the normal components of its pieces; one starting with neither `/`
    nor a `.` piece has exactly those normal components.
  */
  lemma PathKeySpec(p: string)
    ensures forall k :: 0 <= k < |PathKey(p)| ==> PathKey(p)[k] != []
    ensures |PathKey(p)| <= |Split(p, '/')| + 1
    ensures p != [] && p[0] == '/' ==> PathKey(p) == ["/"] + NormalComponents(Split(p, '/'))
    ensures (p == [] || p[0] != '/') && Split(p, '/')[0] != "." ==> PathKey(p) == NormalComponents(Split(p, '/'))
  {
    NormalComponentsSpec(Split(p, '/'));
  }

  /** The components of pieces `a + b` are those of `a`, then those of `b`: every normal piece is kept, in order. */
  lemma {:induction false} NormalAppend(a: seq<string>, b: seq<string>)
    ensures NormalComponents(a + b) == NormalComponents(a) + NormalComponents(b)
    decreases |b|
  {
    if b == [] {
      assert a + b == a;
    } else {
      var init := b[..|b| - 1];
      var x := b[|b| - 1];
      assert NormalComponents(a + b) == NormalComponents(a + init) + Component(x) by {
        assert a + b == (a + init) + [x];
        NormalSnoc(a + init, x);
      }
      assert NormalComponents(b) == NormalComponents(init) + Component(x) by {
        assert b == init + [x];
        NormalSnoc(init, x);
      }
      NormalAppend(a, init);
      AppendAssoc(NormalComponents(a), NormalComponents(init), Component(x));
    }
  }

  /** One piece is one component unless it is empty or `.`. */
  lemma NormalOne(x: string)
    ensures NormalComponents([x]) == (if x == [] || x == "." then [] else [x])
  {
    NormalSnoc([], x);
    assert [] + [x] == [x];
  }

  /** Two two-name paths under the same directory are the same path exactly when their last names agree. */
  lemma SamePathLastName(x: string, y: string, z: string)
    requires PlainName(x) && PlainName(y) && PlainName(z)
    ensures SamePath(x + "/" + y, x + "/" + z) <==> y == z
  {
    PathKeyTwo(x, y);
    PathKeyTwo(x, z);
    assert [x, y][1] == y && [x, z][1] == z;
  }

  /** `PathBuf`'s `==`: the same components. */
  predicate SamePath(p: string, q: string)
  {
    PathKey(p) == PathKey(q)
  }

  /** The derived `==` of `CursorAnchor`: the same path, line and character. */
  predicate SameAnchor(a: CursorAnchor, b: CursorAnchor)
  {
    SamePath(a.path, b.path) && a.line == b.line && a.character == b.character
  }

  /** A plain file name without `/` is its own single component. */
  lemma PathKeyPlain(p: string)
    requires '/' !in p && p != [] && p != "."
    ensures PathKey(p) == [p]
  {
    SplitNone(p, '/');
    assert [p][..0] == [];
    assert NormalComponents([p]) == Component(p);
  }

  /** A name that can be a normal component on its own. */
  predicate PlainName(x: string)
  {
    '/' !in x && x != [] && x != "."
  }

  /** Spelling a path differently does not make it a different path. */
  lemma SamePathSpellings(x: string, y: string)
    requires PlainName(x) && PlainName(y)
    ensures SamePath(x + "//" + y, x + "/" + y)
    ensures SamePath(x + "/./" + y, x + "/" + y)
    ensures SamePath(x + "/" + y + "/", x + "/" + y)
  {
    PathKeyTwo(x, y);
    assert PathKey(x + "//" + y) == [x, y] by {
      assert x + "//" + y == x + "/" + "" + "/" + y;
      PathKeySkipped(x, "", y);
    }
    assert PathKey(x + "/./" + y) == [x, y] by {
      assert x + "/./" + y == x + "/" + "." + "/" + y;
      PathKeySkipped(x, ".", y);
    }
    assert PathKey(x + "/" + y + "/") == [x, y] by {
      assert x + "/" + y + "/" == x + "/" + y + "/" + "";
      PathKeyTrailing(x, y);
    }
  }

  lemma PathKeyTwo(x: string, y: string)
    requires PlainName(x) && PlainName(y)
    ensures PathKey(x + "/" + y) == [x, y]
  {
    SplitPieces2(x, y);
    RelativeKey(x + "/" + y, [x, y]);
    NormalTwo(x, y);
  }

  /** An empty or `.` piece between two names adds no component. */
  lemma PathKeySkipped(x: string, m: string, y: string)
    requires PlainName(x) && PlainName(y) && (m == "" || m == ".")
    ensures PathKey(x + "/" + m + "/" + y) == [x, y]
  {
    SplitPieces3(x, m, y);
    RelativeKey(x + "/" + m + "/" + y, [x, m, y]);
    NormalThree(x, m, y);
  }

  /** A trailing `/` adds no component. */
  lemma PathKeyTrailing(x: string, y: string)
    requires PlainName(x) && PlainName(y)
    ensures PathKey(x + "/" + y + "/" + "") == [x, y]
  {
    SplitPieces3(x, y, "");
    RelativeKey(x + "/" + y + "/" + "", [x, y, ""]);
    NormalThree(x, y, "");
  }

  /** A leading `/` or `./` is a component of its own, so it tells paths apart. */
  lemma PathKeyHead(x: string)
    requires PlainName(x)
    ensures !SamePath("/" + x, x) && !SamePath("./" + x, x)
  {
    PathKeyPlain(x);
    assert PathKey("/" + x)[0] == "/" by {
      assert ("/" + x)[0] == '/';
    }
    assert PathKey("./" + x)[0] == "." by {
      assert "./" + x == "." + "/" + x;
      SplitPieces2(".", x);
      assert ("./" + x)[0] == '.';
    }
  }

  /** A relative path not starting with `./` has just its normal components. */
  lemma RelativeKey(p: string, pieces: seq<string>)
    requires Split(p, '/') == pieces && p != [] && p[0] != '/' && pieces[0] != "."
    ensures PathKey(p) == NormalComponents(pieces)
  {
  }

  /** How `/` splits `x/y`. */
  lemma SplitPieces2(x: string, y: string)
    requires '/' !in x && '/' !in y
    ensures Split(x + "/" + y, '/') == [x, y]
  {
    SplitAfterPrefix(x, y, '/');
    SplitNone(y, '/');
  }

  /** How `/` splits `x/y/z`. */
  lemma SplitPieces3(x: string, y: string, z: string)
    requires '/' !in x && '/' !in y && '/' !in z
    ensures Split(x + "/" + y + "/" + z, '/') == [x, y, z]
  {
    assert x + "/" + y + "/" + z == x + ['/'] + (y + ['/'] + z);
    SplitAfterPrefixes(x, y, z, '/');
    SplitNone(z, '/');
  }

  /** One more piece adds its component at the end. */
  lemma NormalSnoc(pieces: seq<string>, x: string)
    ensures NormalComponents(pieces + [x]) == NormalComponents(pieces) + Component(x)
  {
    assert (pieces + [x])[..|pieces|] == pieces;
  }

  /** The components of two pieces. */
  lemma NormalTwo(x: string, y: string)
    ensures NormalComponents([x, y]) == Component(x) + Component(y)
  {
    assert [x, y] == [x] + [y];
    assert [x] == [] + [x];
    NormalSnoc([x], y);
    NormalSnoc([], x);
  }

  /** The components of three pieces. */
  lemma NormalThree(x: string, y: string, z: string)
    ensures NormalComponents([x, y, z]) == Component(x) + Component(y) + Component(z)
  {
    assert [x, y, z] == [x, y] + [z];
    NormalSnoc([x, y], z);
    NormalTwo(x, y);
  }

  // ----------------------------------------------------------------------
  // Jump-back

  /** The entries `prev_anchor` considers: at most the `LOOKBACK` most recent. */
  function Window(recent: seq<CursorAnchor>): (w: seq<CursorAnchor>)
    ensures |w| <= LOOKBACK && w <= recent
    ensures |recent| <= LOOKBACK ==> w == recent
    ensures |recent| > LOOKBACK ==> w == recent[..LOOKBACK]
  {
    if |recent| <= LOOKBACK then recent else recent[..LOOKBACK]
  }

  /** The first position whose entry satisfies `p`, if any. */
  function FirstWhere<T>(w: seq<T>, p: T -> bool): (r: Option<nat>)
    ensures r.Some? ==> r.value < |w| && p(w[r.value])
    ensures r.Some? ==> forall k :: 0 <= k < r.value ==> !p(w[k])
    ensures r.None? <==> forall k :: 0 <= k < |w| ==> !p(w[k])
  {
    if w == [] then None
    else if p(w[0]) then Some(0)
    else match FirstWhere(w[1..], p)
      case None => None
      case Some(i) => Some(i + 1)
  }

  /** The first position satisfying `p` is the only one with no earlier such position. */
  lemma FirstWhereUnique<T>(w: seq<T>, p: T -> bool, i: nat)
    requires i < |w| && p(w[i]) && forall k :: 0 <= k < i ==> !p(w[k])
    ensures FirstWhere(w, p) == Some(i)
  {
  }

  /** The position right after the first one satisfying `p`, when there is one. */
  function NextWhere<T>(w: seq<T>, p: T -> bool): (r: Option<T>)
    ensures r.Some? ==> r.value in w
    ensures forall i ::
      (0 <= i < |w| - 1 && p(w[i]) && forall k :: 0 <= k < i ==> !p(w[k])) ==> r == Some(w[i + 1])
    ensures (forall k :: 0 <= k < |w| - 1 ==> !p(w[k])) ==> r.None?
  {
    assert forall i :: (0 <= i < |w| && p(w[i]) && forall k :: 0 <= k < i ==> !p(w[k])) ==> FirstWhere(w, p) == Some(i) by {
      forall i | 0 <= i < |w| && p(w[i]) && forall k :: 0 <= k < i ==> !p(w[k]) {
        FirstWhereUnique(w, p, i);
      }
    }
    match FirstWhere(w, p)
    case Some(i) => if i + 1 < |w| then Some(w[i + 1]) else None
    case None => None
  }

  /** The first entry whose path equals `path`, if any: what `find(|a| a.path == current.path)` returns. */
  function FirstIndexWithPath(w: seq<CursorAnchor>, path: string): (r: Option<nat>)
    ensures r.Some? ==> r.value < |w| && SamePath(w[r.value].path, path)
    ensures r.Some? ==> forall k :: 0 <= k < r.value ==> !SamePath(w[k].path, path)
    ensures r.None? <==> forall k :: 0 <= k < |w| ==> !SamePath(w[k].path, path)
  {
    FirstWhere(w, (a: CursorAnchor) => SamePath(a.path, path))
  }

  /** `skip_while(|a| a != current).nth(1)`: the entry right after the first one equal to `current`. */
  function NextAfterMatch(w: seq<CursorAnchor>, current: CursorAnchor): (r: Option<CursorAnchor>)
    ensures r.Some? ==> r.value in w
    ensures forall i ::
      (0 <= i < |w| - 1 && SameAnchor(w[i], current) && forall k :: 0 <= k < i ==> !SameAnchor(w[k], current))
      ==> r == Some(w[i + 1])
    ensures (forall k :: 0 <= k < |w| - 1 ==> !SameAnchor(w[k], current)) ==> r.None?
  {
    NextWhere(w, (a: CursorAnchor) => SameAnchor(a, current))
  }

  /** `find(|a| a.path == current.path)`: the first entry with the given path. */
  function FindSamePath(w: seq<CursorAnchor>, path: string): (r: Option<CursorAnchor>)
    ensures r.None? <==> forall k :: 0 <= k < |w| ==> !SamePath(w[k].path, path)
    ensures r.Some? ==>
      SamePath(r.value.path, path)
      && exists i :: 0 <= i < |w| && w[i] == r.value && forall k :: 0 <= k < i ==> !SamePath(w[k].path, path)
  {
    match FirstIndexWithPath(w, path)
    case Some(i) => Some(w[i])
    case None => None
  }

  /**
    `prev_anchor`: within the window, the entry right after the first one equal
    to `current`; failing that, the first entry with `current`'s path (which may
    be `current` itself).
  */
  function PrevAnchor(recent: seq<CursorAnchor>, current: CursorAnchor): (r: Option<CursorAnchor>)
    ensures r.Some? ==> r.value in Window(recent)
    ensures var w := Window(recent);
      forall i ::
        (0 <= i < |w| - 1 && SameAnchor(w[i], current) && forall k :: 0 <= k < i ==> !SameAnchor(w[k], current))
        ==> r == Some(w[i + 1])
    ensures var w := Window(recent);
      (forall k :: 0 <= k < |w| - 1 ==> !SameAnchor(w[k], current)) ==>
        (r.None? <==> forall k :: 0 <= k < |w| ==> !SamePath(w[k].path, current.path))
        && (r.Some? ==>
              SamePath(r.value.path, current.path)
              && exists i :: 0 <= i < |w| && w[i] == r.value
                   && forall k :: 0 <= k < i ==> !SamePath(w[k].path, current.path))
  {
    var w := Window(recent);
    var after := NextAfterMatch(w, current);
    if after.Some? then after else FindSamePath(w, current.path)
  }

  /** Jumping back from `x/y` finds the entry recorded as `x//y`: paths are compared by component. */
  lemma PrevAnchorRespelled(x: string, y: string, line: NonZeroUsize, character: NonZeroUsize, next: CursorAnchor)
    requires PlainName(x) && PlainName(y)
    ensures PrevAnchor([CursorAnchor(x + "//" + y, line, character), next],
                       CursorAnchor(x + "/" + y, line, character)) == Some(next)
  {
    var w := [CursorAnchor(x + "//" + y, line, character), next];
    var current := CursorAnchor(x + "/" + y, line, character);
    SamePathSpellings(x, y);
    assert SameAnchor(w[0], current);
    assert Window(w) == w;
  }
}
