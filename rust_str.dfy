/**
  The parts of Rust's standard string library that the editor core leans on:
  `str::lines`, `str::trim`, `str::split`, `str::splitn(3, _)`, parsing a
  `usize` / `NonZeroUsize`, the decimal `Display` of an integer, and
  `str::len`, which counts UTF-8 bytes rather than characters.
*/
module RustStr {
  import opened Wrappers

  /** `usize::MAX` on a 64-bit target. */
  const USIZE_MAX: nat := 0xFFFF_FFFF_FFFF_FFFF

  type Usize = n: nat | n <= USIZE_MAX
  type NonZeroUsize = n: nat | 1 <= n <= USIZE_MAX witness 1

  // ----------------------------------------------------------------------
  // Sequence bookkeeping

  /** The pieces of `a + [x] + b` are where they were put. */
  lemma JoinParts<T>(a: seq<T>, x: T, b: seq<T>)
    ensures (a + [x] + b)[..|a|] == a
    ensures (a + [x] + b)[|a|] == x
    ensures (a + [x] + b)[|a| + 1..] == b
  {
  }

  /** A sequence is its prefix, the element at `i` and its suffix. */
  lemma SplitAround<T>(s: seq<T>, i: nat)
    requires i < |s|
    ensures s == s[..i] + [s[i]] + s[i + 1..]
  {
  }

  /** The ends of `a + [x] + b`. */
  lemma JoinEnds<T>(a: seq<T>, x: T, b: seq<T>)
    ensures (a + [x] + b)[0] == if a == [] then x else a[0]
    ensures (a + [x] + b)[|a + [x] + b| - 1] == if b == [] then x else b[|b| - 1]
  {
  }

  /** The first three elements of `[x, y, z] + rest`. */
  lemma FirstThree<T>(x: T, y: T, z: T, rest: seq<T>)
    ensures |[x, y, z] + rest| >= 3
    ensures ([x, y, z] + rest)[0] == x && ([x, y, z] + rest)[1] == y && ([x, y, z] + rest)[2] == z
  {
  }

  lemma AppendAssoc<T>(a: seq<T>, b: seq<T>, c: seq<T>)
    ensures a + b + c == a + (b + c)
  {
  }

  /** Cutting `s + u` around a position inside `s`. */
  lemma AppendSlices<T>(s: seq<T>, u: seq<T>, i: nat)
    requires i < |s|
    ensures (s + u)[..i] == s[..i]
    ensures (s + u)[i + 1..] == s[i + 1..] + u
  {
  }

  lemma ConsTwo<T>(x: T, y: T, r: seq<T>)
    ensures [x] + ([y] + r) == [x, y] + r
  {
  }

  /** What a sequence lacks, its two sides around an index lack too. */
  lemma NotInParts<T>(s: seq<T>, i: nat, c: T)
    requires i < |s| && c !in s
    ensures c !in s[..i] && c !in s[i + 1..]
  {
    assert s == s[..i] + [s[i]] + s[i + 1..];
  }

  // ----------------------------------------------------------------------
  // Searching

  /** Number of occurrences of `c` in `s`. */
  function Count(s: string, c: char): nat
  {
    if s == [] then 0 else (if s[0] == c then 1 else 0) + Count(s[1..], c)
  }

  lemma {:induction false} CountAppend(a: string, b: string, c: char)
    ensures Count(a + b, c) == Count(a, c) + Count(b, c)
  {
    if a == [] {
      assert a + b == b;
    } else {
      assert (a + b)[0] == a[0];
      assert (a + b)[1..] == a[1..] + b;
      CountAppend(a[1..], b, c);
    }
  }

  lemma {:induction false} CountAbsent(s: string, c: char)
    ensures Count(s, c) == 0 <==> c !in s
  {
    if s != [] {
      CountAbsent(s[1..], c);
      assert s == [s[0]] + s[1..];
    }
  }

  /** The index of the first `c` in `s`, if there is one. */
  function FindChar(s: string, c: char): (r: Option<nat>)
    ensures r.Some? ==> r.value < |s| && s[r.value] == c && c !in s[..r.value]
    ensures r.None? <==> c !in s
  {
    if s == [] then None
    else if s[0] == c then Some(0)
    else match FindChar(s[1..], c)
      case None => assert s == [s[0]] + s[1..]; None
      case Some(i) => assert s[..i + 1] == [s[0]] + s[1..][..i]; Some(i + 1)
  }

  /** Searching a concatenation stops inside the first part when it can. */
  lemma FindCharInPrefix(a: string, b: string, c: char)
    requires c in a
    ensures FindChar(a + b, c) == FindChar(a, c)
  {
    var i := FindChar(a, c).value;
    assert (a + b)[i] == c;
  }

  // ----------------------------------------------------------------------
  // str::lines

  predicate EndsWithCR(s: string)
  {
    |s| > 0 && s[|s| - 1] == '\r'
  }

  /** A `\r` directly before the `\n` belongs to the terminator. */
  function StripCR(line: string): (r: string)
    ensures r <= line
    ensures !EndsWithCR(line) ==> r == line
  {
    if EndsWithCR(line) then line[..|line| - 1] else line
  }

  /**
    `str::lines`: split at every `\n`, drop a `\r` that directly precedes it,
    and do not produce an empty line after a final terminator.
  */
  function Lines(s: string): (ls: seq<string>)
    ensures forall k :: 0 <= k < |ls| ==> '\n' !in ls[k]
    ensures |ls| <= |s|
    decreases |s|
  {
    if s == [] then []
    else match FindChar(s, '\n')
      case None => [s]
      case Some(i) =>
        var line := StripCR(s[..i]);
        assert line == s[..i][..|line|];
        [line] + Lines(s[i + 1..])
  }

  /** The first line of `s` ends at its first `\n`. */
  lemma LinesAt(s: string, i: nat)
    requires FindChar(s, '\n') == Some(i)
    ensures Lines(s) == [StripCR(s[..i])] + Lines(s[i + 1..])
  {
  }

  /** Each line followed by `\n`: what writing the lines back with `writeln!` gives. */
  function Terminated(ls: seq<string>): string
  {
    if ls == [] then "" else ls[0] + "\n" + Terminated(ls[1..])
  }

  /** Writing a first line puts it and its terminator in front. */
  lemma TerminatedCons(x: string, ls: seq<string>)
    ensures Terminated([x] + ls) == x + "\n" + Terminated(ls)
  {
    assert ([x] + ls)[0] == x;
    assert ([x] + ls)[1..] == ls;
  }

  /** Writing one more line appends it and its terminator. */
  lemma {:induction false} TerminatedSnoc(ls: seq<string>, x: string)
    ensures Terminated(ls + [x]) == Terminated(ls) + x + "\n"
  {
    if ls == [] {
      assert ls + [x] == [x];
    } else {
      assert (ls + [x])[0] == ls[0];
      assert (ls + [x])[1..] == ls[1..] + [x];
      TerminatedSnoc(ls[1..], x);
    }
  }

  /** Lines free of `\n`, written with terminators, hold exactly one `\n` each. */
  lemma {:induction false} CountTerminated(ls: seq<string>)
    requires forall k :: 0 <= k < |ls| ==> '\n' !in ls[k]
    ensures Count(Terminated(ls), '\n') == |ls|
  {
    if ls != [] {
      CountTerminated(ls[1..]);
      CountAbsent(ls[0], '\n');
      CountAppend(ls[0], "\n", '\n');
      CountAppend(ls[0] + "\n", Terminated(ls[1..]), '\n');
    }
  }

  predicate NewlineTerminated(s: string)
  {
    s == [] || s[|s| - 1] == '\n'
  }

  /** Content without `\r` that is empty or ends in `\n` is rebuilt exactly from its lines. */
  lemma {:induction false} LinesRoundTrip(s: string)
    requires '\r' !in s && NewlineTerminated(s)
    ensures Terminated(Lines(s)) == s
    decreases |s|
  {
    if s != [] {
      var i := FindChar(s, '\n').value;
      var line, rest := s[..i], s[i + 1..];
      NotInParts(s, i, '\r');
      assert rest == [] || rest[|rest| - 1] == s[|s| - 1];
      LinesRoundTrip(rest);
      LinesAt(s, i);
      TerminatedCons(line, Lines(rest));
      SplitAround(s, i);
    }
  }

  /** Lines without terminators read back from their terminated text unchanged. */
  lemma {:induction false} LinesOfTerminated(ls: seq<string>)
    requires forall k :: 0 <= k < |ls| ==> '\n' !in ls[k] && !EndsWithCR(ls[k])
    ensures Lines(Terminated(ls)) == ls
  {
    if ls != [] {
      var x, t := ls[0], Terminated(ls[1..]);
      var s := x + ['\n'] + t;
      assert Terminated(ls) == s;
      FindAfterPrefix(x, t, '\n');
      JoinParts(x, '\n', t);
      LinesAt(s, |x|);
      LinesOfTerminated(ls[1..]);
    }
  }

  /** A single terminated line reads back as itself. */
  lemma LinesOneLine(x: string)
    requires '\n' !in x && !EndsWithCR(x)
    ensures Lines(x + "\n") == [x]
  {
    var t := x + ['\n'] + [];
    assert t == x + "\n";
    FindAfterPrefix(x, [], '\n');
    JoinParts(x, '\n', []);
    LinesAt(t, |x|);
  }

  /** Appending one terminated line to terminated content appends exactly that line. */
  lemma {:induction false} LinesAppendLine(s: string, x: string)
    requires NewlineTerminated(s)
    requires '\n' !in x && !EndsWithCR(x)
    ensures Lines(s + x + "\n") == Lines(s) + [x]
    decreases |s|
  {
    if s == [] {
      assert s + x + "\n" == x + "\n";
      LinesOneLine(x);
    } else {
      var i := FindChar(s, '\n').value;
      var first, rest := [StripCR(s[..i])], s[i + 1..];
      LinesAppendStep(s, x, i);
      LinesAppendLine(rest, x);
      LinesAt(s, i);
      AppendAssoc(first, Lines(rest), [x]);
    }
  }

  /** Peeling the first line off `s + x + "\n"` leaves the same problem on the rest of `s`. */
  lemma LinesAppendStep(s: string, x: string, i: nat)
    requires FindChar(s, '\n') == Some(i)
    ensures NewlineTerminated(s) ==> NewlineTerminated(s[i + 1..])
    ensures Lines(s + x + "\n") == [StripCR(s[..i])] + Lines(s[i + 1..] + x + "\n")
  {
    var u := x + "\n";
    assert s + x + "\n" == s + u && s[i + 1..] + x + "\n" == s[i + 1..] + u by {
      AppendAssoc(s, x, "\n");
      AppendAssoc(s[i + 1..], x, "\n");
    }
    assert FindChar(s + u, '\n') == Some(i) by {
      FindCharInPrefix(s, u, '\n');
    }
    assert (s + u)[..i] == s[..i] && (s + u)[i + 1..] == s[i + 1..] + u by {
      AppendSlices(s, u, i);
    }
    LinesAt(s + u, i);
  }

  /** A line ends at `\n` or `\r\n`; a `\r` anywhere else stays in the line. */
  lemma LinesLineEndings(x: string)
    requires '\n' !in x && !EndsWithCR(x)
    ensures Lines(x + "\n") == [x]
    ensures Lines(x + "\r\n") == [x]
  {
    LinesOneLine(x);
    var y := x + "\r";
    var t := y + ['\n'] + [];
    assert t == x + "\r\n";
    FindAfterPrefix(y, [], '\n');
    JoinParts(y, '\n', []);
    LinesAt(t, |y|);
    assert StripCR(y) == x;
  }

  /** A final terminator does not add an empty line. */
  lemma {:induction false} LinesFinalTerminator(s: string)
    requires s != [] && s[|s| - 1] != '\n' && !EndsWithCR(s)
    ensures Lines(s + "\n") == Lines(s)
    decreases |s|
  {
    var t := s + "\n";
    match FindChar(s, '\n')
    case None =>
      assert t[|s|] == '\n' && t[..|s|] == s;
      assert FindChar(t, '\n') == Some(|s|);
      assert t[|s| + 1..] == [];
    case Some(i) =>
      FindCharInPrefix(s, "\n", '\n');
      assert t[..i] == s[..i];
      var rest := s[i + 1..];
      assert t[i + 1..] == rest + "\n";
      assert rest != [] && rest[|rest| - 1] == s[|s| - 1];
      LinesFinalTerminator(rest);
  }

  /** One line per `\n`, plus one for an unterminated last line. */
  lemma {:induction false} LinesCount(s: string)
    ensures |Lines(s)| == Count(s, '\n') + (if s != [] && s[|s| - 1] != '\n' then 1 else 0)
    decreases |s|
  {
    if s != [] {
      match FindChar(s, '\n')
      case None =>
        CountAbsent(s, '\n');
      case Some(i) =>
        var rest := s[i + 1..];
        LinesAt(s, i);
        CountSplit(s, i, '\n');
        LinesCount(rest);
        assert rest == [] ==> s[|s| - 1] == '\n';
        assert rest != [] ==> rest[|rest| - 1] == s[|s| - 1];
    }
  }

  // ----------------------------------------------------------------------
  // str::trim

  /** `char::is_whitespace`: the Unicode White_Space property. */
  predicate IsWhitespace(c: char)
  {
    ('\t' <= c <= '\r') || c == ' ' || c == '\U{85}' || c == '\U{A0}' || c == '\U{1680}'
    || ('\U{2000}' <= c <= '\U{200A}') || c == '\U{2028}' || c == '\U{2029}'
    || c == '\U{202F}' || c == '\U{205F}' || c == '\U{3000}'
  }

  function TrimStart(s: string): (r: string)
    ensures |r| <= |s| && r == s[|s| - |r|..]
    ensures forall i :: 0 <= i < |s| - |r| ==> IsWhitespace(s[i])
    ensures r == [] || !IsWhitespace(r[0])
  {
    if s != [] && IsWhitespace(s[0]) then TrimStart(s[1..]) else s
  }

  function TrimEnd(s: string): (r: string)
    ensures |r| <= |s| && r == s[..|r|]
    ensures forall i :: |r| <= i < |s| ==> IsWhitespace(s[i])
    ensures r == [] || !IsWhitespace(r[|r| - 1])
  {
    if s != [] && IsWhitespace(s[|s| - 1]) then TrimEnd(s[..|s| - 1]) else s
  }

  /** `str::trim`: the longest infix without white space at either end. */
  function Trim(s: string): (r: string)
    ensures r == [] || (!IsWhitespace(r[0]) && !IsWhitespace(r[|r| - 1]))
    ensures |r| <= |TrimStart(s)| && r == TrimStart(s)[..|r|]
  {
    TrimEnd(TrimStart(s))
  }

  lemma TrimUnpadded(s: string)
    requires s == [] || (!IsWhitespace(s[0]) && !IsWhitespace(s[|s| - 1]))
    ensures Trim(s) == s
  {
  }

  /**
    Trimming removes white space and nothing else: the result is the part of `s`
    from `TrimOffset(s)` on, and everything before it and after the result is white space.
  */
  lemma TrimSpec(s: string)
    ensures TrimOffset(s) + |Trim(s)| <= |s|
    ensures Trim(s) == s[TrimOffset(s)..TrimOffset(s) + |Trim(s)|]
    ensures forall i :: 0 <= i < TrimOffset(s) ==> IsWhitespace(s[i])
    ensures forall i :: TrimOffset(s) + |Trim(s)| <= i < |s| ==> IsWhitespace(s[i])
  {
    var t := TrimStart(s);
    assert Trim(s) == TrimEnd(t);
    TrimSlice(s, t, Trim(s));
    TrimTail(s, t, Trim(s));
  }

  /** Where the trimmed text starts in `s`. */
  function TrimOffset(s: string): nat
  {
    |s| - |TrimStart(s)|
  }

  lemma TrimSlice(s: string, t: string, r: string)
    requires |t| <= |s| && t == s[|s| - |t|..]
    requires |r| <= |t| && r == t[..|r|]
    ensures |s| - |t| + |r| <= |s| && r == s[|s| - |t|..|s| - |t| + |r|]
  {
  }

  lemma TrimTail(s: string, t: string, r: string)
    requires |t| <= |s| && t == s[|s| - |t|..]
    requires |r| <= |t| && forall i :: |r| <= i < |t| ==> IsWhitespace(t[i])
    ensures forall i :: |s| - |t| + |r| <= i < |s| ==> IsWhitespace(s[i])
  {
    forall i | |s| - |t| + |r| <= i < |s|
      ensures IsWhitespace(s[i])
    {
      assert s[i] == t[i - (|s| - |t|)];
    }
  }

  /** Trimming twice is trimming once. */
  lemma TrimIdempotent(s: string)
    ensures Trim(Trim(s)) == Trim(s)
  {
    TrimUnpadded(Trim(s));
  }

  // ----------------------------------------------------------------------
  // str::split and str::splitn

  /** `str::split(c)`: the pieces between the occurrences of `c`; there is always one. */
  function Split(s: string, c: char): (r: seq<string>)
    ensures |r| >= 1
    ensures forall k :: 0 <= k < |r| ==> c !in r[k]
    ensures |r| == 1 <==> c !in s
    decreases |s|
  {
    match FindChar(s, c)
    case None => [s]
    case Some(i) => [s[..i]] + Split(s[i + 1..], c)
  }

  /** The pieces put back together with `c` between them. */
  function JoinWith(ps: seq<string>, c: char): string
  {
    if |ps| <= 1 then (if ps == [] then "" else ps[0])
    else ps[0] + [c] + JoinWith(ps[1..], c)
  }

  /** Splitting loses nothing: joining the pieces with `c` gives the input back. */
  lemma {:induction false} SplitJoin(s: string, c: char)
    ensures JoinWith(Split(s, c), c) == s
    decreases |s|
  {
    match FindChar(s, c)
    case None =>
    case Some(i) =>
      var rest := s[i + 1..];
      SplitJoin(rest, c);
      var ps := Split(s, c);
      assert ps == [s[..i]] + Split(rest, c);
      assert ps[1..] == Split(rest, c);
      SplitAtFirst(s, i, c);
  }

  /** Without a separator there is one piece: the whole input. */
  lemma SplitNone(s: string, c: char)
    requires c !in s
    ensures Split(s, c) == [s]
  {
  }

  /** The first `c` after a `c`-free prefix is the one right after it. */
  lemma FindAfterPrefix(a: string, b: string, c: char)
    requires c !in a
    ensures FindChar(a + [c] + b, c) == Some(|a|)
  {
    JoinParts(a, c, b);
  }

  /** Splitting peels off a `c`-free prefix as the first piece. */
  lemma SplitAfterPrefix(a: string, b: string, c: char)
    requires c !in a
    ensures Split(a + [c] + b, c) == [a] + Split(b, c)
  {
    FindAfterPrefix(a, b, c);
    JoinParts(a, c, b);
  }

  /** Splitting peels off two `c`-free pieces in turn. */
  lemma {:induction false} SplitAfterPrefixes(a: string, b: string, rest: string, c: char)
    requires c !in a && c !in b
    ensures Split(a + [c] + (b + [c] + rest), c) == [a, b] + Split(rest, c)
  {
    var t := b + [c] + rest;
    SplitAfterPrefix(b, rest, c);
    SplitAfterPrefix(a, t, c);
    ConsTwo(a, b, Split(rest, c));
  }

  /**
    The three items of `str::splitn(3, c)`, when there are three: the text before
    the first `c`, the text between the first two, and everything after the second.
  */
  function SplitN3(s: string, c: char): (r: Option<(string, string, string)>)
    ensures r.Some? ==> s == r.value.0 + [c] + (r.value.1 + [c] + r.value.2)
    ensures r.Some? ==> c !in r.value.0 && c !in r.value.1
    ensures r.Some? ==> |r.value.0| < |s| && s[..|r.value.0|] == r.value.0 && s[|r.value.0|] == c
  {
    match FindChar(s, c)
    case None => None
    case Some(i) =>
      var rest := s[i + 1..];
      match FindChar(rest, c)
      case None => None
      case Some(j) =>
        SplitAtFirst(s, i, c);
        SplitAtFirst(rest, j, c);
        Some((s[..i], rest[..j], rest[j + 1..]))
  }

  /** A string is the text before its first `c`, that `c`, and the text after. */
  lemma SplitAtFirst(s: string, i: nat, c: char)
    requires FindChar(s, c) == Some(i)
    ensures s == s[..i] + [c] + s[i + 1..]
    ensures c !in s[..i]
  {
    assert s[i] == c;
  }

  /** A string built from three pieces and two separators counts the pieces' occurrences plus two. */
  lemma CountFields(a: string, b: string, rest: string, c: char)
    ensures Count(a + [c] + (b + [c] + rest), c) == Count(a, c) + Count(b, c) + Count(rest, c) + 2
  {
    CountAppend(a, [c] + (b + [c] + rest), c);
    assert a + [c] + (b + [c] + rest) == a + ([c] + (b + [c] + rest));
    CountAppend([c], b + [c] + rest, c);
    CountAppend(b, [c] + rest, c);
    assert b + [c] + rest == b + ([c] + rest);
    CountAppend([c], rest, c);
  }

  /** Two separators after `c`-free pieces are the ones `splitn(3, c)` uses. */
  lemma SplitN3Prefix(a: string, b: string, rest: string, c: char)
    requires c !in a && c !in b
    ensures SplitN3(a + [c] + (b + [c] + rest), c) == Some((a, b, rest))
  {
    var s := a + [c] + (b + [c] + rest);
    FindAfterPrefix(a, b + [c] + rest, c);
    assert s[..|a|] == a;
    assert s[|a| + 1..] == b + [c] + rest;
    FindAfterPrefix(b, rest, c);
    var r := b + [c] + rest;
    assert r[..|b|] == b && r[|b| + 1..] == rest;
  }

  /** `splitn(3, c)` yields three items exactly when `c` occurs at least twice. */
  lemma SplitN3Fields(s: string, c: char)
    ensures SplitN3(s, c).None? <==> Count(s, c) < 2
  {
    match FindChar(s, c)
    case None =>
      CountAbsent(s, c);
    case Some(i) =>
      var rest := s[i + 1..];
      CountSplit(s, i, c);
      match FindChar(rest, c)
      case None =>
        CountAbsent(rest, c);
      case Some(j) =>
        CountSplit(rest, j, c);
  }

  /** Around its first occurrence, `c` is counted once plus whatever follows. */
  lemma CountSplit(s: string, i: nat, c: char)
    requires FindChar(s, c) == Some(i)
    ensures Count(s, c) == 1 + Count(s[i + 1..], c)
  {
    var rest := s[i + 1..];
    assert s == s[..i] + ([c] + rest);
    CountAppend(s[..i], [c] + rest, c);
    CountAppend([c], rest, c);
    CountAbsent(s[..i], c);
  }

  // ----------------------------------------------------------------------
  // Decimal numbers

  predicate IsDigit(c: char)
  {
    '0' <= c <= '9'
  }

  predicate AllDigits(s: string)
  {
    forall i :: 0 <= i < |s| ==> IsDigit(s[i])
  }

  /** The value of a string of decimal digits, most significant first. */
  function DigitsValue(s: string): nat
    requires AllDigits(s)
  {
    if s == [] then 0
    else 10 * DigitsValue(s[..|s| - 1]) + (s[|s| - 1] as int - '0' as int)
  }

  /**
    `s.parse::<usize>()`: an optional leading `+`, then at least one ASCII digit
    (leading zeros allowed), and a value that fits in a `usize`.
  */
  function ParseUsize(s: string): (r: Option<Usize>)
    ensures r.Some? ==> s != [] && forall i :: 0 <= i < |s| ==> IsDigit(s[i]) || (i == 0 && s[i] == '+')
    ensures AllDigits(s) && s != [] && DigitsValue(s) <= USIZE_MAX ==> r == Some(DigitsValue(s))
  {
    var digits := if |s| > 0 && s[0] == '+' then s[1..] else s;
    if digits != [] && AllDigits(digits) && DigitsValue(digits) <= USIZE_MAX
    then Some(DigitsValue(digits))
    else None
  }

  /** `s.parse::<NonZeroUsize>()`: a `usize` as above that is not zero. */
  function ParseNonZeroUsize(s: string): (r: Option<NonZeroUsize>)
    ensures r.Some? <==> ParseUsize(s).Some? && ParseUsize(s).value != 0
    ensures r.Some? ==> r.value == ParseUsize(s).value
  {
    match ParseUsize(s)
    case Some(n) => if n == 0 then None else Some(n)
    case None => None
  }

  /**
    The whole of `usize::from_str`: a leading `+` is dropped once, a lone `+`
    is rejected, and a digit run too large for a `usize` is rejected.
  */
  lemma ParseUsizeSpec(s: string)
    ensures s == "+" ==> ParseUsize(s).None?
    ensures |s| >= 2 && s[0] == '+' && s[1] != '+' ==> ParseUsize(s) == ParseUsize(s[1..])
    ensures s != [] && AllDigits(s) && DigitsValue(s) > USIZE_MAX ==> ParseUsize(s).None?
  {
    if |s| >= 2 && s[0] == '+' && s[1] != '+' {
      assert s[1..][0] != '+';
    }
  }

  /** A string that parses as a number holds no character other than digits and a leading `+`. */
  lemma ParsedHasNo(s: string, c: char)
    requires ParseUsize(s).Some?
    requires !IsDigit(c) && c != '+'
    ensures c !in s
  {
  }

  /** `Display` of an unsigned integer: decimal digits without leading zeros. */
  function Decimal(n: nat): (r: string)
    ensures r != [] && AllDigits(r)
    ensures DigitsValue(r) == n
    ensures r[0] == '0' ==> n == 0
  {
    if n < 10 then [('0' as int + n) as char]
    else
      var h := Decimal(n / 10);
      var r := h + [('0' as int + n % 10) as char];
      assert r[..|r| - 1] == h;
      r
  }

  /** Parsing the displayed form of a non-zero `usize` gives it back. */
  lemma ParseDecimal(n: NonZeroUsize)
    ensures ParseNonZeroUsize(Decimal(n)) == Some(n)
  {
    var d := Decimal(n);
    assert d[0] != '+';
  }

  // ----------------------------------------------------------------------
  // UTF-8 length

  /** Bytes taken by one scalar value in UTF-8. */
  function Utf8CharLen(c: char): (k: nat)
    ensures 1 <= k <= 4
    ensures k == 1 <==> c < '\U{80}'
  {
    if c < '\U{80}' then 1
    else if c < '\U{800}' then 2
    else if c < '\U{10000}' then 3
    else 4
  }

  /** `str::len`: the number of UTF-8 bytes. */
  function Utf8Len(s: string): (n: nat)
    ensures |s| <= n <= 4 * |s|
  {
    if s == [] then 0 else Utf8CharLen(s[0]) + Utf8Len(s[1..])
  }

  /** A byte length of one means exactly one ASCII character. */
  lemma Utf8LenOne(s: string)
    ensures Utf8Len(s) == 1 <==> |s| == 1 && s[0] < '\U{80}'
  {
    if |s| >= 2 {
      assert Utf8Len(s) == Utf8CharLen(s[0]) + Utf8Len(s[1..]);
    }
  }
}
