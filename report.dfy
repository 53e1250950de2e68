/** What grip prints, as functions of its inputs. The regular-expression
    engine, the file system, the directory walker and standard input are
    values handed in; every effect of the program is the sequence of lines it
    prints and the way it ends. */
module Report {
  import opened Text
  import opened Ansi

  datatype Option<T> = None | Some(value: T)

  // ---------------------------------------------------------------------
  // The regex crate, left abstract
  // ---------------------------------------------------------------------

  /** `compiles(p)`: `Regex::new(p)` succeeds. `find(p, line)`: what
      `Regex::find` of the compiled `p` returns on `line` (the matched text),
      or `None` when `p` does not match `line`. */
  datatype Engine = Engine(compiles: string -> bool, find: (string, string) -> Option<string>)

  /** The values every `grip_*` function is handed: the pattern set, the
      compiled patterns in the same order, and whether to colour. */
  datatype Search = Search(engine: Engine, patterns: seq<string>, useColor: bool)

  predicate Matches(engine: Engine, patterns: seq<string>, i: nat, line: string)
    requires i < |patterns|
  {
    engine.find(patterns[i], line).Some?
  }

  predicate StrictlyIncreasing(xs: seq<nat>)
  {
    forall j, k :: 0 <= j < k < |xs| ==> xs[j] < xs[k]
  }

  function FiredFrom(engine: Engine, patterns: seq<string>, line: string, from: nat): (r: seq<nat>)
    requires from <= |patterns|
    ensures StrictlyIncreasing(r)
    ensures forall k :: 0 <= k < |r| ==> from <= r[k] < |patterns| && Matches(engine, patterns, r[k], line)
    ensures forall i :: from <= i < |patterns| && Matches(engine, patterns, i, line) ==> i in r
    decreases |patterns| - from
  {
    if from == |patterns| then []
    else (if Matches(engine, patterns, from, line) then [from] else []) + FiredFrom(engine, patterns, line, from + 1)
  }

  /** `RegexSet::matches(line)` iterated: the indices of the patterns that
      match the line, in ascending order. The set agrees with the
      individual patterns, so each index has a match to `unwrap`. */
  function Fired(engine: Engine, patterns: seq<string>, line: string): (r: seq<nat>)
    ensures forall k :: 0 <= k < |r| ==> r[k] < |patterns| && Matches(engine, patterns, r[k], line)
  {
    FiredFrom(engine, patterns, line, 0)
  }

  /** Every pattern that matches is reported, once, in pattern order. */
  lemma FiredExactly(engine: Engine, patterns: seq<string>, line: string)
    ensures StrictlyIncreasing(Fired(engine, patterns, line))
    ensures forall i :: 0 <= i < |patterns| ==>
      (i in Fired(engine, patterns, line) <==> Matches(engine, patterns, i, line))
  {
    assert Fired(engine, patterns, line) == FiredFrom(engine, patterns, line, 0);
  }

  /** The text pattern `i` matched in the line. */
  function Found(engine: Engine, patterns: seq<string>, line: string, i: nat): string
    requires i < |patterns| && Matches(engine, patterns, i, line)
  {
    engine.find(patterns[i], line).value
  }

  // ---------------------------------------------------------------------
  // One output line per fired pattern (grip_line)
  // ---------------------------------------------------------------------

  /** `L{n}` with the 0-based line index shown 1-based. */
  function LineToken(lineno: nat): string
  {
    "L" + Decimal(lineno + 1)
  }

  function PlainRecord(prefix: string, lineno: nat, line: string): string
  {
    prefix + LineToken(lineno) + ": " + line
  }

  function ColorRecord(prefix: string, lineno: nat, line: string, mtch: string): string
  {
    Paint(Green, prefix) + Paint(Yellow, LineToken(lineno)) + ": " + Replace(line, mtch, Paint(RedBold, mtch))
  }

  function Record(useColor: bool, prefix: string, lineno: nat, line: string, mtch: string): string
  {
    if useColor then ColorRecord(prefix, lineno, line, mtch) else PlainRecord(prefix, lineno, line)
  }

  /** The record printed for pattern `i` when it matches the line. */
  function RecordFor(s: Search, prefix: string, lineno: nat, line: string): nat -> seq<string>
  {
    (i: nat) =>
      if i < |s.patterns| && Matches(s.engine, s.patterns, i, line)
      then [Record(s.useColor, prefix, lineno, line, Found(s.engine, s.patterns, line, i))]
      else []
  }

  /** Everything `grip_line` prints for one line. */
  function LineReport(s: Search, prefix: string, lineno: nat, line: string): seq<string>
  {
    FlatMap(RecordFor(s, prefix, lineno, line), Fired(s.engine, s.patterns, line))
  }

  /** One record per fired pattern, in the order the set reports them,
      which is ascending pattern order: an earlier record belongs to a
      lower-numbered pattern. */
  lemma LineReportAt(s: Search, prefix: string, lineno: nat, line: string)
    ensures |LineReport(s, prefix, lineno, line)| == |Fired(s.engine, s.patterns, line)|
    ensures StrictlyIncreasing(Fired(s.engine, s.patterns, line))
    ensures forall k :: 0 <= k < |Fired(s.engine, s.patterns, line)| ==>
      LineReport(s, prefix, lineno, line)[k] ==
        Record(s.useColor, prefix, lineno, line, Found(s.engine, s.patterns, line, Fired(s.engine, s.patterns, line)[k]))
  {
    FiredExactly(s.engine, s.patterns, line);
    FlatMapSingletons(RecordFor(s, prefix, lineno, line), Fired(s.engine, s.patterns, line));
  }

  /** The patterns (by index, from `from` on) that match the line. */
  function MatchingFrom(engine: Engine, patterns: seq<string>, line: string, from: nat): set<nat>
  {
    set i: nat | from <= i < |patterns| && Matches(engine, patterns, i, line)
  }

  lemma MatchingFromStep(engine: Engine, patterns: seq<string>, line: string, from: nat)
    requires from < |patterns|
    ensures MatchingFrom(engine, patterns, line, from) ==
      (if Matches(engine, patterns, from, line) then {from} else {}) + MatchingFrom(engine, patterns, line, from + 1)
  {
    var here := MatchingFrom(engine, patterns, line, from);
    var later := MatchingFrom(engine, patterns, line, from + 1);
    var first: set<nat> := if Matches(engine, patterns, from, line) then {from} else {};
    forall i: nat ensures i in here <==> i in first + later {
      if i == from {
      } else {
      }
    }
  }

  lemma {:induction false} FiredFromCount(engine: Engine, patterns: seq<string>, line: string, from: nat)
    requires from <= |patterns|
    ensures |FiredFrom(engine, patterns, line, from)| == |MatchingFrom(engine, patterns, line, from)|
    decreases |patterns| - from
  {
    if from < |patterns| {
      FiredFromCount(engine, patterns, line, from + 1);
      MatchingFromStep(engine, patterns, line, from);
      assert from !in MatchingFrom(engine, patterns, line, from + 1);
    } else {
      assert MatchingFrom(engine, patterns, line, from) == {};
    }
  }

  /** One output line per pattern that matches, none when none does. */
  lemma LineReportCount(s: Search, prefix: string, lineno: nat, line: string)
    ensures |LineReport(s, prefix, lineno, line)| == |MatchingFrom(s.engine, s.patterns, line, 0)|
    ensures LineReport(s, prefix, lineno, line) == [] <==>
      forall i :: 0 <= i < |s.patterns| ==> !Matches(s.engine, s.patterns, i, line)
  {
    FiredFromCount(s.engine, s.patterns, line, 0);
    LineReportAt(s, prefix, lineno, line);
  }

  /** Without colour every printed line is the prefix, `L`, the 1-based line
      number, `: ` and the line itself, identical for every pattern. */
  lemma PlainLineReport(s: Search, prefix: string, lineno: nat, line: string)
    requires !s.useColor
    ensures forall k :: 0 <= k < |LineReport(s, prefix, lineno, line)| ==>
      LineReport(s, prefix, lineno, line)[k] == prefix + "L" + Decimal(lineno + 1) + ": " + line
  {
    LineReportAt(s, prefix, lineno, line);
  }

  /** A coloured line: the prefix in green, `L{n}` in yellow, `: `, then the
      line cut around every occurrence of the matched text, each occurrence
      in bold red. */
  function ColorSpans(prefix: string, lineno: nat, line: string, mtch: string): seq<Span>
  {
    [Styled(Green, prefix), Styled(Yellow, LineToken(lineno)), Plain(": ")]
      + Highlighted(Split(line, mtch), mtch)
  }

  lemma HeadReadings(prefix: string, token: string)
    ensures Render([Styled(Green, prefix), Styled(Yellow, token), Plain(": ")]) ==
      Paint(Green, prefix) + Paint(Yellow, token) + ": "
    ensures Strip([Styled(Green, prefix), Styled(Yellow, token), Plain(": ")]) == prefix + token + ": "
  {
    SpansCons(Plain(": "), []);
    SpansCons(Styled(Yellow, token), [Plain(": ")]);
    SpansCons(Styled(Green, prefix), [Styled(Yellow, token), Plain(": ")]);
  }

  /** The coloured record is what those spans draw, and with the colour
      stripped it is exactly the plain record. */
  lemma ColorRecordReadings(prefix: string, lineno: nat, line: string, mtch: string)
    ensures ColorRecord(prefix, lineno, line, mtch) == Render(ColorSpans(prefix, lineno, line, mtch))
    ensures Strip(ColorSpans(prefix, lineno, line, mtch)) == PlainRecord(prefix, lineno, line)
  {
    var head := [Styled(Green, prefix), Styled(Yellow, LineToken(lineno)), Plain(": ")];
    var body := Highlighted(Split(line, mtch), mtch);
    RenderAppend(head, body);
    StripAppend(head, body);
    HeadReadings(prefix, LineToken(lineno));
    HighlightedReadings(Split(line, mtch), mtch);
    ReplaceIsJoinOfSplit(line, mtch, Paint(RedBold, mtch));
    JoinSplit(line, mtch);
  }

  /** Every occurrence is highlighted, not only the first: once the matched
      text is non-empty, no uncoloured stretch of the line contains it, and
      every coloured stretch is the matched text in bold red. */
  lemma ColorHighlightsEveryOccurrence(prefix: string, lineno: nat, line: string, mtch: string)
    requires mtch != []
    ensures forall k :: 3 <= k < |ColorSpans(prefix, lineno, line, mtch)| ==>
      match ColorSpans(prefix, lineno, line, mtch)[k]
      case Plain(t) => !Contains(t, mtch)
      case Styled(st, t) => st == RedBold && t == mtch
  {
    var pieces := Split(line, mtch);
    var body := Highlighted(pieces, mtch);
    var spans := ColorSpans(prefix, lineno, line, mtch);
    HighlightedSpans(pieces, mtch);
    SplitPiecesAvoid(line, mtch);
    forall k | 3 <= k < |spans|
      ensures match spans[k]
        case Plain(t) => !Contains(t, mtch)
        case Styled(st, t) => st == RedBold && t == mtch
    {
      assert spans[k] == body[k - 3];
      match body[k - 3]
      case Plain(t) =>
        var j :| 0 <= j < |pieces| && pieces[j] == t;
      case Styled(_, _) =>
    }
  }

  /** Colour changes no line's selection: both modes print the same number
      of lines for a line, and each coloured line strips to the plain one. */
  lemma ColorAndPlainAgree(s: Search, prefix: string, lineno: nat, line: string)
    ensures |LineReport(s.(useColor := true), prefix, lineno, line)| == |Fired(s.engine, s.patterns, line)|
    ensures |LineReport(s.(useColor := false), prefix, lineno, line)| == |Fired(s.engine, s.patterns, line)|
    ensures forall k :: 0 <= k < |Fired(s.engine, s.patterns, line)| ==>
      var m := s.engine.find(s.patterns[Fired(s.engine, s.patterns, line)[k]], line).value;
      LineReport(s.(useColor := true), prefix, lineno, line)[k] == Render(ColorSpans(prefix, lineno, line, m)) &&
      Strip(ColorSpans(prefix, lineno, line, m)) == LineReport(s.(useColor := false), prefix, lineno, line)[k]
  {
    var c := s.(useColor := true);
    var p := s.(useColor := false);
    var f := Fired(s.engine, s.patterns, line);
    LineReportAt(c, prefix, lineno, line);
    LineReportAt(p, prefix, lineno, line);
    forall k | 0 <= k < |f|
      ensures var m := s.engine.find(s.patterns[f[k]], line).value;
        LineReport(c, prefix, lineno, line)[k] == Render(ColorSpans(prefix, lineno, line, m)) &&
        Strip(ColorSpans(prefix, lineno, line, m)) == LineReport(p, prefix, lineno, line)[k]
    {
      var m := s.engine.find(s.patterns[f[k]], line).value;
      ColorRecordReadings(prefix, lineno, line, m);
    }
  }

  // ---------------------------------------------------------------------
  // A file or standard input, line by line (grip_file, the stdin loop)
  // ---------------------------------------------------------------------

  /** One item of `BufRead::lines()`: a line without its terminator, or a
      read error (including text that is not UTF-8). */
  datatype LineRead = Read(text: string) | ReadError

  predicate AllRead(items: seq<LineRead>)
  {
    forall k :: 0 <= k < |items| ==> items[k].Read?
  }

  lemma AllReadSnoc(items: seq<LineRead>, k: nat)
    requires k < |items| && AllRead(items[..k]) && items[k].Read?
    ensures AllRead(items[..k + 1])
  {
    assert forall j :: 0 <= j < k ==> items[..k + 1][j] == items[..k][j];
  }

  /** What is printed for `items`, whose first item has 0-based index
      `first`, when `report(n, t)` is printed for the line `t` at index `n`;
      the first read error ends the source. */
  function UntilError(report: (nat, string) -> seq<string>, items: seq<LineRead>, first: nat): seq<string>
    decreases |items|
  {
    if items == [] then []
    else match items[0]
      case ReadError => []
      case Read(t) => report(first, t) + UntilError(report, items[1..], first + 1)
  }

  /** Lines that all read are reported one after another, numbering going on. */
  lemma {:induction false} UntilErrorAppend(report: (nat, string) -> seq<string>, a: seq<LineRead>, b: seq<LineRead>, first: nat)
    requires AllRead(a)
    ensures UntilError(report, a + b, first) == UntilError(report, a, first) + UntilError(report, b, first + |a|)
    decreases |a|
  {
    if a == [] {
      assert a + b == b;
    } else {
      UntilErrorAppend(report, a[1..], b, first + 1);
      assert (a + b)[0] == a[0];
      assert (a + b)[1..] == a[1..] + b;
    }
  }

  /** Nothing after a read error is reported, whatever follows it. */
  lemma {:induction false} UntilErrorStops(report: (nat, string) -> seq<string>, items: seq<LineRead>, j: nat, first: nat)
    requires j < |items| && items[j].ReadError?
    ensures UntilError(report, items, first) == UntilError(report, items[..j], first)
    decreases j
  {
    if j > 0 && items[0].Read? {
      UntilErrorStops(report, items[1..], j - 1, first + 1);
      assert items[..j][0] == items[0];
      assert items[..j][1..] == items[1..][..j - 1];
    }
  }

  lemma UntilErrorRead(report: (nat, string) -> seq<string>, items: seq<LineRead>, first: nat)
    requires items != [] && items[0].Read?
    ensures UntilError(report, items, first) == report(first, items[0].text) + UntilError(report, items[1..], first + 1)
  {
  }

  /** `grip_line` for every line of a source under `prefix`. */
  function LineReporter(s: Search, prefix: string): (nat, string) -> seq<string>
  {
    (n: nat, t: string) => LineReport(s, prefix, n, t)
  }

  /** Everything printed for the lines of a source under `prefix`. */
  function LinesReport(s: Search, prefix: string, items: seq<LineRead>, first: nat): seq<string>
  {
    UntilError(LineReporter(s, prefix), items, first)
  }

  /** Nothing after a read error is reported, whatever follows it. */
  lemma StopsAtReadError(s: Search, prefix: string, items: seq<LineRead>, j: nat, first: nat)
    requires j < |items| && items[j].ReadError?
    ensures LinesReport(s, prefix, items, first) == LinesReport(s, prefix, items[..j], first)
  {
    UntilErrorStops(LineReporter(s, prefix), items, j, first);
  }

  lemma UntilErrorSnoc(report: (nat, string) -> seq<string>, items: seq<LineRead>, k: nat)
    requires k < |items| && AllRead(items[..k]) && items[k].Read?
    ensures UntilError(report, items[..k + 1], 0) == UntilError(report, items[..k], 0) + report(k, items[k].text)
  {
    UntilErrorAppend(report, items[..k], [items[k]], 0);
    assert items[..k + 1] == items[..k] + [items[k]];
    UntilErrorRead(report, [items[k]], k);
    assert [items[k]][1..] == [];
  }

  lemma UntilErrorAt(report: (nat, string) -> seq<string>, items: seq<LineRead>, i: nat)
    requires i < |items| && AllRead(items[..i]) && items[i].Read?
    ensures UntilError(report, items, 0) ==
      UntilError(report, items[..i], 0) + report(i, items[i].text) + UntilError(report, items[i + 1..], i + 1)
  {
    assert AllRead(items[..i + 1]);
    UntilErrorAppend(report, items[..i + 1], items[i + 1..], 0);
    assert items[..i + 1] + items[i + 1..] == items;
    UntilErrorSnoc(report, items, i);
  }

  /** Reading one more line extends what was printed so far by that line's
      records. */
  lemma LinesReportSnoc(before: seq<string>, s: Search, prefix: string, items: seq<LineRead>, k: nat)
    requires k < |items| && AllRead(items[..k]) && items[k].Read?
    ensures before + LinesReport(s, prefix, items[..k], 0) + LineReport(s, prefix, k, items[k].text) ==
      before + LinesReport(s, prefix, items[..k + 1], 0)
  {
    UntilErrorSnoc(LineReporter(s, prefix), items, k);
    AppendAssoc(before, LinesReport(s, prefix, items[..k], 0), LineReport(s, prefix, k, items[k].text));
  }

  /** Line `i` of a source (0-based) is reported under the number `i + 1`,
      after the lines before it and before the lines after it. */
  lemma LineNumbering(s: Search, prefix: string, items: seq<LineRead>, i: nat)
    requires i < |items| && AllRead(items[..i]) && items[i].Read?
    ensures LinesReport(s, prefix, items, 0) ==
      LinesReport(s, prefix, items[..i], 0) + LineReport(s, prefix, i, items[i].text) + LinesReport(s, prefix, items[i + 1..], i + 1)
  {
    UntilErrorAt(LineReporter(s, prefix), items, i);
  }

  /** Without colour every line reported from a source starts with the
      source's prefix followed by `L`. */
  lemma {:induction false} LinesReportLabel(s: Search, prefix: string, items: seq<LineRead>, first: nat)
    requires !s.useColor
    ensures forall k :: 0 <= k < |LinesReport(s, prefix, items, first)| ==>
      prefix + "L" <= LinesReport(s, prefix, items, first)[k]
    decreases |items|
  {
    if items != [] && items[0].Read? {
      LinesReportLabel(s, prefix, items[1..], first + 1);
      var here := LineReport(s, prefix, first, items[0].text);
      var rest := LinesReport(s, prefix, items[1..], first + 1);
      LineReportAt(s, prefix, first, items[0].text);
      forall k | 0 <= k < |here + rest| ensures prefix + "L" <= (here + rest)[k] {
        if k < |here| {
          assert here[k] == PlainRecord(prefix, first, items[0].text);
        } else {
          assert (here + rest)[k] == rest[k - |here|];
        }
      }
    }
  }

  /** Result of `File::open`. */
  datatype OpenResult = CannotOpen | Opened(items: seq<LineRead>)

  function WarningText(path: string): string
  {
    "[WARN] Skipping " + path + ", Permission Denied"
  }

  function Warning(useColor: bool, path: string): string
  {
    if useColor then Paint(RedBold, WarningText(path)) else WarningText(path)
  }

  /** A file's prefix is its path and one space. */
  function FileLabel(path: string): string
  {
    path + " "
  }

  /** Everything `grip_file` prints for `path`. */
  function FileReport(s: Search, open: string -> OpenResult, path: string): seq<string>
  {
    match open(path)
    case CannotOpen => [Warning(s.useColor, path)]
    case Opened(items) => LinesReport(s, FileLabel(path), items, 0)
  }

  /** A file that cannot be opened gives exactly one warning naming it; a
      file that opens gives only lines that start with its path, a space
      and `L`. */
  lemma FileReportShape(s: Search, open: string -> OpenResult, path: string)
    requires !s.useColor
    ensures open(path).CannotOpen? ==>
      FileReport(s, open, path) == ["[WARN] Skipping " + path + ", Permission Denied"]
    ensures open(path).Opened? ==>
      forall k :: 0 <= k < |FileReport(s, open, path)| ==> path + " L" <= FileReport(s, open, path)[k]
  {
    if open(path).Opened? {
      LinesReportLabel(s, FileLabel(path), open(path).items, 0);
      assert FileLabel(path) + "L" == path + " L";
    }
  }

  // ---------------------------------------------------------------------
  // A directory tree (grip_dir)
  // ---------------------------------------------------------------------

  /** What the file's metadata says it is. */
  datatype FileKind = RegularFile | Directory | OtherKind

  /** One item of the `WalkDir` iterator. */
  datatype WalkEntry = WalkError | Entry(path: string, kind: FileKind)

  function EntryReport(s: Search, open: string -> OpenResult, e: WalkEntry): seq<string>
  {
    if e.Entry? && e.kind == RegularFile then FileReport(s, open, e.path) else []
  }

  function EntryReporter(s: Search, open: string -> OpenResult): WalkEntry -> seq<string>
  {
    (e: WalkEntry) => EntryReport(s, open, e)
  }

  /** Everything `grip_dir` prints for the walk's entries, in walk order. */
  function DirReport(s: Search, open: string -> OpenResult, entries: seq<WalkEntry>): seq<string>
  {
    FlatMap(EntryReporter(s, open), entries)
  }

  /** The paths of the entries that were read and are regular files, in
      walk order. */
  function RegularFiles(entries: seq<WalkEntry>): seq<string>
    decreases |entries|
  {
    if entries == [] then []
    else
      (if entries[0].Entry? && entries[0].kind == RegularFile then [entries[0].path] else [])
      + RegularFiles(entries[1..])
  }

  /** The reports of the files, one after another. */
  function FilesReport(s: Search, open: string -> OpenResult, paths: seq<string>): seq<string>
  {
    FlatMap((p: string) => FileReport(s, open, p), paths)
  }

  lemma DirReportAppend(s: Search, open: string -> OpenResult, a: seq<WalkEntry>, b: seq<WalkEntry>)
    ensures DirReport(s, open, a + b) == DirReport(s, open, a) + DirReport(s, open, b)
  {
    FlatMapAppend(EntryReporter(s, open), a, b);
  }

  lemma DirReportPastError(s: Search, open: string -> OpenResult, b: seq<WalkEntry>)
    ensures DirReport(s, open, [WalkError] + b) == DirReport(s, open, b)
  {
    var tail := [WalkError] + b;
    assert tail[0] == WalkError && tail[1..] == b;
  }

  /** A walk error is skipped and the walk goes on. */
  lemma WalkErrorSkipped(s: Search, open: string -> OpenResult, a: seq<WalkEntry>, b: seq<WalkEntry>)
    ensures DirReport(s, open, a + [WalkError] + b) == DirReport(s, open, a) + DirReport(s, open, b)
  {
    assert a + [WalkError] + b == a + ([WalkError] + b);
    DirReportAppend(s, open, a, [WalkError] + b);
    DirReportPastError(s, open, b);
  }

  /** The directory report is the file report of exactly the regular files
      the walk produced, in walk order. */
  lemma {:induction false} DirReportIsFilesReport(s: Search, open: string -> OpenResult, entries: seq<WalkEntry>)
    ensures DirReport(s, open, entries) == FilesReport(s, open, RegularFiles(entries))
    decreases |entries|
  {
    if entries != [] {
      DirReportIsFilesReport(s, open, entries[1..]);
      var rest := RegularFiles(entries[1..]);
      if entries[0].Entry? && entries[0].kind == RegularFile {
        assert RegularFiles(entries) == [entries[0].path] + rest;
        assert ([entries[0].path] + rest)[1..] == rest;
      } else {
        assert RegularFiles(entries) == rest;
      }
    }
  }

  /** A path is visited exactly when the walk produced it as a regular file. */
  lemma {:induction false} RegularFilesMembers(entries: seq<WalkEntry>, p: string)
    ensures p in RegularFiles(entries) <==>
      exists k :: 0 <= k < |entries| && entries[k] == Entry(p, RegularFile)
    decreases |entries|
  {
    if entries != [] {
      RegularFilesMembers(entries[1..], p);
      if exists k :: 1 <= k < |entries| && entries[k] == Entry(p, RegularFile) {
        var k :| 1 <= k < |entries| && entries[k] == Entry(p, RegularFile);
        assert entries[1..][k - 1] == entries[k];
      }
      if exists k :: 0 <= k < |entries[1..]| && entries[1..][k] == Entry(p, RegularFile) {
        var k :| 0 <= k < |entries[1..]| && entries[1..][k] == Entry(p, RegularFile);
        assert entries[k + 1] == entries[1..][k];
      }
    }
  }

  /** `grip`: a regular file is searched alone, anything else is walked. */
  function GripReport(s: Search, open: string -> OpenResult, walk: string -> seq<WalkEntry>, path: string, kind: FileKind): seq<string>
  {
    if kind == RegularFile then FileReport(s, open, path) else DirReport(s, open, walk(path))
  }

  // ---------------------------------------------------------------------
  // The driver (main)
  // ---------------------------------------------------------------------

  /** The `--match` values without the empty ones, in the order given. */
  function NonEmpty(ms: seq<string>): seq<string>
  {
    FlatMap(KeptIfNonEmpty, ms)
  }

  function KeptIfNonEmpty(m: string): seq<string>
  {
    if m == "" then [] else [m]
  }

  /** The patterns searched for: the positional pattern, if any (even an
      empty one), then the non-empty `--match` values. */
  function PatternList(positional: Option<string>, ms: seq<string>): seq<string>
  {
    (match positional case None => [] case Some(p) => [p]) + NonEmpty(ms)
  }

  lemma {:induction false} NonEmptyCounts(ms: seq<string>)
    ensures multiset(NonEmpty(ms)) == multiset(ms)["" := 0]
    decreases |ms|
  {
    if ms != [] {
      NonEmptyCounts(ms[1..]);
      assert ms == [ms[0]] + ms[1..];
    }
  }

  /** The positions, from `from` on, of the non-empty `--match` values, in
      ascending order. */
  function KeptFrom(ms: seq<string>, from: nat): (r: seq<nat>)
    requires from <= |ms|
    ensures StrictlyIncreasing(r)
    ensures forall k :: 0 <= k < |r| ==> from <= r[k] < |ms| && ms[r[k]] != ""
    ensures forall i :: from <= i < |ms| && ms[i] != "" ==> i in r
    decreases |ms| - from
  {
    if from == |ms| then []
    else (if ms[from] != "" then [from] else []) + KeptFrom(ms, from + 1)
  }

  /** The kept values are the non-empty ones in the order they were given:
      the j-th kept value is the value at the j-th non-empty position. */
  lemma {:induction false} NonEmptyInOrder(ms: seq<string>, from: nat)
    requires from <= |ms|
    ensures |NonEmpty(ms[from..])| == |KeptFrom(ms, from)|
    ensures forall j :: 0 <= j < |KeptFrom(ms, from)| ==> NonEmpty(ms[from..])[j] == ms[KeptFrom(ms, from)[j]]
    decreases |ms| - from
  {
    if from < |ms| {
      NonEmptyInOrder(ms, from + 1);
      assert ms[from..][1..] == ms[from + 1..];
      var here: seq<nat> := if ms[from] != "" then [from] else [];
      assert NonEmpty(ms[from..]) == KeptIfNonEmpty(ms[from]) + NonEmpty(ms[from + 1..]);
      assert KeptFrom(ms, from) == here + KeptFrom(ms, from + 1);
      forall j | |here| <= j < |KeptFrom(ms, from)|
        ensures NonEmpty(ms[from..])[j] == ms[KeptFrom(ms, from)[j]]
      {
        assert KeptFrom(ms, from)[j] == KeptFrom(ms, from + 1)[j - |here|];
      }
    }
  }

  /** The positional pattern comes first; after it come the `--match`
      values, each non-empty one as often as it was given and no empty one,
      in the order they were given. */
  lemma PatternListShape(positional: Option<string>, ms: seq<string>)
    ensures positional.Some? ==> |PatternList(positional, ms)| >= 1 && PatternList(positional, ms)[0] == positional.value
    ensures var rest := PatternList(positional, ms)[if positional.Some? then 1 else 0..];
      multiset(rest) == multiset(ms)["" := 0]
    ensures var rest := PatternList(positional, ms)[if positional.Some? then 1 else 0..];
      |rest| == |KeptFrom(ms, 0)| &&
      forall j :: 0 <= j < |rest| ==> rest[j] == ms[KeptFrom(ms, 0)[j]]
  {
    NonEmptyCounts(ms);
    NonEmptyInOrder(ms, 0);
    assert ms[0..] == ms;
    var head: seq<string> := match positional case None => [] case Some(p) => [p];
    assert PatternList(positional, ms)[|head|..] == NonEmpty(ms);
  }

  function FirstInvalidFrom(patterns: seq<string>, compiles: string -> bool, from: nat): (r: Option<nat>)
    requires from <= |patterns|
    ensures r.None? <==> forall k :: from <= k < |patterns| ==> compiles(patterns[k])
    ensures r.Some? ==>
      from <= r.value < |patterns| && !compiles(patterns[r.value]) &&
      forall k :: from <= k < r.value ==> compiles(patterns[k])
    decreases |patterns| - from
  {
    if from == |patterns| then None
    else if !compiles(patterns[from]) then Some(from)
    else FirstInvalidFrom(patterns, compiles, from + 1)
  }

  /** The index of the first pattern that does not compile, if any. */
  function FirstInvalid(patterns: seq<string>, compiles: string -> bool): (r: Option<nat>)
    ensures r.None? <==> forall k :: 0 <= k < |patterns| ==> compiles(patterns[k])
    ensures r.Some? ==>
      r.value < |patterns| && !compiles(patterns[r.value]) &&
      forall k :: 0 <= k < r.value ==> compiles(patterns[k])
  {
    FirstInvalidFrom(patterns, compiles, 0)
  }

  /** The parsed command line. */
  datatype Args = Args(pattern: Option<string>, matches: seq<string>, noColor: bool, target: string)

  /** Everything outside the program that it reads or consults. */
  datatype World = World(
    stdinIsTty: bool,
    stdin: seq<LineRead>,
    metadata: string -> Option<FileKind>,
    open: string -> OpenResult,
    walk: string -> seq<WalkEntry>)

  /** How the process ends: an exit code, or a panic with its message. */
  datatype Outcome = Exited(code: int) | Panicked(message: string)

  datatype Session = Session(output: seq<string>, outcome: Outcome)

  const StdinPanic: string := "Could not read line from standard in"

  function InvalidRegexMessage(p: string): string
  {
    "Regex \"" + p + "\" invalid."
  }

  function NotFoundMessage(target: string): string
  {
    "Path \"" + target + "\" not found."
  }

  /** One run of grip: what it prints and how it ends. */
  function GripMain(args: Args, engine: Engine, io: World): Session
  {
    var patterns := PatternList(args.pattern, args.matches);
    var s := Search(engine, patterns, !args.noColor);
    match FirstInvalid(patterns, engine.compiles)
    case Some(i) => Session([InvalidRegexMessage(patterns[i])], Exited(1))
    case None =>
      if !io.stdinIsTty then
        Session(LinesReport(s, "", io.stdin, 0), if AllRead(io.stdin) then Exited(0) else Panicked(StdinPanic))
      else
        match io.metadata(args.target)
        case None => Session([NotFoundMessage(args.target)], Exited(0))
        case Some(kind) => Session(GripReport(s, io.open, io.walk, args.target, kind), Exited(0))
  }

  /** The first pattern that does not compile ends the run with code 1 and
      its one message, before any input is looked at. */
  lemma InvalidPatternIsFatal(args: Args, engine: Engine, io: World, io': World, i: nat)
    requires var ps := PatternList(args.pattern, args.matches);
      i < |ps| && !engine.compiles(ps[i]) && forall k :: 0 <= k < i ==> engine.compiles(ps[k])
    ensures GripMain(args, engine, io) ==
      Session([InvalidRegexMessage(PatternList(args.pattern, args.matches)[i])], Exited(1))
    ensures GripMain(args, engine, io) == GripMain(args, engine, io')
  {
    var ps := PatternList(args.pattern, args.matches);
    var r := FirstInvalid(ps, engine.compiles);
    assert r.value == i;
  }

  /** The exit code is 1 exactly when some pattern does not compile. */
  lemma ExitCodeOne(args: Args, engine: Engine, io: World)
    ensures GripMain(args, engine, io).outcome == Exited(1) <==>
      exists k :: 0 <= k < |PatternList(args.pattern, args.matches)| &&
        !engine.compiles(PatternList(args.pattern, args.matches)[k])
  {
  }

  /** With standard input not a terminal, its lines are searched under an
      empty prefix and the target and the file system play no part; a read
      error panics after the lines before it were reported. */
  lemma PipedStdinWins(args: Args, engine: Engine, io: World, target': string,
                       metadata': string -> Option<FileKind>, open': string -> OpenResult,
                       walk': string -> seq<WalkEntry>, j: nat)
    requires forall k :: 0 <= k < |PatternList(args.pattern, args.matches)| ==>
      engine.compiles(PatternList(args.pattern, args.matches)[k])
    requires !io.stdinIsTty
    ensures GripMain(args, engine, io) ==
      GripMain(args.(target := target'), engine, io.(metadata := metadata', open := open', walk := walk'))
    ensures GripMain(args, engine, io).output ==
      LinesReport(Search(engine, PatternList(args.pattern, args.matches), !args.noColor), "", io.stdin, 0)
    ensures j < |io.stdin| && io.stdin[j].ReadError? && AllRead(io.stdin[..j]) ==>
      GripMain(args, engine, io).outcome == Panicked(StdinPanic) &&
      GripMain(args, engine, io).output ==
        LinesReport(Search(engine, PatternList(args.pattern, args.matches), !args.noColor), "", io.stdin[..j], 0)
  {
    var s := Search(engine, PatternList(args.pattern, args.matches), !args.noColor);
    if j < |io.stdin| && io.stdin[j].ReadError? {
      StopsAtReadError(s, "", io.stdin, j, 0);
    }
  }

  /** On a terminal, a target whose metadata cannot be read gives only the
      not-found message and exit code 0; a regular file is searched alone;
      anything else is walked as a directory. */
  lemma TargetDispatch(args: Args, engine: Engine, io: World)
    requires forall k :: 0 <= k < |PatternList(args.pattern, args.matches)| ==>
      engine.compiles(PatternList(args.pattern, args.matches)[k])
    requires io.stdinIsTty
    ensures GripMain(args, engine, io).outcome == Exited(0)
    ensures io.metadata(args.target).None? ==>
      GripMain(args, engine, io).output == ["Path \"" + args.target + "\" not found."]
    ensures io.metadata(args.target) == Some(RegularFile) ==>
      GripMain(args, engine, io).output ==
        FileReport(Search(engine, PatternList(args.pattern, args.matches), !args.noColor), io.open, args.target)
    ensures io.metadata(args.target).Some? && io.metadata(args.target) != Some(RegularFile) ==>
      GripMain(args, engine, io).output ==
        FilesReport(Search(engine, PatternList(args.pattern, args.matches), !args.noColor), io.open,
                    RegularFiles(io.walk(args.target)))
  {
    var s := Search(engine, PatternList(args.pattern, args.matches), !args.noColor);
    DirReportIsFilesReport(s, io.open, io.walk(args.target));
  }

  // ---------------------------------------------------------------------
  // A worked example
  // ---------------------------------------------------------------------

  /** The engine of the example: `foo` and `bar` as plain substrings on the
      three lines of the file. */
  predicate ExampleEngine(e: Engine)
  {
    e.find("foo", "foobar") == Some("foo") && e.find("bar", "foobar") == Some("bar") &&
    e.find("foo", "baz") == None && e.find("bar", "baz") == None &&
    e.find("foo", "foo only") == Some("foo") && e.find("bar", "foo only") == None
  }

  lemma ExampleFired(e: Engine)
    requires ExampleEngine(e)
    ensures Fired(e, ["foo", "bar"], "foobar") == [0, 1]
    ensures Fired(e, ["foo", "bar"], "baz") == []
    ensures Fired(e, ["foo", "bar"], "foo only") == [0]
  {
    var ps := ["foo", "bar"];
    assert FiredFrom(e, ps, "foobar", 1) == [1];
    assert FiredFrom(e, ps, "baz", 1) == [];
    assert FiredFrom(e, ps, "foo only", 1) == [];
  }

  lemma ExampleRecords()
    ensures PlainRecord("f ", 0, "foobar") == "f L1: foobar"
    ensures PlainRecord("f ", 2, "foo only") == "f L3: foo only"
  {
    assert Decimal(1) == "1";
    assert Decimal(3) == "3";
  }

  lemma ExampleFirstLine(e: Engine)
    requires ExampleEngine(e)
    ensures LineReport(Search(e, ["foo", "bar"], false), "f ", 0, "foobar") == ["f L1: foobar", "f L1: foobar"]
  {
    ExampleFired(e);
    ExampleRecords();
    LineReportAt(Search(e, ["foo", "bar"], false), "f ", 0, "foobar");
  }

  lemma ExampleOtherLines(e: Engine)
    requires ExampleEngine(e)
    ensures LineReport(Search(e, ["foo", "bar"], false), "f ", 1, "baz") == []
    ensures LineReport(Search(e, ["foo", "bar"], false), "f ", 2, "foo only") == ["f L3: foo only"]
  {
    ExampleFired(e);
    ExampleRecords();
    LineReportAt(Search(e, ["foo", "bar"], false), "f ", 1, "baz");
    LineReportAt(Search(e, ["foo", "bar"], false), "f ", 2, "foo only");
  }

  lemma UntilErrorThree(report: (nat, string) -> seq<string>, a: string, b: string, c: string)
    ensures UntilError(report, [Read(a), Read(b), Read(c)], 0) == report(0, a) + report(1, b) + report(2, c)
  {
    var items := [Read(a), Read(b), Read(c)];
    assert items[1..] == [Read(b), Read(c)] && items[1..][1..] == [Read(c)] && items[1..][1..][1..] == [];
    assert UntilError(report, [Read(c)], 2) == report(2, c);
    AppendAssoc(report(0, a), report(1, b), report(2, c));
  }

  /** Patterns `foo` and `bar` over a file `f` holding `foobar`, `baz` and
      `foo only`, without colour: the first line is reported once per
      pattern, the second not at all, the third once. */
  lemma TwoPatternsOneFile(e: Engine, open: string -> OpenResult)
    requires open("f") == Opened([Read("foobar"), Read("baz"), Read("foo only")])
    requires ExampleEngine(e)
    ensures FileReport(Search(e, ["foo", "bar"], false), open, "f") ==
      ["f L1: foobar", "f L1: foobar", "f L3: foo only"]
  {
    var s := Search(e, ["foo", "bar"], false);
    ExampleFileLines(s, open);
    LinesReportThree(s, "f ", "foobar", "baz", "foo only");
    ExampleFirstLine(e);
    ExampleOtherLines(e);
  }

  lemma ExampleFileLines(s: Search, open: string -> OpenResult)
    requires open("f") == Opened([Read("foobar"), Read("baz"), Read("foo only")])
    ensures FileReport(s, open, "f") == LinesReport(s, "f ", [Read("foobar"), Read("baz"), Read("foo only")], 0)
  {
    assert FileLabel("f") == "f ";
  }

  lemma LinesReportThree(s: Search, prefix: string, a: string, b: string, c: string)
    ensures LinesReport(s, prefix, [Read(a), Read(b), Read(c)], 0) ==
      LineReport(s, prefix, 0, a) + LineReport(s, prefix, 1, b) + LineReport(s, prefix, 2, c)
  {
    UntilErrorThree(LineReporter(s, prefix), a, b, c);
  }
}
