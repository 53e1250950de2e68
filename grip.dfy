/** The program itself: each function of the source as a method that prints
    through `Stdout`, proved to print exactly what `Report` says. */
module Grip {
  import opened Text
  import opened Ansi
  import opened Report

  /** Standard output: every `println!` appends one line. */
  class Stdout {
    var lines: seq<string>

    constructor ()
      ensures lines == []
    {
      lines := [];
    }

    method PrintLine(text: string)
      modifies this
      ensures lines == old(lines) + [text]
    {
      lines := lines + [text];
    }
  }

  /** `grip_line`: one line per pattern of the set that matches, in pattern
      order, with the prefix `path` and the 0-based line index `lineno`. */
  method GripLine(out: Stdout, line: string, s: Search, lineno: nat, path: string)
    modifies out
    ensures out.lines == old(out.lines) + LineReport(s, path, lineno, line)
  {
    var matches := Fired(s.engine, s.patterns, line);
    ghost var f := RecordFor(s, path, lineno, line);
    if |matches| > 0 {
      for k := 0 to |matches|
        invariant out.lines == old(out.lines) + FlatMap(f, matches[..k])
      {
        PrintMatch(out, s, matches[k], path, lineno, line);
        FlatMapStep(old(out.lines), f, matches, k);
      }
    }
    assert matches[..|matches|] == matches;
  }

  /** The body of the loop in `grip_line` for pattern `m`: what the pattern
      found, then the record, coloured or plain. */
  method PrintMatch(out: Stdout, s: Search, m: nat, path: string, lineno: nat, line: string)
    requires m < |s.patterns| && Matches(s.engine, s.patterns, m, line)
    modifies out
    ensures out.lines == old(out.lines) + RecordFor(s, path, lineno, line)(m)
  {
    var mtch := s.engine.find(s.patterns[m], line).value;
    if s.useColor {
      out.PrintLine(ColorRecord(path, lineno, line, mtch));
    } else {
      out.PrintLine(PlainRecord(path, lineno, line));
    }
  }

  /** `grip_file`: a warning if the file cannot be opened; otherwise its lines
      in order, numbered from 1, up to the first line that cannot be read. */
  method GripFile(out: Stdout, path: string, s: Search, open: string -> OpenResult)
    modifies out
    ensures out.lines == old(out.lines) + FileReport(s, open, path)
  {
    var file := open(path);
    if file.CannotOpen? {
      out.PrintLine(Warning(s.useColor, path));
      return;
    }
    var items := file.items;
    var prefix := FileLabel(path);
    for lineno := 0 to |items|
      invariant AllRead(items[..lineno])
      invariant out.lines == old(out.lines) + LinesReport(s, prefix, items[..lineno], 0)
    {
      match items[lineno]
      case ReadError =>
        StopsAtReadError(s, prefix, items, lineno, 0);
        return;
      case Read(line) =>
        GripLine(out, line, s, lineno, prefix);
        LinesReportSnoc(old(out.lines), s, prefix, items, lineno);
        AllReadSnoc(items, lineno);
    }
    assert items[..|items|] == items;
  }

  /** `grip_dir`: every regular file of the walk, in walk order, through
      `grip_file`; entries the walk could not read are passed over. */
  method GripDir(out: Stdout, path: string, s: Search, open: string -> OpenResult,
                 walk: string -> seq<WalkEntry>)
    modifies out
    ensures out.lines == old(out.lines) + DirReport(s, open, walk(path))
  {
    var entries := walk(path);
    for k := 0 to |entries|
      invariant out.lines == old(out.lines) + DirReport(s, open, entries[..k])
    {
      GripEntry(out, entries[k], s, open);
      FlatMapStep(old(out.lines), EntryReporter(s, open), entries, k);
    }
    assert entries[..|entries|] == entries;
  }

  /** The body of the walk loop in `grip_dir` for one entry. */
  method GripEntry(out: Stdout, entry: WalkEntry, s: Search, open: string -> OpenResult)
    modifies out
    ensures out.lines == old(out.lines) + EntryReport(s, open, entry)
  {
    if entry.Entry? {
      if entry.kind == RegularFile {
        GripFile(out, entry.path, s, open);
      }
    }
  }

  /** `grip`: a regular file is searched alone, anything else is walked. */
  method GripTarget(out: Stdout, path: string, kind: FileKind, s: Search, open: string -> OpenResult,
                    walk: string -> seq<WalkEntry>)
    modifies out
    ensures out.lines == old(out.lines) + GripReport(s, open, walk, path, kind)
  {
    if kind == RegularFile {
      GripFile(out, path, s, open);
    } else {
      GripDir(out, path, s, open, walk);
    }
  }

  /** The pattern list `main` builds: the positional pattern, if any, then
      every `--match` value that is not empty. */
  method CollectPatterns(positional: Option<string>, ms: seq<string>) returns (regexes: seq<string>)
    ensures regexes == PatternList(positional, ms)
  {
    regexes := [];
    if positional.Some? {
      regexes := regexes + [positional.value];
    }
    ghost var head := regexes;
    for k := 0 to |ms|
      invariant regexes == head + NonEmpty(ms[..k])
    {
      if ms[k] != "" {
        regexes := regexes + [ms[k]];
      }
      FlatMapStep(head, KeptIfNonEmpty, ms, k);
    }
    assert ms[..|ms|] == ms;
  }

  /** The compile loop of `main`: the index of the first pattern that does
      not compile, or `None` when all of them do. */
  method CheckPatterns(regexes: seq<string>, compiles: string -> bool) returns (bad: Option<nat>)
    ensures bad.None? <==> forall k :: 0 <= k < |regexes| ==> compiles(regexes[k])
    ensures bad.Some? ==>
      bad.value < |regexes| && !compiles(regexes[bad.value]) &&
      forall k :: 0 <= k < bad.value ==> compiles(regexes[k])
  {
    for k := 0 to |regexes|
      invariant forall j :: 0 <= j < k ==> compiles(regexes[j])
    {
      if !compiles(regexes[k]) {
        return Some(k);
      }
    }
    return None;
  }

  /** The standard-input loop of `main`: every line under an empty label,
      numbered from 1; a line that cannot be read panics. */
  method GripStdin(out: Stdout, s: Search, stdin: seq<LineRead>) returns (outcome: Outcome)
    modifies out
    ensures out.lines == old(out.lines) + LinesReport(s, "", stdin, 0)
    ensures outcome == if AllRead(stdin) then Exited(0) else Panicked(StdinPanic)
  {
    for lineno := 0 to |stdin|
      invariant AllRead(stdin[..lineno])
      invariant out.lines == old(out.lines) + LinesReport(s, "", stdin[..lineno], 0)
    {
      match stdin[lineno]
      case ReadError =>
        StopsAtReadError(s, "", stdin, lineno, 0);
        return Panicked(StdinPanic);
      case Read(line) =>
        GripLine(out, line, s, lineno, "");
        LinesReportSnoc(old(out.lines), s, "", stdin, lineno);
        AllReadSnoc(stdin, lineno);
    }
    assert stdin[..|stdin|] == stdin;
    return Exited(0);
  }

  /** `main`, after argument parsing: assemble and compile the patterns,
      then search standard input when it is not a terminal, else the target.
      Returns how the process ends. */
  method Run(out: Stdout, args: Args, engine: Engine, io: World) returns (outcome: Outcome)
    modifies out
    ensures out.lines == old(out.lines) + GripMain(args, engine, io).output
    ensures outcome == GripMain(args, engine, io).outcome
  {
    var regexes := CollectPatterns(args.pattern, args.matches);
    var color := !args.noColor;
    var bad := CheckPatterns(regexes, engine.compiles);
    if bad.Some? {
      out.PrintLine(InvalidRegexMessage(regexes[bad.value]));
      return Exited(1);
    }
    var s := Search(engine, regexes, color);
    if !io.stdinIsTty {
      outcome := GripStdin(out, s, io.stdin);
      return;
    }
    match io.metadata(args.target) {
      case None =>
        out.PrintLine(NotFoundMessage(args.target));
      case Some(kind) =>
        GripTarget(out, args.target, kind, s, io.open, io.walk);
    }
    return Exited(0);
  }
}
