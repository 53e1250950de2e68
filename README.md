# grip, modelled in Dafny

grip is a small command-line search tool written in Rust. It takes one or more regular expressions, checks that every one of them compiles, and then searches one of three inputs: standard input (when it is not a terminal), a single file, or every regular file under a directory. For each line and each pattern that matches it, grip prints one record. A record is the source's label, `L`, the 1-based line number, `: ` and the line. When grip's colour flag is on (it is on unless `--no-color` is given), the label is green, the `L{n}` token is yellow, and every occurrence of the matched text is bold red.

This project models that core: `grip_line`, `grip_file`, `grip_dir`, `grip`, and the part of `main` that assembles the pattern list, compiles the patterns and dispatches on the input. Everything grip does is printing lines and ending the process. So the model is:

- `Report` (report.dfy): pure functions giving, for every input, the exact sequence of lines printed and how the run ends. This is the specification. It also holds the lemmas stating what the tool promises.
- `Grip` (grip.dfy): the program itself, as imperative methods. A `Stdout` class carries the printed lines, and each method appends to it through `PrintLine`, one call per `println!`. Each method is proved to print exactly what `Report` says, and to end as `Report` says.
- `Text` (text.dfy): what the output formats rely on. It covers the decimal rendering of a line number, and Rust's `str::replace`, described as splitting a line around a pattern and joining the pieces again. It also holds a generic `FlatMap` (concatenate the images of a sequence).
- `Ansi` (ansi.dfy): the `colored` crate's escapes. A coloured line is a sequence of spans. Drawing the spans (`Render`) and removing their colour (`Strip`) are two readings of one value.

The regular-expression engine, the file system, the directory walker, the terminal test and standard input are not visible code. They are values passed in: `Engine` says which patterns compile and what each one finds in a line; `World` holds the terminal flag, the standard-input lines, the metadata lookup, `File::open` and the walk.

In colour mode the code highlights the matched text with `line.replace(mtch, …)` (src/main.rs:34). That call replaces every non-overlapping occurrence, not only the first. The model follows the code: `ColorHighlightsEveryOccurrence` proves that no occurrence is left uncoloured. When the found text is empty, `str::replace` inserts the highlight at every character boundary. `Text.Replace` models this too, and the stripped record is still the plain record.

## Model

| member | source | states |
|---|---|---|
| Grip.GripLine | src/main.rs:25-40 | prints exactly `LineReport`: one record per pattern the set reports for the line, in that order, and nothing when none fires |
| Grip.PrintMatch | src/main.rs:28-38 | for a pattern that matches, prints its one record: coloured when colour is on, plain otherwise |
| Grip.GripFile | src/main.rs:43-72 | prints exactly `FileReport`: one warning if the file cannot be opened; otherwise the records of its lines in read order, numbered from 1, stopping at the first line that cannot be read |
| Grip.GripDir | src/main.rs:74-85 | prints exactly `DirReport` of the walk: each entry's report in walk order |
| Grip.GripEntry | src/main.rs:75-83 | an entry the walk could not read, and any entry that is not a regular file, prints nothing; a regular file prints its `FileReport` |
| Grip.GripTarget | src/main.rs:87-99 | a regular file is searched alone; anything else is walked |
| Grip.CollectPatterns | src/main.rs:142-155 | the list built is `PatternList`: the positional pattern (even an empty one), then the non-empty `--match` values in order |
| Grip.CheckPatterns | src/main.rs:163-173 | returns no index exactly when every pattern compiles; otherwise returns the first pattern that does not compile |
| Grip.GripStdin | src/main.rs:177-185 | prints the records of the standard-input lines under an empty label; ends normally if every line was read, otherwise panics with the `expect` message once the lines before the error are printed |
| Grip.Run | src/main.rs:142-191 | prints exactly `GripMain(...).output` and ends exactly as `GripMain(...).outcome` says |
| Report.FiredFrom | src/main.rs:25 | the matching pattern indices from `from` on, strictly increasing, each one matching, and none missing |
| Report.Fired | src/main.rs:25-28 | every index the set reports is a pattern that matches the line, so the `unwrap` of its `find` cannot fail |
| Report.FiredExactly | src/main.rs:25-27 | the set reports every matching pattern exactly once, in ascending index order, and no pattern that does not match |
| Report.LineReportAt | src/main.rs:25-38 | a line's report holds one record per fired pattern, in firing order, each built from what that pattern found; firing order is ascending pattern order, so an earlier record belongs to a lower-numbered pattern |
| Report.LineReportCount | src/main.rs:25-40 | a line gets as many records as there are matching patterns, and none exactly when no pattern matches |
| Report.PlainLineReport | src/main.rs:37 | without colour every record is the label, `L`, the decimal of the line index plus one, `: ` and the unchanged line, the same for every pattern |
| Report.ColorRecordReadings | src/main.rs:30-35 | the coloured record is the green label, the yellow `L{n}`, `: ` and the line with the match in bold red; with the colour removed it is exactly the plain record |
| Report.ColorHighlightsEveryOccurrence | src/main.rs:34 | for a non-empty match, no uncoloured stretch of the line still contains the match, and every coloured stretch is the match in bold red |
| Report.ColorAndPlainAgree | src/main.rs:29-38 | colour changes no selection: both modes print the same number of records for a line, and each coloured record strips to the plain one |
| Report.StopsAtReadError | src/main.rs:64-69 | after a read error nothing more of the source is reported, whatever follows it |
| Report.LinesReportSnoc | src/main.rs:64-71 | reading one more line extends what was printed by exactly that line's records |
| Report.LineNumbering | src/main.rs:64-71 | line i of a source (0-based) is reported under number i + 1, after every earlier line and before every later one |
| Report.LinesReportLabel | src/main.rs:62-70 | without colour every record from a source begins with the source's label followed by `L` |
| Report.FileReportShape | src/main.rs:45-70 | without colour, a file that cannot be opened gives exactly `[WARN] Skipping <path>, Permission Denied` and nothing else; an opened file gives only records that begin with `<path> L` |
| Report.DirReportAppend | src/main.rs:75-84 | the walk is reported entry by entry: the report of two stretches of the walk is the two reports one after another |
| Report.WalkErrorSkipped | src/main.rs:75 | an entry the walk could not read contributes nothing and does not stop the walk |
| Report.DirReportIsFilesReport | src/main.rs:74-85 | a directory's report is the file reports of exactly the regular files the walk produced, in walk order |
| Report.RegularFilesMembers | src/main.rs:75-76 | a path is searched in directory mode exactly when the walk produced it as a readable regular file |
| Report.NonEmptyCounts | src/main.rs:149-155 | the kept `--match` values are the given ones, each as often as given, with every empty one removed |
| Report.KeptFrom | src/main.rs:149-155 | the positions of the non-empty `--match` values, strictly increasing, each non-empty, and none missing |
| Report.NonEmptyInOrder | src/main.rs:149-155 | the j-th kept `--match` value is the value at the j-th non-empty position: the kept values keep the order they were given in |
| Report.PatternListShape | src/main.rs:142-155 | the positional pattern comes first; the rest of the list is the `--match` values without the empty ones, each as often as given, in the order given |
| Report.FirstInvalidFrom | src/main.rs:165-172 | no index exactly when every pattern from `from` on compiles; otherwise the first one that does not |
| Report.FirstInvalid | src/main.rs:165-172 | no index exactly when every pattern compiles; otherwise the first pattern in list order that does not |
| Report.InvalidPatternIsFatal | src/main.rs:165-171 | the first pattern that does not compile ends the run with code 1 and its one `Regex "<p>" invalid.` message; no input is looked at |
| Report.ExitCodeOne | src/main.rs:163-173 | the exit code is 1 exactly when some pattern does not compile |
| Report.PipedStdinWins | src/main.rs:177-185 | with standard input not a terminal, only its lines are searched, under an empty label; the target, metadata, files and walk play no part; a read error panics after the earlier lines are reported |
| Report.TargetDispatch | src/main.rs:187-191 | on a terminal: a target without metadata gives only `Path "<t>" not found.`; a regular file is searched alone; anything else is walked; the run ends with code 0 |
| Report.TwoPatternsOneFile | src/main.rs:25-71 | patterns `foo` and `bar` over a file `f` holding `foobar`, `baz`, `foo only` print `f L1: foobar` twice, then `f L3: foo only` |
| Text.DecimalRoundTrip | src/main.rs:33 | a line number is written with digits only, with no leading zero, and reads back as the same number |
| Text.DecimalInjective | src/main.rs:37 | different line numbers are written differently |
| Text.ReplaceIsJoinOfSplit | src/main.rs:34 | `str::replace` replaces every leftmost non-overlapping occurrence of the pattern and changes nothing else |
| Text.JoinSplit | src/main.rs:34 | joining the split pieces with the pattern gives the line back |
| Text.ReplaceWithItself | src/main.rs:34 | replacing the matched text with itself leaves the line unchanged |
| Text.SplitPiecesAvoid | src/main.rs:34 | for a non-empty pattern no split piece still contains it |
| Ansi.HighlightedReadings | src/main.rs:34 | the highlighted line draws as the pieces joined by the bold-red match, and strips to the pieces joined by the match itself |
| Ansi.HighlightedSpans | src/main.rs:34 | every uncoloured span of a highlighted line is one of the split pieces, and every coloured one is the match in bold red |

## Left out

- The regular-expression engine (`Regex::new`, `RegexSet::new`, `RegexSet::matches`, `Regex::find`) is not visible code. Compilation and `find` are inputs. The set's matches are taken to agree with the individual patterns: `Fired` is defined from `find`. So the `unwrap` at src/main.rs:28 cannot fail, and `RegexSet::new(...).unwrap()` at src/main.rs:175 is taken to succeed once every pattern compiled.
- The `colored` crate is modelled only by the escape each style writes before the text and the reset after it. Its environment switches (such as `NO_COLOR` and `CLICOLOR`) are not modelled. Nor is any change it makes to text that already holds escapes. grip's colour flag depends only on `--no-color` (src/main.rs:161), and the model writes escapes exactly when that flag is on.
- `colored`'s own terminal test is not modelled: the crate can turn colour off when standard output is not a terminal, whatever grip's flag says, so a coloured run redirected to a file may print plain records where the model prints escapes.
- `clap` argument parsing, and its defaults (`""` for `--match`, `.` for the target), are not modelled. The parsed values are the input `Args`.
- `atty::is(Stream::Stdin)` is the boolean `stdinIsTty`.
- `File::open`, `BufReader::lines` and UTF-8 decoding are given as `OpenResult` and sequences of `LineRead`. Any open failure is `CannotOpen`, and any read or decoding error is `ReadError`.
- `WalkDir` is a given sequence of entries: its order, symlink handling and the root entry are whatever that sequence says. The panics of `entry.metadata().unwrap()` (src/main.rs:76) and `entry.path().to_str().unwrap()` (src/main.rs:78) are excluded. Each walk entry already carries its kind and its path as a string.
- `metadata(target)` is reduced to the kind of file it reports: regular file, directory or other.
- `lineno + 1` is an unbounded natural number. `usize` overflow is not modelled.
- `process::exit(1)` is the outcome `Exited(1)` and a normal end is `Exited(0)`. The `expect` on a standard-input read error (src/main.rs:180) is the outcome `Panicked` with its message. The exit code Rust uses for a panic, and the panic text written to standard error, are not modelled.
- Output buffering and the trailing newline of `println!` are not modelled: each `println!` is one element of the printed sequence.
- A failed write to standard output is not modelled. `println!` panics when standard output cannot be written (a closed pipe, say). The model takes every `PrintLine` to succeed, so such a run ends as the model says instead of panicking part-way.
