# LCOV coverage threshold checker, modelled in Dafny

This project models the coverage checker of the repository's developer tooling
(`tool/check_coverage.py`). The checker reads an LCOV tracefile line by line. It
closes one per-file record `(name, hit, found)` at every `end_of_record` and keeps
running totals. It then fails when the report has no instrumented lines. Otherwise
it lists the files whose coverage is below `MIN_COVERAGE` (78%), in ascending order
of coverage, and passes exactly when overall coverage is at least 78%.

Files and modules:

- `lcov_lines.dfy` (`LcovLines`): one line of the tracefile. It covers Python's
  `str.strip`, the decimal payload of `LF:`/`LH:` with the narrower set of
  whitespace that `int()` skips, and the classification of a line
  into `SF:`, `LF:`, `LH:`, `end_of_record`, a malformed count, or an ignored line.
  It also has a renderer for directives, so that reading a written directive back
  can be proved to give the same directive.
- `lcov_parser.dfy` (`LcovParser`): `parse_lcov`. First a declarative description
  by line positions: the record closed at an `end_of_record` takes the last `SF:`,
  `LF:` and `LH:` since the previous `end_of_record`, and takes `""`/0 where there
  is none. Then `ParseDirectives`, the source's loop with its five mutable locals,
  proved by loop invariants to build exactly those records, with totals equal to
  their sums.
- `coverage_sort.dfy` (`CoverageOrder`): the sort key `hit/found` (0 when
  `found == 0`), kept as an exact fraction and compared by cross multiplication.
  Also the stable sort (`list.sort` is stable), with proofs that it sorts, that
  it permutes, and that it is stable.
- `coverage_check.dfy` (`CoverageCheck`): the decision logic of `main`. This is
  the empty-report check, the below-threshold comprehension, the sort, pass/fail
  and the exit status, plus the composed run `CheckCoverage`.
- `scenarios.dfy` (`CoverageScenarios`): worked examples (the text lines of a
  one-file tracefile read as directives; one passing file; two files with an
  overall failure; a report that closes no record).

Modelling choices:

- The tracefile is given as its lines (`Option<seq<string>>`, where `None` means
  the path is not a file). Each line is read with `Classify`. `ParseLcov` reads
  all the lines into directives and runs the state-machine loop over them.
- Counts policy: the `LF:`/`LH:` payload is trimmed of the characters `int()`
  skips on an ASCII string (space, tab, line feed, vertical tab, form feed,
  carriage return; not U+001C to U+001F, which `str.strip` also removes). It must
  then be a non-empty run of ASCII digits. Anything else is a `BadCount`. Apart from
  the payloads listed under `ParseCount` in "## Left out", the source's `int()`
  raises `ValueError` there; the exception is not caught, so the
  process exits with status 1. The model returns `Err(ParseError(index, payload))`
  for the first such line and `CheckCoverage` turns it into `MalformedCount` with
  exit status 1.
- No floating point. "Below threshold" is `100 * hit < 78 * found`, pass is
  `78 * total_found <= 100 * total_hit`, and the sort order is
  `h1 * f2 <= h2 * f1`. Lemmas prove that each test is exactly the comparison of
  the rational values the source's float expressions stand for.
- Like the source, the model does not check `hit <= found`.

## Model

| member | source | states |
|---|---|---|
| `LcovLines.Trim` | tool/check_coverage.py:25-29 | trimming by a set of blank characters leaves a text that begins and ends with none of them; `Strip` and `IntTrim` are its two instances |
| `LcovLines.TrimPadded` | tool/check_coverage.py:25-29 | trimming removes exactly the surrounding blank characters: a text that neither begins nor ends with one comes back unchanged however it is padded |
| `LcovLines.Strip` | tool/check_coverage.py:25 | the stripped line begins and ends with no whitespace and is no longer than the line |
| `LcovLines.StripPadded` | tool/check_coverage.py:25 | stripping removes exactly the surrounding whitespace: padding an unpadded text with any whitespace on either side and stripping gives the text back |
| `LcovLines.StripIdempotent` | tool/check_coverage.py:25 | stripping a stripped line changes nothing |
| `LcovLines.IntTrim` | tool/check_coverage.py:29-31 | the text `int()` converts begins and ends with none of the characters it skips and is no longer than the payload |
| `LcovLines.IntTrimPadded` | tool/check_coverage.py:29-31 | `int()` skips exactly its surrounding whitespace: a non-empty text that neither begins nor ends with it comes back unchanged however it is padded |
| `LcovLines.ParseCount` | tool/check_coverage.py:29-31 | a payload yields a count exactly when, trimmed of the characters `int()` skips, it is a non-empty run of ASCII digits |
| `LcovLines.ParseCountDecimal` | tool/check_coverage.py:29-31 | reading back the decimal rendering of any count gives that count |
| `LcovLines.ParseCountSkipsIntSpaces` | tool/check_coverage.py:29-31 | a decimal count padded with characters `int()` skips reads as that count |
| `LcovLines.FileSeparatorIsNoCount` | tool/check_coverage.py:29-31 | every payload whose first character is U+001C is no count, since `int()` does not skip that character |
| `LcovLines.SeparatorLineUnstripped` | tool/check_coverage.py:25 | stripping leaves such an `LF:` line unchanged, inner separator included |
| `LcovLines.SeparatorTextIsBadCount` | tool/check_coverage.py:28-29 | a stripped `LF:` text whose payload starts with U+001C reads as a malformed count |
| `LcovLines.FileSeparatorLineIsBadCount` | tool/check_coverage.py:25-29 | an `LF:` line whose payload starts with U+001C and whose last character is no whitespace (such as `LF:` U+001C `10`) keeps the separator through `strip()` and reads as a malformed count |
| `LcovLines.ClassifyText` | tool/check_coverage.py:26-32 | the prefixes are tested in the order `SF:`, `LF:`, `LH:`: a line starting with `SF:` reads as the source file after the prefix; otherwise `LF:`/`LH:` reads as its count when `ParseCount` accepts the payload and as a bad count when it rejects it; a line reads as `end_of_record` exactly when it equals `end_of_record`; every other line, and only those, is ignored |
| `LcovLines.Classify` | tool/check_coverage.py:25-32 | a line is stripped and then read as `ClassifyText` reads it; `ClassifyRender` states that every written directive, however padded, reads back as itself |
| `LcovLines.ClassifyRendered` | tool/check_coverage.py:26-32 | a line whose stripped text is a rendered directive reads as that directive |
| `LcovLines.ClassifyRender` | tool/check_coverage.py:25-32 | every written directive (`SF:`, `LF:`, `LH:`, `end_of_record`) reads back as itself, whatever whitespace or line terminator surrounds it |
| `LcovParser.Directives` | tool/check_coverage.py:24-25 | one directive per line of the tracefile |
| `LcovParser.DirectiveAt` | tool/check_coverage.py:24-25 | the directive at each position is the reading of the line at that position |
| `LcovParser.DirectivesPointwise` | tool/check_coverage.py:24-25 | conversely, a sequence holding at each position the reading of that line is the tracefile's directives |
| `CoverageScenarios.FourLines` | tool/check_coverage.py:24-25 | a four-line tracefile reads as the readings of its four lines, in order |
| `LcovParser.LastOf` | tool/check_coverage.py:26-31 | finds the last line in a window with a given effect, or reports that none has it; no later line in the window has that effect |
| `LcovParser.WindowStart` | tool/check_coverage.py:36-38 | the open record starts right after an `end_of_record` (or at line 0), and no `end_of_record` lies between that start and the current line |
| `LcovParser.OpenAccStep` | tool/check_coverage.py:26-38 | `SF:`/`LF:`/`LH:` each overwrite only their own accumulator; `end_of_record` resets all three to `""`/0/0; every other line leaves them unchanged |
| `LcovParser.RecordCount` | tool/check_coverage.py:32-35 | `per_file` has exactly one entry per `end_of_record` line |
| `LcovParser.EndCountIncreases` | tool/check_coverage.py:32-35 | a later `end_of_record` has more `end_of_record` lines before it than an earlier one |
| `LcovParser.RecordPosition` | tool/check_coverage.py:32-35 | the record closed at an `end_of_record` line sits at the position given by the number of earlier `end_of_record` lines, so records are in input order |
| `LcovParser.RecordFields` | tool/check_coverage.py:19-38 | a record's name, found and hit come from the last `SF:`, `LF:`, `LH:` since the previous `end_of_record`; with none, they are `""`, 0, 0 |
| `LcovParser.ClosedSteady` | tool/check_coverage.py:24-38 | lines that are not `end_of_record` add no record |
| `LcovParser.ClosedFrame` | tool/check_coverage.py:24-38 | the records closed so far depend only on the lines read so far |
| `LcovParser.TrailingDirectivesIgnored` | tool/check_coverage.py:36-40 | directives after the last `end_of_record` contribute nothing to the records |
| `LcovParser.ParseDirectives` | tool/check_coverage.py:13-40 | the loop fails exactly when some payload is not a count, and then names the first such line; otherwise `per_file` is the declaratively described list of records and `total_hit`/`total_found` are the sums of their hit/found |
| `LcovParser.ParseLcov` | tool/check_coverage.py:13-40 | the same, stated over the tracefile's lines |
| `CoverageOrder.KeyLeIsRatioOrder` | tool/check_coverage.py:67 | cross multiplication orders and equates records exactly as their ratios `hit/found` (0 when `found == 0`) do |
| `CoverageOrder.Insert` | tool/check_coverage.py:67 | the insertion step of the sort, adding one element; `InsertPermutes`, `InsertSorted` and `InsertWithKeyOf` state what it does |
| `CoverageOrder.SortByKey` | tool/check_coverage.py:67 | `below.sort(key=...)`, returning as many records as it is given; `SortPermutes`, `SortSorts` and `SortStable` state that it is the stable ascending sort by key |
| `CoverageOrder.KeyLeTransitive` | tool/check_coverage.py:67 | the key order is transitive |
| `CoverageOrder.BelowKeyDiffers` | tool/check_coverage.py:67 | a record with a strictly smaller key than `x` does not share a key with anything that shares `x`'s key |
| `CoverageOrder.InsertPermutes` | tool/check_coverage.py:67 | inserting adds exactly the inserted record |
| `CoverageOrder.InsertSorted` | tool/check_coverage.py:67 | inserting into a sorted list keeps it sorted |
| `CoverageOrder.InsertWithKeyOf` | tool/check_coverage.py:67 | inserting goes in front of every element of equal key |
| `CoverageOrder.SortPermutes` | tool/check_coverage.py:67 | the sort returns a permutation of its input |
| `CoverageOrder.SortSorts` | tool/check_coverage.py:67 | the sort returns its input ascending by key |
| `CoverageOrder.SortStable` | tool/check_coverage.py:67 | the sort is stable: for each key, the records with that key come out in input order |
| `CoverageCheck.ExitStatus` | tool/check_coverage.py:47-84 | exit status is 0 exactly for a checked report that passed, and 1 otherwise |
| `CoverageCheck.Evaluate` | tool/check_coverage.py:53-84 | `total_found == 0` gives "no lines found" whatever the hit count; otherwise the totals are reported and the check passes exactly when `78 * total_found <= 100 * total_hit` |
| `CoverageCheck.SelectBelow` | tool/check_coverage.py:60-64 | the comprehension building `below`: every element it keeps has lines and is below the threshold, and it keeps no more than `per_file` has; `SelectBelowCounts` and `BelowListing` give each record's exact multiplicity |
| `CoverageCheck.BelowThresholdIsExact` | tool/check_coverage.py:63 | for `found > 0`, `100 * hit < 78 * found` holds exactly when `hit / found * 100 < 78` over the rationals |
| `CoverageCheck.PassedIsExact` | tool/check_coverage.py:75-84 | a report with lines passes exactly when its rational coverage is at least 78%; exact equality passes with exit status 0 |
| `CoverageCheck.SelectBelowCounts` | tool/check_coverage.py:60-64 | each record occurs in the below list as often as in `per_file` when it has lines and is below the threshold, and not at all otherwise |
| `CoverageCheck.WithKeyOfAppend` | tool/check_coverage.py:67 | the records of one key in a concatenation are those of each part, in order |
| `CoverageCheck.SelectBelowAppend` | tool/check_coverage.py:60-64 | the comprehension distributes over concatenation |
| `CoverageCheck.SelectBelowWithKey` | tool/check_coverage.py:60-67 | selecting below-threshold records and selecting the records of one key commute |
| `CoverageCheck.BelowListing` | tool/check_coverage.py:60-67 | the listed files are exactly the `per_file` entries with `found > 0` and coverage below 78%, each with its multiplicity; they are sorted ascending by coverage; ties keep their `per_file` order |
| `CoverageCheck.CheckCoverage` | tool/check_coverage.py:43-84 | a missing file gives `ReportMissing`; a bad count gives `MalformedCount`; otherwise the outcome is `Evaluate` of the parsed records and totals; exit status 0 exactly when the file exists, all counts parse, some lines are found, and coverage is at least 78% |
| `CoverageScenarios.BlockRecord` | tool/check_coverage.py:26-38 | an `SF:`/`LF:`/`LH:`/`end_of_record` block closes one record with that name and those counts |
| `CoverageScenarios.TwoBlockRecords` | tool/check_coverage.py:26-38 | two consecutive blocks close two records, in order |
| `CoverageScenarios.ReadSourceFileLine` | tool/check_coverage.py:26-27 | the line `SF:a.dart` reads as the source file `a.dart` |
| `CoverageScenarios.ReadLinesFoundLine` | tool/check_coverage.py:28-29 | the line `LF:10` reads as 10 lines found |
| `CoverageScenarios.ReadLinesHitLine` | tool/check_coverage.py:30-31 | the line `LH:8` reads as 8 lines hit |
| `CoverageScenarios.ReadEndOfRecordLine` | tool/check_coverage.py:32 | the line `end_of_record` reads as the end of a record |
| `CoverageScenarios.ReadSingleFileTracefile` | tool/check_coverage.py:24-32 | the text lines `SF:a.dart`, `LF:10`, `LH:8`, `end_of_record` read as the block of `a.dart` with 10 lines found and 8 hit |
| `CoverageScenarios.ScenarioSingleFilePasses` | tool/check_coverage.py:13-84 | `a.dart` with 8 of 10 lines gives 8/10 overall, an empty below list, and a pass |
| `CoverageScenarios.ScenarioTwoFilesFails` | tool/check_coverage.py:13-84 | `a.dart` 4/10 and `b.dart` 9/10 give 13/20, a below list of just `a.dart`, and a failure |
| `CoverageScenarios.NoRecordMeansNoLines` | tool/check_coverage.py:53-55 | a tracefile that closes no record has no records, so the outcome is "no lines found" with exit status 1 |

## Left out

- File system and I/O: resolving `COVERAGE_FILE`, `os.path.normpath`, `os.path.isfile`, and `open` with UTF-8 decoding (tool/check_coverage.py:7-9, 23, 44-46). The tracefile comes in as `Option<seq<string>>` of lines already split; Python's universal-newline splitting is not modelled.
- All printed output: the messages on standard error and the report on standard output, with their `:5.1f`/`:.1f`/`:.0f` renderings (tool/check_coverage.py:47-48, 54, 68-83). `Outcome` carries the data that is printed (totals, sorted below list, pass/fail), not the text.
- Floating point: the model decides every ratio test on exact rationals. IEEE division could disagree with them only for counts far beyond any real report: two distinct ratios rounding to the same double needs `found` around 10^8 per file, and a near-78% ratio rounding across 78.0 needs counts around 10^14.
- `ParseCount`: it rejects signs, underscores and non-ASCII digits, which `int()` accepts, so a negative count becomes a parse error instead of a negative total. It also does not trim Unicode whitespace above U+007F, which `int()` skips. It does not enforce the limit of 4300 digits that `int()` applies by default from Python 3.11 on: a longer run of digits reads as a count where `int()` raises `ValueError`.
- `Strip`: it removes only the whitespace characters below U+0080 that `str.strip` removes (tab, line feed, vertical tab, form feed, carriage return, U+001C to U+001F, space). Unicode whitespace above U+007F is not stripped.
- `ParseLcov`: the source strips and classifies each line inside its loop. The model reads all the lines into directives first (`Directives`) and then runs the loop over them. Reading a line has no side effect, so the result and the first failing line are the same. The model does not show lines being read lazily.
- The source does not catch `ValueError`, so it prints a traceback. That traceback is not modelled; the model keeps only the failure and its exit status 1.
- `scripts/flutter_analyze.py` and `scripts/dart_format.py`: each runs one external program (`flutter analyze` or `dart format`, with the command-line arguments passed on). The environment is copied without `GIT_DIR` and `GIT_WORK_TREE`, and the program's exit status is returned as the script's own. They contain no logic of their own to verify.
- `tool/analyze_packages.py`: it runs `dart analyze --fatal-infos` in the inherited environment, once for each directory under `packages/` that has a `pubspec.yaml`, in sorted order of name. It collects the names of the packages whose run returned a nonzero status and prints them. It returns 1 if any package failed and 0 otherwise. Its only logic is this directory walk and the failure list, and it depends on the file system and external processes.
- The code has no error kind of its own for a malformed count: `int()` raises and the run ends. The model follows the code. It aborts at the first bad count with exit status 1 (`MalformedCount`) and keeps no partial result.
