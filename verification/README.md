# verify-flags-underscore, modelled in Dafny

`hack/verify-flags-underscore.py` is a repository hygiene checker. Command-line
flags are named with dashes. The checker reads the known flag names from
`hack/verify-flags/known-flags.txt`. It fails when a `.go` file declares a flag
name with `-` or `_` that is not in that file. Otherwise it builds one regular
expression that matches every known flag in both its dash and its underscore
spelling. It then scans every candidate file line by line. A line is listed
when the first match in it contains `_`, unless the pair `path:line` is
pre-approved in `hack/verify-flags/exceptions.txt`.

This project models the rule engine under the script's I/O:

- `file_filter.dfy` (`FileFilter`): `normalize_files` as a two-loop method.
  It also holds `os.path.join` and `isabs` as POSIX string rules, and
  `os.path.relpath` as POSIX path arithmetic. Both paths are split into their
  non-empty components and resolved: `.` is dropped and `..` takes back one
  component. Their common leading components are then dropped, and each
  component left in the root becomes `..`.
- `known_flags.dfy` (`KnownFlags`): `get_flags` after its regular-expression
  step. It takes the names captured in each file as an input.
- `pattern.dfy` (`Pattern`): `flags_to_re` as a loop that builds the pattern
  text. A small compiler reads back the fragment of Python's regular-expression
  syntax that this text uses: literal characters, the class `[-_]`, and `|`.
- `matching.dfy` (`Matching`): `re.search` over an alternation of fixed-length
  branches. The leftmost start position wins. At that position, the first
  branch in list order wins. `line_has_bad_flag` is built on this search.
- `exceptions.dfy` (`Exceptions`): `load_exceptions`, with each line split at
  its first colon.
- `scan.dfy` (`Scan`): the nested scan loop of `main` and the `path:line`
  report rows.
- `check.dfy` (`Check`): `main` as a whole, with every file-system and
  environment input collected in one `Inputs` value.
- `text.dfy` and `wrappers.dfy`: string, subsequence, `Option` and `Result`
  helpers.

In four places the script's evident intent and its code differ. The model
follows the code:

- The comment at :196 says the scan looks for any declared flag that "now has
  an _". `line_has_bad_flag` (:98-104) looks only at the first match in the
  line. A flag listed earlier that is a prefix of another flag can therefore
  hide an underscore spelling (`FlagOrderDecides`). A dash-spelled first
  occurrence also hides any underscore spelling that comes later in the line
  (`LaterUnderscoreIgnored`).
- The message at :173 reports an invalid exceptions line, and the `continue`
  after it would skip that line. The call raises instead (see Findings).
- The banner at :208 asks the user to act on the violations it lists. The run
  still exits 0, because `main` returns `None` (see Findings).
- The directory walk (:57-68) prunes `.git` and matches `Godeps` and
  `third_party` as directory names. An explicit file list goes only through
  `normalize_files` (:82-96). That function matches its four names as
  substrings anywhere in a path and does not drop `.git` paths.

## Model

| member | source | states |
|---|---|---|
| `FileFilter.Join` | hack/verify-flags-underscore.py:93-95 | an absolute path is kept as it is; a relative path gets the root in front of it and keeps its text at the end; a path joined onto an absolute root is absolute |
| `FileFilter.NormalizeFiles` | hack/verify-flags-underscore.py:82-96 | the append loop followed by the in-place rewrite gives exactly the kept paths, in order, each joined onto the root |
| `FileFilter.KeptExactly` | hack/verify-flags-underscore.py:84-92 | a path is kept iff it is in the input and contains none of `Godeps`, `third_party`, `exceptions.txt`, `known-flags.txt` and does not end in `.svg` or `.gliffy` |
| `FileFilter.KeptInOrder` | hack/verify-flags-underscore.py:85-92 | the kept paths are a subsequence of the input (order kept), and there are no more of them than inputs |
| `FileFilter.NormalizedResolves` | hack/verify-flags-underscore.py:93-96 | the output has one entry per kept path; absolute entries are unchanged; relative entries start with the root and end with the original text; with an absolute root every output is absolute |
| `FileFilter.JoinComponents` | hack/verify-flags-underscore.py:95 | the components of a relative name joined onto the root are the root's components followed by the name's |
| `FileFilter.Resolve` | hack/verify-flags-underscore.py:198 | the resolved components (`os.path.abspath`, that is `posixpath.normpath`, of an absolute path) are all among the given ones, and none of them is `.` or `..` |
| `FileFilter.Relpath` | hack/verify-flags-underscore.py:198 | `os.path.relpath` always gives a non-empty name that is not absolute: the relative components joined with `/`, or `.` when there are none |
| `FileFilter.RelativeParts` | hack/verify-flags-underscore.py:198 | the relative components consist of `..` steps and components of the path, and there are none exactly when the path and the root are the same |
| `FileFilter.RelativePartsBelow` | hack/verify-flags-underscore.py:198 | a path below the root is reached by exactly the components that follow the root's |
| `FileFilter.RelpathIsDot` | hack/verify-flags-underscore.py:198 | `relpath` gives `.` exactly when the path and the root resolve to the same directory |
| `FileFilter.RelpathOfJoin` | hack/verify-flags-underscore.py:198 | a relative name without `..` components, joined onto the root and made relative again, is reported with its `.` and empty components dropped (`./pkg//a.go` as `pkg/a.go`), or as `.` when nothing is left |
| `KnownFlags.GetFlags` | hack/verify-flags-underscore.py:111-150 | the run fails iff the set of new flags is non-empty, and then carries exactly that set; otherwise the flags are exactly the known-flags lines |
| `KnownFlags.GoCapturesFrom` | hack/verify-flags-underscore.py:131-139 | a name is captured iff some listed file ending in `.go` declares it; other files are not read for declarations |
| `KnownFlags.NewFlagExactly` | hack/verify-flags-underscore.py:140-145 | a name is new iff it has `-` or `_`, is not literally a known-flags line, and is declared in a listed `.go` file; names with neither character are never new |
| `KnownFlags.ComparisonIsLiteral` | hack/verify-flags-underscore.py:144 | `my_flag` declared in a `.go` file is new even though `my-flag` is known, because there is no dash/underscore normalization at this step |
| `Pattern.CompileFlagText` | hack/verify-flags-underscore.py:157 | the substituted text of a flag compiles to one branch with `[-_]` at each `-`/`_` and the flag's own character elsewhere, whatever text follows |
| `Pattern.CompileFlagsText` | hack/verify-flags-underscore.py:152-162 | the text joined with bars compiles to one branch per flag in list order; an empty flag list gives the empty pattern |
| `Pattern.FlagsToRe` | hack/verify-flags-underscore.py:152-162 | the compiled pattern has one branch per flag, and branch `i` is flag `i`'s pattern; with no flags it is the single empty branch |
| `Matching.FirstBranchAt` | hack/verify-flags-underscore.py:99 | the branch chosen at a position is the first in list order that matches there; none is chosen iff no branch matches there |
| `Matching.SearchFrom` | hack/verify-flags-underscore.py:99 | a match found from position `i` on starts at or after `i` and is leftmost-first; when none is found, no branch matches anywhere |
| `Matching.Search` | hack/verify-flags-underscore.py:99 | `re.search` returns the leftmost-first match, or nothing exactly when no branch matches at any position |
| `Matching.LeftmostFirstUnique` | hack/verify-flags-underscore.py:99 | at most one match satisfies the leftmost-first rule, so that rule determines the search result |
| `Matching.LineHasBadFlag` | hack/verify-flags-underscore.py:98-104 | a bad line contains `_`, and some branch of the pattern matches in it |
| `Matching.FlagPatternMatches` | hack/verify-flags-underscore.py:32 | a flag's branch matches at a position iff the text there spells the flag with `-` and `_` interchangeable (both directions) |
| `Matching.BothSpellingsMatch` | hack/verify-flags-underscore.py:153 | the all-dash and the all-underscore spelling of a flag both match its branch, at any place in any line |
| `Matching.EarliestMatchDecides` | hack/verify-flags-underscore.py:98-104 | when flag `j` is the first flag to match at the earliest matching position, the line is bad iff that occurrence contains `_` |
| `Matching.NoFlagOccurrenceNotBad` | hack/verify-flags-underscore.py:99-101 | a line with no occurrence of any known flag, in either spelling, is not bad |
| `Matching.EmptyFlagListNeverBad` | hack/verify-flags-underscore.py:160 | with no known flags the pattern is empty and matches empty text, so no line is bad |
| `Matching.FirstFlagAtStartDecides` | hack/verify-flags-underscore.py:98-104 | when the first listed flag matches at the start of the line, the line is bad iff that occurrence contains `_` |
| `Matching.UnderscoreSpellingFirstIsBad` | hack/verify-flags-underscore.py:102-103 | when the first listed flag has a `-` or `_`, a line that starts with its underscore spelling is bad |
| `Matching.FlagOrderDecides` | hack/verify-flags-underscore.py:150 | `my_flag` is clean with the flag order `my`, `my-flag` and bad with the order `my-flag`, `my` |
| `Matching.LaterUnderscoreIgnored` | hack/verify-flags-underscore.py:98-104 | `my-flag other_flag` holds the underscore spelling of a known flag, yet it is not bad, because the first match `my-flag` has no `_` |
| `Exceptions.SplitFirstColon` | hack/verify-flags-underscore.py:171-176 | a split yields a path without `:` whose path, colon and rest give back the line; there is no split iff the line has no `:` |
| `Exceptions.LoadExceptions` | hack/verify-flags-underscore.py:164-178 | the loop collects the empty set when exceptions are skipped; otherwise it collects the split of every line that has a colon |
| `Exceptions.SplitAtFirstColon` | hack/verify-flags-underscore.py:171 | a row `path:text` with a colon-free path splits back into `(path, text)`, and later colons stay in the text |
| `Exceptions.ExceptedExactly` | hack/verify-flags-underscore.py:166-177 | a pair is excepted iff exceptions are honoured and the file has the line `path:text` with a colon-free path |
| `Exceptions.ExceptionsAsWritten` | hack/verify-flags-underscore.py:170-174 | as written, loading succeeds iff exceptions are skipped or every line has a colon, and when it succeeds the result is the exception set |
| `Exceptions.MalformedLineRaises` | hack/verify-flags-underscore.py:172-174 | a good row followed by a line without a colon raises as written, while the corrected loader keeps the row and drops the line |
| `Scan.ScanFiles` | hack/verify-flags-underscore.py:195-204 | the nested loop produces exactly the bad, non-excepted (relative path, line) pairs, in file order and then line order |
| `Scan.RowParsesBack` | hack/verify-flags-underscore.py:210 | a printed `path:line` row whose path has no colon is split by the exceptions loader back into its own pair |
| `Scan.Rows` | hack/verify-flags-underscore.py:209-210 | one printed row per violation, in order; every row whose path has no colon reads back, as an exceptions line, as that violation's pair |
| `Scan.FileViolationExactly` | hack/verify-flags-underscore.py:200-203 | a file contributes a pair iff the pair has the file's relative path, its line is in the file and bad, and it is not excepted |
| `Scan.ViolationExactly` | hack/verify-flags-underscore.py:197-203 | a pair is reported iff some scanned file has that relative path and line, the line is bad, and the pair is not excepted |
| `Scan.FileViolationsSubsequence` | hack/verify-flags-underscore.py:202 | within one file, the pairs reported with exceptions are a subsequence of those reported without them |
| `Scan.ExceptionsOnlyRemove` | hack/verify-flags-underscore.py:202 | with any exception set, the report is a subsequence of the full list of bad lines |
| `Scan.ReportedRowsSuppress` | hack/verify-flags-underscore.py:208-210 | when the printed rows are used as the exceptions file, the scan reports nothing, provided no relative path contains a colon |
| `Check.ExitStatusAsWrittenExactly` | hack/verify-flags-underscore.py:149 | as written, a run whose exceptions file loads (exceptions skipped, or every line has a colon) exits 0 or 1, and exits 1 exactly when new flags are declared, whatever the scan finds |
| `Check.ExitStatusExactly` | hack/verify-flags-underscore.py:206-213 | corrected, a run exits 0 exactly when no new flags are declared and the scan reports no pair |
| `Check.ViolationsExitZeroAsWritten` | hack/verify-flags-underscore.py:206-213 | a run whose exceptions file loads, with no new flags and a scan that reports a pair, prints rows, exits 0 as written and exits 1 once corrected |
| `Check.RunCheck` | hack/verify-flags-underscore.py:180-213 | new flags take precedence and are the whole output exactly when there are some; otherwise the rows are the scan's violations over the normalized candidates, and the banner is printed iff there are rows and exceptions are honoured; the exit status is 1 exactly when there are new flags |
| `Check.SkipReportsMore` | hack/verify-flags-underscore.py:166-167 | a run with `-e` lists every row a normal run lists, in the same order; with an empty exceptions file the two runs print the same rows |

## Findings

| source | as written | input that shows it | evidently intended | confidence | as-written member | corrected member |
|---|---|---|---|---|---|---|
| hack/verify-flags-underscore.py:173 | the message for a line without a colon calls `printf`, which Python does not define, so a `NameError` ends the run | an exceptions file holding `a.go:my_flag` and then `no colon` | print the message, skip the line and go on | high; not executed | `Exceptions.MalformedLineRaises` | `Exceptions.LoadExceptions` |
| hack/verify-flags-underscore.py:206-213 | `main` returns `None` after printing violations, so `sys.exit(main())` exits 0 | a known flag `my-flag` and a scanned line `foo := "my_flag"` without an exception | exit 1 whenever violation rows are printed | medium; not executed | `Check.ViolationsExitZeroAsWritten` | `Check.ExitStatusExactly` |

## Left out

- Argument parsing (:26-29) is not modelled. `skipExceptions` and the file arguments are fields of `Check.Inputs`.
- `is_binary` and `get_all_files` (:35-80) are directory walking and file reading. The result of the walk is the input `walked`. The `finally: f.close()` at :52-53 raises `NameError` when `open` fails. That is also outside the model.
- The six declaration patterns and `findall` over Go source (:122-139) are not modelled. The names they capture in a file are the input `captured(path)`.
- File reads and `splitlines` are not modelled. The lines of a file are the input `read(path)`, and the two control files are given as their lines.
- `list(flags)` (:150) orders a Python set by hash. The order is the input `flagOrder`. `RunCheck` requires it to have the same members as the known-flags lines. It does not require the list to be free of duplicates.
- Pattern.FlagsToRe: requires flag names without regular-expression metacharacters. The source does not escape them (:157). `Compile` gives no meaning to such text.
- Check.RunCheck: requires the known flags to be free of metacharacters, for the same reason.
- Matching over any other regular-expression syntax is not modelled. The general regex engine is outside the model.
- `os.path.abspath` and `os.path.dirname(__file__)` for the root (:181-182) are not modelled. The root is the input `root`.
- Relpath / RelpathOfJoin: no lemma states the name reported for a file argument with `..` components. `Relpath` computes it, but `RelpathOfJoin` covers only names without `..`.
- Relpath: `os.path.abspath` resolves a relative argument against the working directory. The model resolves it as if it were under `/`. `main` passes only absolute paths, because its root comes from `os.path.abspath` (:182).
- Check.ExitStatusAsWrittenExactly, Check.ViolationsExitZeroAsWritten: both require that the exceptions file loads as written. With a line without a colon the run raises `NameError` at :173 and exits 1 with nothing printed. `Exceptions.ExceptionsAsWritten` states when that happens.
- Check.RunCheck: loads the exceptions with the corrected `LoadExceptions`. As written, a line without a colon, a blank line included, raises `NameError` at :173 before `get_flags` runs (:184 comes before :192), and nothing else is printed. Only `Exceptions.ExceptionsAsWritten` models that path.
- The new-flags message and the order of its names (:147-148) are not modelled. The output carries the set of names.
