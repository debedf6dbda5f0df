/**
 * `main` (hack/verify-flags-underscore.py): load the exceptions, pick and
 * normalize the file list, reconcile the declared flags, build the pattern,
 * scan, and report. The directory walk, the file reads, the declaration
 * patterns and the order `list(flags)` gives the known flags are inputs.
 */
module Check {
  import opened Text
  import opened FileFilter
  import opened Pattern
  import opened KnownFlags
  import opened Exceptions
  import opened Scan

  /** What a run prints. */
  datatype Output =
    | NewFlagsOutput(names: set<string>)
    | ViolationOutput(banner: bool, rows: seq<string>)

  /** The inputs a run reads from the environment and the file system. */
  datatype Inputs = Inputs(
    root: string,                        // the repository root, `rootdir`
    skipExceptions: bool,                // `-e` / `--skip-exceptions`
    fileArgs: seq<string>,               // the positional file names
    walked: seq<string>,                 // what `get_all_files(rootdir)` returns
    knownLines: seq<string>,             // lines of hack/verify-flags/known-flags.txt
    exceptionLines: seq<string>,         // lines of hack/verify-flags/exceptions.txt
    captured: string -> seq<string>,     // flag names the declaration patterns capture in a file
    read: string -> seq<string>,         // the lines of a file
    flagOrder: seq<string>)              // the order `list(flags)` yields the known flags in

  /** The candidate files: the explicit list when there is one, else the walk, normalized. */
  function Candidates(inp: Inputs): seq<string>
  {
    Normalized(inp.root, if |inp.fileArgs| > 0 then inp.fileArgs else inp.walked)
  }

  /** The scan's rows for the given inputs, with the exceptions file honoured or not. */
  function ScanRows(inp: Inputs, skipExceptions: bool): seq<string>
  {
    Rows(Violations(inp.root, Candidates(inp), inp.read, Alternatives(inp.flagOrder),
                    ExceptionSet(skipExceptions, inp.exceptionLines)))
  }

  /** What a run prints: the new flags when there are any, otherwise the banner and the rows. */
  function Report(inp: Inputs): Output
  {
    var names := NewFlags(inp.knownLines, Candidates(inp), inp.captured);
    if names != {} then NewFlagsOutput(names)
    else
      var rows := ScanRows(inp, inp.skipExceptions);
      ViolationOutput(rows != [] && !inp.skipExceptions, rows)
  }

  /**
   * The exit status `sys.exit(main())` produces: `get_flags` exits with 1 on
   * new flags, and otherwise `main` returns `None`, which exits with 0.
   */
  function ExitStatusAsWritten(out: Output): int
  {
    if out.NewFlagsOutput? then 1 else 0
  }

  /** The exit status the report calls for: non-zero for new flags and for any printed row. */
  function ExitStatus(out: Output): int
  {
    match out
    case NewFlagsOutput(_) => 1
    case ViolationOutput(_, rows) => if rows == [] then 0 else 1
  }

  /**
   * As written, a run that gets past the exceptions file fails exactly when
   * new flags are declared, whatever the scan finds.
   */
  lemma ExitStatusAsWrittenExactly(inp: Inputs)
    requires inp.skipExceptions || forall l :: l in inp.exceptionLines ==> ':' in l
    ensures ExitStatusAsWritten(Report(inp)) == 0 || ExitStatusAsWritten(Report(inp)) == 1
    ensures ExitStatusAsWritten(Report(inp)) == 1 <==> NewFlags(inp.knownLines, Candidates(inp), inp.captured) != {}
  {
  }

  /** Corrected, a run succeeds exactly when there are no new flags and the scan reports nothing. */
  lemma ExitStatusExactly(inp: Inputs)
    ensures ExitStatus(Report(inp)) == 0 || ExitStatus(Report(inp)) == 1
    ensures ExitStatus(Report(inp)) == 0 <==>
      NewFlags(inp.knownLines, Candidates(inp), inp.captured) == {} &&
      Violations(inp.root, Candidates(inp), inp.read, Alternatives(inp.flagOrder),
                 ExceptionSet(inp.skipExceptions, inp.exceptionLines)) == []
  {
  }

  /**
   * A run that gets past the exceptions file, with no new flags and a scan
   * that reports a row, exits 0 as written, and 1 once corrected.
   */
  lemma ViolationsExitZeroAsWritten(inp: Inputs)
    requires inp.skipExceptions || forall l :: l in inp.exceptionLines ==> ':' in l
    requires NewFlags(inp.knownLines, Candidates(inp), inp.captured) == {}
    requires Violations(inp.root, Candidates(inp), inp.read, Alternatives(inp.flagOrder),
                        ExceptionSet(inp.skipExceptions, inp.exceptionLines)) != []
    ensures Report(inp).ViolationOutput? && Report(inp).rows != []
    ensures ExitStatusAsWritten(Report(inp)) == 0 && ExitStatus(Report(inp)) == 1
  {
  }

  /**
   * `main` run to the end: it prints `out` and exits with `status`, the exit
   * status `sys.exit(main())` gives. The exceptions file is read with the
   * corrected loader; as written, a line without a colon ends the run before
   * this point (`ExceptionsAsWritten`).
   */
  method RunCheck(inp: Inputs) returns (out: Output, status: int)
    requires forall f :: f in inp.flagOrder <==> f in inp.knownLines
    requires forall f :: f in inp.knownLines ==> NoMeta(f)
    ensures out == Report(inp)
    ensures out.NewFlagsOutput? <==> NewFlags(inp.knownLines, Candidates(inp), inp.captured) != {}
    ensures out.ViolationOutput? ==>
      out.rows == ScanRows(inp, inp.skipExceptions) && out.banner == (out.rows != [] && !inp.skipExceptions)
    ensures status == ExitStatusAsWritten(out)
    ensures status == 1 <==> NewFlags(inp.knownLines, Candidates(inp), inp.captured) != {}
    ensures status == 0 || status == 1
  {
    var exceptions := LoadExceptions(inp.skipExceptions, inp.exceptionLines);
    var files := if |inp.fileArgs| > 0 then inp.fileArgs else inp.walked;
    files := NormalizeFiles(inp.root, files);
    var flags := GetFlags(inp.knownLines, files, inp.captured);
    if flags.NewFlagsFound? {
      out := NewFlagsOutput(flags.names);
      status := 1;
      return;
    }
    var flagRE := FlagsToRe(inp.flagOrder);
    assert flagRE == Alternatives(inp.flagOrder);
    var badLines := ScanFiles(inp.root, files, inp.read, flagRE, exceptions);
    out := ViolationOutput(|badLines| != 0 && !inp.skipExceptions, Rows(badLines));
    status := 0;
  }

  /**
   * With no new flags, skipping the exceptions file reports every row the
   * normal run reports, in the same order, and with an empty exceptions
   * file the two reports are the same.
   */
  lemma SkipReportsMore(inp: Inputs)
    ensures IsSubsequence(
      Violations(inp.root, Candidates(inp), inp.read, Alternatives(inp.flagOrder), ExceptionSet(false, inp.exceptionLines)),
      Violations(inp.root, Candidates(inp), inp.read, Alternatives(inp.flagOrder), ExceptionSet(true, inp.exceptionLines)))
    ensures inp.exceptionLines == [] ==> ScanRows(inp, false) == ScanRows(inp, true)
  {
    ExceptionsOnlyRemove(inp.root, Candidates(inp), inp.read, Alternatives(inp.flagOrder), ExceptionSet(false, inp.exceptionLines));
    if inp.exceptionLines == [] {
      assert ExceptionSet(false, inp.exceptionLines) == ExceptionSet(true, inp.exceptionLines);
    }
  }
}
