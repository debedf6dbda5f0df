/**
 * The scan and report loop of `main` (hack/verify-flags-underscore.py):
 * every line of every candidate file is tested with `line_has_bad_flag`, and
 * the bad (relative path, line) pairs that are not pre-approved are listed
 * in file order, then line order, and printed as `path:line` rows. The
 * lines of a file are an input, `read(path)`.
 */
module Scan {
  import opened Wrappers
  import opened Text
  import opened FileFilter
  import opened Pattern
  import opened Matching
  import opened Exceptions

  /** The reported pairs of one file, in line order. */
  function FileViolations(relname: string, lines: seq<string>, re: Regex, exceptions: set<Entry>): seq<Entry>
  {
    if lines == [] then []
    else
      FileViolations(relname, Init(lines), re, exceptions) +
      (if LineHasBadFlag(Last(lines), re) && (relname, Last(lines)) !in exceptions then [(relname, Last(lines))] else [])
  }

  /** The reported pairs of all files, in file order. */
  function Violations(root: string, paths: seq<string>, read: string -> seq<string>, re: Regex, exceptions: set<Entry>): seq<Entry>
  {
    if paths == [] then []
    else
      Violations(root, Init(paths), read, re, exceptions) +
      FileViolations(Relpath(root, Last(paths)), read(Last(paths)), re, exceptions)
  }

  /** The nested loop that fills `bad_lines`. */
  method ScanFiles(root: string, paths: seq<string>, read: string -> seq<string>, re: Regex, exceptions: set<Entry>)
    returns (badLines: seq<Entry>)
    ensures badLines == Violations(root, paths, read, re, exceptions)
  {
    badLines := [];
    for i := 0 to |paths|
      invariant badLines == Violations(root, paths[..i], read, re, exceptions)
    {
      var pathname := paths[i];
      var relname := Relpath(root, pathname);
      var lines := read(pathname);
      ghost var before := badLines;
      for j := 0 to |lines|
        invariant badLines == before + FileViolations(relname, lines[..j], re, exceptions)
      {
        var line := lines[j];
        assert Init(lines[..j + 1]) == lines[..j];
        if LineHasBadFlag(line, re) {
          if (relname, line) !in exceptions {
            badLines := badLines + [(relname, line)];
          }
        }
      }
      assert lines[..|lines|] == lines;
      assert Init(paths[..i + 1]) == paths[..i];
    }
    assert paths[..|paths|] == paths;
  }

  /** One printed row, `"%s:%s" % (relname, line)`. */
  function Row(v: Entry): string { v.0 + ":" + v.1 }

  /** A printed row whose path has no colon reads back, as an exceptions line, as its own pair. */
  lemma RowParsesBack(v: Entry)
    ensures ':' !in v.0 ==> SplitFirstColon(Row(v)) == Some(v)
  {
    if ':' !in v.0 {
      SplitAtFirstColon(v.0, v.1);
    }
  }

  /**
   * The printed rows, one per reported pair and in the same order; each row
   * whose path has no colon reads back as its pair when pasted into the
   * exceptions file.
   */
  function Rows(vs: seq<Entry>): (rows: seq<string>)
    ensures |rows| == |vs|
    ensures forall i :: 0 <= i < |vs| ==> rows[i] == Row(vs[i])
    ensures forall i :: 0 <= i < |vs| && ':' !in vs[i].0 ==> SplitFirstColon(rows[i]) == Some(vs[i])
  {
    if vs == [] then []
    else
      RowParsesBack(Last(vs));
      Rows(Init(vs)) + [Row(Last(vs))]
  }

  lemma {:induction false} FileViolationExactly(relname: string, lines: seq<string>, re: Regex, exceptions: set<Entry>, v: Entry)
    ensures v in FileViolations(relname, lines, re, exceptions) <==>
      v.0 == relname && v.1 in lines && LineHasBadFlag(v.1, re) && v !in exceptions
    decreases |lines|
  {
    if lines != [] {
      var line := Last(lines);
      var tail := if LineHasBadFlag(line, re) && (relname, line) !in exceptions then [(relname, line)] else [];
      var before := FileViolations(relname, Init(lines), re, exceptions);
      FileViolationExactly(relname, Init(lines), re, exceptions, v);
      assert FileViolations(relname, lines, re, exceptions) == before + tail;
      InitLast(lines);
      assert v.1 in lines <==> v.1 in Init(lines) || v.1 == line;
      assert v == (v.0, v.1);
      assert v in tail <==> v.0 == relname && v.1 == line && LineHasBadFlag(line, re) && v !in exceptions;
    }
  }

  /**
   * A pair is reported exactly when some scanned file has that relative
   * path and that line, the line is bad, and the pair is not excepted.
   */
  lemma {:induction false} ViolationExactly(root: string, paths: seq<string>, read: string -> seq<string>, re: Regex, exceptions: set<Entry>, v: Entry)
    ensures v in Violations(root, paths, read, re, exceptions) <==>
      v !in exceptions && LineHasBadFlag(v.1, re) &&
      exists p :: p in paths && Relpath(root, p) == v.0 && v.1 in read(p)
    decreases |paths|
  {
    if paths != [] {
      var last := Last(paths);
      var relname := Relpath(root, last);
      ViolationExactly(root, Init(paths), read, re, exceptions, v);
      FileViolationExactly(relname, read(last), re, exceptions, v);
      assert Violations(root, paths, read, re, exceptions) ==
        Violations(root, Init(paths), read, re, exceptions) + FileViolations(relname, read(last), re, exceptions);
      InitLast(paths);
      if exists p :: p in paths && Relpath(root, p) == v.0 && v.1 in read(p) {
        var p :| p in paths && Relpath(root, p) == v.0 && v.1 in read(p);
        if p != last {
          assert p in Init(paths);
        }
      }
    }
  }

  lemma {:induction false} FileViolationsSubsequence(relname: string, lines: seq<string>, re: Regex, exceptions: set<Entry>)
    ensures IsSubsequence(FileViolations(relname, lines, re, exceptions), FileViolations(relname, lines, re, {}))
    decreases |lines|
  {
    if lines != [] {
      var init := Init(lines);
      FileViolationsSubsequence(relname, init, re, exceptions);
      var mine := if LineHasBadFlag(Last(lines), re) && (relname, Last(lines)) !in exceptions then [(relname, Last(lines))] else [];
      var all := if LineHasBadFlag(Last(lines), re) then [(relname, Last(lines))] else [];
      if mine == all {
        SubsequenceRefl(all);
      } else {
        assert mine == [];
      }
      SubsequenceConcat(FileViolations(relname, init, re, exceptions), FileViolations(relname, init, re, {}), mine, all);
    }
  }

  /**
   * Honouring exceptions only removes rows: whatever the exception set, the
   * report is the full list of bad lines with some rows left out, in the same order.
   */
  lemma {:induction false} ExceptionsOnlyRemove(root: string, paths: seq<string>, read: string -> seq<string>, re: Regex, exceptions: set<Entry>)
    ensures IsSubsequence(Violations(root, paths, read, re, exceptions), Violations(root, paths, read, re, {}))
    decreases |paths|
  {
    if paths != [] {
      var p := Last(paths);
      ExceptionsOnlyRemove(root, Init(paths), read, re, exceptions);
      FileViolationsSubsequence(Relpath(root, p), read(p), re, exceptions);
      SubsequenceConcat(
        Violations(root, Init(paths), read, re, exceptions), Violations(root, Init(paths), read, re, {}),
        FileViolations(Relpath(root, p), read(p), re, exceptions), FileViolations(Relpath(root, p), read(p), re, {}));
    }
  }

  /**
   * Pasting the printed rows into the exceptions file silences them: with
   * those rows as exceptions the scan reports nothing, provided no relative
   * path holds a colon.
   */
  lemma ReportedRowsSuppress(root: string, paths: seq<string>, read: string -> seq<string>, re: Regex)
    requires forall p :: p in paths ==> ':' !in Relpath(root, p)
    ensures Violations(root, paths, read, re, ExceptionSet(false, Rows(Violations(root, paths, read, re, {})))) == []
  {
    var all := Violations(root, paths, read, re, {});
    var exceptions := ExceptionSet(false, Rows(all));
    var left := Violations(root, paths, read, re, exceptions);
    forall v | v in all
      ensures v in exceptions
    {
      ViolationExactly(root, paths, read, re, {}, v);
      var p :| p in paths && Relpath(root, p) == v.0 && v.1 in read(p);
      var k :| 0 <= k < |all| && all[k] == v;
      assert Rows(all)[k] == Row(v);
      ExceptedExactly(false, Rows(all), v);
    }
    forall v
      ensures v !in left
    {
      ViolationExactly(root, paths, read, re, exceptions, v);
      ViolationExactly(root, paths, read, re, {}, v);
    }
    if left != [] {
      FirstIsMember(left);
      assert false;
    }
  }
}
