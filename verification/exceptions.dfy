/**
 * `load_exceptions` (hack/verify-flags-underscore.py): each line of the
 * exceptions file, split at its first `:`, is a pre-approved
 * (relative path, line text) pair. The file's lines are an input.
 */
module Exceptions {
  import opened Wrappers

  /** A pre-approved violation, or a reported one: (relative path, line text). */
  type Entry = (string, string)

  /** `s.split(":", 1)` when it yields two parts; `None` when `s` has no colon. */
  function SplitFirstColon(s: string): (r: Option<Entry>)
    ensures r.Some? ==> ':' !in r.value.0 && r.value.0 + ":" + r.value.1 == s
    ensures r.None? <==> ':' !in s
  {
    if s == [] then None
    else if s[0] == ':' then Some(([], s[1..]))
    else
      match SplitFirstColon(s[1..])
      case None => None
      case Some(e) => Some(([s[0]] + e.0, e.1))
  }

  /** What `load_exceptions` returns: nothing when exceptions are skipped, else one pair per line with a colon. */
  function ExceptionSet(skipExceptions: bool, lines: seq<string>): set<Entry>
  {
    if skipExceptions then {}
    else set l | l in lines && SplitFirstColon(l).Some? :: SplitFirstColon(l).value
  }

  /** `load_exceptions`, with a line that has no colon dropped (see `ExceptionsAsWritten`). */
  method LoadExceptions(skipExceptions: bool, lines: seq<string>) returns (exceptions: set<Entry>)
    ensures exceptions == ExceptionSet(skipExceptions, lines)
  {
    exceptions := {};
    if skipExceptions {
      return;
    }
    for i := 0 to |lines|
      invariant exceptions == ExceptionSet(false, lines[..i])
    {
      var exception := lines[i];
      assert lines[..i + 1] == lines[..i] + [exception];
      var out := SplitFirstColon(exception);
      if out.None? {
        continue;
      }
      var (filename, line) := out.value;
      exceptions := exceptions + {(filename, line)};
    }
    assert lines[..|lines|] == lines;
  }

  /** The first `:` splits a row; any later `:` stays in the line text. */
  lemma {:induction false} SplitAtFirstColon(path: string, text: string)
    requires ':' !in path
    ensures SplitFirstColon(path + ":" + text) == Some((path, text))
    decreases |path|
  {
    if path == [] {
      assert path + ":" + text == [':'] + text;
    } else {
      SplitAtFirstColon(path[1..], text);
      var row := path + ":" + text;
      assert row[0] == path[0] && row[0] != ':';
      assert row[1..] == path[1..] + ":" + text;
      assert [path[0]] + path[1..] == path;
    }
  }

  /**
   * A pair is excepted exactly when exceptions are honoured and some line
   * reads `path:text` with no colon in `path`; colonless lines add nothing.
   */
  lemma ExceptedExactly(skipExceptions: bool, lines: seq<string>, e: Entry)
    ensures e in ExceptionSet(skipExceptions, lines) <==>
      !skipExceptions && ':' !in e.0 && e.0 + ":" + e.1 in lines
  {
    if !skipExceptions && ':' !in e.0 && e.0 + ":" + e.1 in lines {
      SplitAtFirstColon(e.0, e.1);
    }
  }

  /**
   * `load_exceptions` as written: the message for a line without a colon
   * calls `printf`, which Python does not define, so the first such line
   * raises `NameError` and ends the run.
   */
  function ExceptionsAsWritten(skipExceptions: bool, lines: seq<string>): (r: Result<set<Entry>>)
    ensures r.Ok? <==> skipExceptions || forall i :: 0 <= i < |lines| ==> ':' in lines[i]
    ensures r.Ok? ==> r.value == ExceptionSet(skipExceptions, lines)
    decreases |lines|
  {
    if skipExceptions || lines == [] then Ok({})
    else
      match SplitFirstColon(lines[0])
      case None => Err("NameError: name 'printf' is not defined")
      case Some(e) =>
        match ExceptionsAsWritten(false, lines[1..])
        case Err(msg) => Err(msg)
        case Ok(s) => (assert lines == [lines[0]] + lines[1..]; Ok({e} + s))
  }

  /**
   * A well-formed row followed by a line without a colon: the code as
   * written raises, the corrected loader keeps the row and skips the line.
   */
  lemma MalformedLineRaises(path: string, text: string, stray: string)
    requires ':' !in path && ':' !in stray
    ensures ExceptionsAsWritten(false, [path + ":" + text, stray]).Err?
    ensures ExceptionSet(false, [path + ":" + text, stray]) == {(path, text)}
  {
    var lines := [path + ":" + text, stray];
    SplitAtFirstColon(path, text);
    forall e | e in ExceptionSet(false, lines) ensures e == (path, text) {
      ExceptedExactly(false, lines, e);
      SplitAtFirstColon(e.0, e.1);
    }
    ExceptedExactly(false, lines, (path, text));
  }
}
