/**
 * `get_flags` (hack/verify-flags-underscore.py) after its regular-expression
 * step: the known-flags lines form the registry, and every captured name in
 * a `.go` file that holds `-` or `_` and is not literally one of those lines
 * is a new flag. The names the declaration patterns capture in each file are
 * an input, `captured(path)`.
 */
module KnownFlags {
  import opened Text

  /** The names captured in the `.go` files among `files`, in file order. */
  function GoCaptures(files: seq<string>, captured: string -> seq<string>): seq<string>
  {
    if files == [] then []
    else GoCaptures(Init(files), captured) + (if EndsWith(Last(files), ".go") then captured(Last(files)) else [])
  }

  /** The names `get_flags` reports as missing from the known-flags file. */
  function NewFlags(knownLines: seq<string>, files: seq<string>, captured: string -> seq<string>): set<string>
  {
    set n | n in GoCaptures(files, captured) && HasDash(n) && n !in knownLines
  }

  /** How `get_flags` ends: exit 1 with the new names, or the known flags. */
  datatype FlagsOutcome = NewFlagsFound(names: set<string>) | Known(flags: set<string>)

  method GetFlags(knownLines: seq<string>, files: seq<string>, captured: string -> seq<string>)
    returns (out: FlagsOutcome)
    ensures out.NewFlagsFound? <==> NewFlags(knownLines, files, captured) != {}
    ensures out.NewFlagsFound? ==> out.names == NewFlags(knownLines, files, captured)
    ensures out.Known? ==> out.flags == set l | l in knownLines
  {
    var flags: set<string> := {};
    for i := 0 to |knownLines|
      invariant flags == set l | l in knownLines[..i]
    {
      flags := flags + {knownLines[i]};
      assert knownLines[..i + 1] == knownLines[..i] + [knownLines[i]];
    }
    assert knownLines[..|knownLines|] == knownLines;
    var newFlags: set<string> := {};
    for i := 0 to |files|
      invariant newFlags == NewFlags(knownLines, files[..i], captured)
    {
      var pathname := files[i];
      assert Init(files[..i + 1]) == files[..i];
      if !EndsWith(pathname, ".go") {
        continue;
      }
      var matches := captured(pathname);
      ghost var before := GoCaptures(files[..i], captured);
      for j := 0 to |matches|
        invariant newFlags == set n | n in before + matches[..j] && HasDash(n) && n !in knownLines
      {
        var flag := matches[j];
        assert before + matches[..j + 1] == (before + matches[..j]) + [flag];
        if !HasDash(flag) {
          continue;
        }
        if flag !in flags {
          newFlags := newFlags + {flag};
        }
      }
      assert matches[..|matches|] == matches;
    }
    assert files[..|files|] == files;
    if |newFlags| != 0 {
      return NewFlagsFound(newFlags);
    }
    return Known(flags);
  }

  /** A name is captured from the listed files exactly when some `.go` file among them declares it. */
  lemma {:induction false} GoCapturesFrom(files: seq<string>, captured: string -> seq<string>, n: string)
    ensures n in GoCaptures(files, captured) <==>
      exists p :: p in files && EndsWith(p, ".go") && n in captured(p)
    decreases |files|
  {
    if files != [] {
      GoCapturesFrom(Init(files), captured, n);
      InitLast(files);
    }
  }

  /**
   * A new flag is a name declared in some `.go` file that holds `-` or `_` and
   * is not literally a known-flags line; names without either character and
   * names from other files never are.
   */
  lemma NewFlagExactly(knownLines: seq<string>, files: seq<string>, captured: string -> seq<string>, n: string)
    ensures n in NewFlags(knownLines, files, captured) <==>
      HasDash(n) && n !in knownLines && exists p :: p in files && EndsWith(p, ".go") && n in captured(p)
  {
    GoCapturesFrom(files, captured, n);
  }

  /**
   * The comparison with the known flags is literal: `my_flag` declared in a
   * `.go` file is new although `my-flag` is known.
   */
  lemma ComparisonIsLiteral(captured: string -> seq<string>)
    requires captured("cmd/main.go") == ["my_flag"]
    ensures NewFlags(["my-flag"], ["cmd/main.go"], captured) == {"my_flag"}
  {
    var files := ["cmd/main.go"];
    assert EndsWith(files[0], ".go");
    assert HasDash("my_flag") by { assert IsDash("my_flag"[2]); }
    forall n ensures n in NewFlags(["my-flag"], files, captured) <==> n == "my_flag" {
      NewFlagExactly(["my-flag"], files, captured, n);
    }
  }
}
