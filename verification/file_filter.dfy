/**
 * `normalize_files` (hack/verify-flags-underscore.py): drops vendored,
 * control and diagram paths from an explicit file list and resolves the
 * relative ones against the repository root. The `os.path` helpers it and
 * the scan use are modelled here as POSIX string rules.
 */
module FileFilter {
  import opened Text

  /** Substrings that exclude a path wherever they occur in it. */
  const ExcludedParts: seq<string> := ["Godeps", "third_party", "exceptions.txt", "known-flags.txt"]

  /** A path `normalize_files` drops. */
  predicate Excluded(f: string) {
    (exists x :: x in ExcludedParts && Contains(f, x)) || EndsWith(f, ".svg") || EndsWith(f, ".gliffy")
  }

  /** `os.path.isabs` on POSIX. */
  predicate IsAbs(f: string) { |f| > 0 && f[0] == '/' }

  /** `os.path.join(root, f)` on POSIX. */
  function Join(root: string, f: string): (r: string)
    ensures IsAbs(f) ==> r == f
    ensures !IsAbs(f) ==> StartsWith(r, root) && EndsWith(r, f)
    ensures IsAbs(root) ==> IsAbs(r)
  {
    if IsAbs(f) then f
    else if root == [] || EndsWith(root, "/") then root + f
    else root + "/" + f
  }

  /**
   * The non-empty `/`-separated components of `s`, as `[x for x in s.split("/") if x]`
   * gives them; `cur` is the component read so far.
   */
  function ComponentsFrom(s: string, cur: string): (parts: seq<string>)
    requires '/' !in cur
    ensures forall x :: x in parts ==> x != [] && '/' !in x
    decreases |s|
  {
    if s == [] then (if cur == [] then [] else [cur])
    else if s[0] == '/' then (if cur == [] then [] else [cur]) + ComponentsFrom(s[1..], [])
    else ComponentsFrom(s[1..], cur + [s[0]])
  }

  function Components(s: string): (parts: seq<string>)
    ensures forall x :: x in parts ==> x != [] && '/' !in x
  {
    ComponentsFrom(s, [])
  }

  /**
   * The components of `os.path.abspath` of an absolute path (`posixpath.normpath`):
   * `.` is dropped and `..` removes the component before it, or nothing at the root.
   */
  function Resolve(parts: seq<string>): (r: seq<string>)
    ensures forall x :: x in r ==> x in parts && x != "." && x != ".."
  {
    if parts == [] then []
    else
      var r := Resolve(Init(parts));
      if Last(parts) == "." then r
      else if Last(parts) == ".." then
        if r == [] then []
        else
          assert forall x :: x in Init(r) ==> x in r by { InitLast(r); }
          Init(r)
      else r + [Last(parts)]
  }

  /** `n` parent-directory steps, `[os.path.pardir] * n`. */
  function Parents(n: nat): (r: seq<string>)
    ensures |r| == n && forall x :: x in r ==> x == ".."
  {
    if n == 0 then [] else Parents(n - 1) + [".."]
  }

  /**
   * The components leading from `start` to `path`: their common leading
   * components, as `os.path.commonprefix` finds them, are dropped, and each
   * component left in `start` becomes a `..`. Nothing is left exactly when
   * the two are the same.
   */
  function RelativeParts(start: seq<string>, path: seq<string>): (rel: seq<string>)
    ensures forall x :: x in rel ==> x == ".." || x in path
    ensures rel == [] <==> start == path
  {
    if start != [] && path != [] && start[0] == path[0] then
      assert start == [start[0]] + start[1..] && path == [path[0]] + path[1..];
      RelativeParts(start[1..], path[1..])
    else Parents(|start|) + path
  }

  /**
   * `os.path.relpath(p, root)` on POSIX: the relative components from the
   * resolved root to the resolved path, joined with `/`, or `.` when there
   * are none. `main` calls it only with absolute paths: its root comes from
   * `os.path.abspath`, and `normalize_files` joins every relative name onto it.
   */
  function Relpath(root: string, p: string): (r: string)
    ensures r != [] && !IsAbs(r)
  {
    var path := Resolve(Components(p));
    var rel := RelativeParts(Resolve(Components(root)), path);
    if rel == [] then "."
    else
      assert rel[0] != [] && rel[0][0] != '/' by {
        assert rel[0] in rel;
        if rel[0] != ".." {
          assert rel[0] in path;
          assert rel[0] in Components(p);
        }
      }
      JoinWith(rel, "/")
  }

  /** The relative name is `.` exactly when the two paths resolve to the same directory. */
  lemma RelpathIsDot(root: string, p: string)
    ensures Relpath(root, p) == "." <==> Resolve(Components(p)) == Resolve(Components(root))
  {
    var path := Resolve(Components(p));
    var rel := RelativeParts(Resolve(Components(root)), path);
    if rel != [] {
      assert rel[0] in rel;
      if rel[0] != ".." {
        assert rel[0] in path;
        assert rel[0] in Components(p);
      }
      assert |rel| > 1 ==> |JoinWith(rel, "/")| >= 2;
    }
  }

  /** The entries of `files` that survive the exclusion rules, in their order. */
  function Kept(files: seq<string>): seq<string>
  {
    if files == [] then []
    else Kept(Init(files)) + (if Excluded(Last(files)) then [] else [Last(files)])
  }

  /** What `normalize_files` returns: the kept entries, each joined onto `root`. */
  function Normalized(root: string, files: seq<string>): seq<string>
  {
    var kept := Kept(files);
    seq(|kept|, i requires 0 <= i < |kept| => Join(root, kept[i]))
  }

  method NormalizeFiles(root: string, files: seq<string>) returns (newfiles: seq<string>)
    ensures newfiles == Normalized(root, files)
  {
    newfiles := [];
    for i := 0 to |files|
      invariant newfiles == Kept(files[..i])
    {
      var f := files[i];
      assert Init(files[..i + 1]) == files[..i];
      if Excluded(f) {
        continue;
      }
      newfiles := newfiles + [f];
    }
    assert files[..|files|] == files;
    ghost var kept := newfiles;
    for i := 0 to |newfiles|
      invariant |newfiles| == |kept|
      invariant forall k :: 0 <= k < i ==> newfiles[k] == Join(root, kept[k])
      invariant forall k :: i <= k < |kept| ==> newfiles[k] == kept[k]
    {
      var f := newfiles[i];
      if !IsAbs(f) {
        newfiles := newfiles[i := Join(root, f)];
      }
    }
  }

  /** A path is kept exactly when it is in the input and no exclusion rule applies to it. */
  lemma {:induction false} KeptExactly(files: seq<string>, f: string)
    ensures f in Kept(files) <==> f in files && !Excluded(f)
    decreases |files|
  {
    if files != [] {
      KeptExactly(Init(files), f);
      InitLast(files);
    }
  }

  /** The kept paths appear in input order, and there are no more of them than inputs. */
  lemma {:induction false} KeptInOrder(files: seq<string>)
    ensures IsSubsequence(Kept(files), files)
    ensures |Kept(files)| <= |files|
    decreases |files|
  {
    if files != [] {
      KeptInOrder(Init(files));
      InitLast(files);
      var tail := if Excluded(Last(files)) then [] else [Last(files)];
      if tail == [] {
        SubsequenceExtend(Kept(Init(files)), Init(files), [Last(files)]);
        assert Kept(files) == Kept(Init(files));
      } else {
        SubsequenceRefl(tail);
        SubsequenceConcat(Kept(Init(files)), Init(files), tail, [Last(files)]);
      }
    }
  }

  /**
   * The normalized list: the kept paths in order, absolute ones untouched,
   * relative ones prefixed with the root; absolute throughout when the root is.
   */
  lemma NormalizedResolves(root: string, files: seq<string>)
    ensures |Normalized(root, files)| == |Kept(files)| <= |files|
    ensures forall i :: 0 <= i < |Kept(files)| && IsAbs(Kept(files)[i]) ==> Normalized(root, files)[i] == Kept(files)[i]
    ensures forall i :: 0 <= i < |Kept(files)| && !IsAbs(Kept(files)[i]) ==>
      StartsWith(Normalized(root, files)[i], root) && EndsWith(Normalized(root, files)[i], Kept(files)[i])
    ensures IsAbs(root) ==> forall p :: p in Normalized(root, files) ==> IsAbs(p)
  {
    KeptInOrder(files);
    var kept := Kept(files);
    var norm := Normalized(root, files);
    forall i | 0 <= i < |kept|
      ensures norm[i] == Join(root, kept[i])
    {
    }
    if IsAbs(root) {
      forall p | p in norm
        ensures IsAbs(p)
      {
        var i :| 0 <= i < |norm| && norm[i] == p;
        assert p == Join(root, kept[i]);
      }
    }
  }

  /** Splitting at a `/` splits the component list there. */
  lemma {:induction false} ComponentsSplit(a: string, b: string, cur: string)
    requires '/' !in cur
    ensures ComponentsFrom(a + "/" + b, cur) == ComponentsFrom(a, cur) + ComponentsFrom(b, [])
    decreases |a|
  {
    if a == [] {
      assert a + "/" + b == "/" + b;
    } else {
      assert (a + "/" + b)[1..] == a[1..] + "/" + b;
      if a[0] == '/' {
        ComponentsSplit(a[1..], b, []);
      } else {
        ComponentsSplit(a[1..], b, cur + [a[0]]);
      }
    }
  }

  /** Joining a relative name onto the root appends its components to the root's. */
  lemma JoinComponents(root: string, f: string)
    requires !IsAbs(f)
    ensures Components(Join(root, f)) == Components(root) + Components(f)
  {
    if root == [] {
    } else if EndsWith(root, "/") {
      var r0 := root[..|root| - 1];
      assert root == r0 + "/" + [];
      assert Join(root, f) == r0 + "/" + f;
      ComponentsSplit(r0, f, []);
      ComponentsSplit(r0, [], []);
    } else {
      ComponentsSplit(root, f, []);
    }
  }

  /** Resolving a list whose tail holds no `..` resolves the two parts apart. */
  lemma {:induction false} ResolveAppend(a: seq<string>, b: seq<string>)
    requires forall x :: x in b ==> x != ".."
    ensures Resolve(a + b) == Resolve(a) + Resolve(b)
    decreases |b|
  {
    if b == [] {
      assert a + b == a;
    } else {
      assert Init(a + b) == a + Init(b);
      assert Last(a + b) == Last(b);
      InitLast(b);
      assert Last(b) in b;
      assert forall x :: x in Init(b) ==> x in b;
      ResolveAppend(a, Init(b));
    }
  }

  /** A path below `start` is reached by its own remaining components. */
  lemma {:induction false} RelativePartsBelow(start: seq<string>, rest: seq<string>)
    ensures RelativeParts(start, start + rest) == rest
    decreases |start|
  {
    if start != [] {
      assert (start + rest)[1..] == start[1..] + rest;
      RelativePartsBelow(start[1..], rest);
    }
  }

  /**
   * A relative name joined onto the root and made relative again is the
   * name with its `.` and empty components dropped (`./pkg//a.go` is
   * reported as `pkg/a.go`), or `.` when nothing is left.
   */
  lemma RelpathOfJoin(root: string, f: string)
    requires !IsAbs(f)
    requires forall x :: x in Components(f) ==> x != ".."
    ensures Relpath(root, Join(root, f)) ==
      var name := Resolve(Components(f));
      if name == [] then "." else JoinWith(name, "/")
  {
    var start := Resolve(Components(root));
    var name := Resolve(Components(f));
    JoinComponents(root, f);
    ResolveAppend(Components(root), Components(f));
    assert Resolve(Components(Join(root, f))) == start + name;
    RelativePartsBelow(start, name);
  }
}
