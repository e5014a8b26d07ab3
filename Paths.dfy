/**
 * Posix `pathlib.PurePath` values as far as the helpers use them: joining
 * with `/`, `.name`, `relative_to`, `str()` and ordering.
 */
module Paths {
  import opened Results
  import opened Strings

  /**
   * A path as the tuple of its `parts`. A root part ("/", or "//", which
   * posix pathlib keeps when a path starts with exactly two slashes) can
   * only come first.
   */
  type Path = seq<string>

  predicate IsRoot(part: string) { part == "/" || part == "//" }

  /** A part that names one directory entry. */
  predicate IsName(part: string) { part != "" && part != "." && '/' !in part }

  predicate WellFormed(p: Path)
  {
    forall i :: 0 <= i < |p| ==> IsName(p[i]) || (i == 0 && IsRoot(p[i]))
  }

  predicate IsAbsolute(p: Path) { |p| > 0 && IsRoot(p[0]) }

  /** The root pathlib reads off the start of a path string. */
  function RootOf(s: string): (r: string)
    ensures r == "" || IsRoot(r)
    ensures r != "" <==> (|s| > 0 && s[0] == '/')
  {
    if |s| >= 2 && s[..2] == "//" && (|s| == 2 || s[2] != '/') then "//"
    else if |s| >= 1 && s[0] == '/' then "/"
    else ""
  }

  /** The pieces between slashes that pathlib keeps: empty pieces and "." go. */
  function KeptPieces(pieces: seq<string>): (r: seq<string>)
    requires forall i :: 0 <= i < |pieces| ==> '/' !in pieces[i]
    ensures forall i :: 0 <= i < |r| ==> IsName(r[i])
  {
    if pieces == [] then []
    else (if pieces[0] == "" || pieces[0] == "." then [] else [pieces[0]]) + KeptPieces(pieces[1..])
  }

  /** The names of a path string: its pieces between slashes that pathlib keeps. */
  function PathNames(s: string): (names: seq<string>)
    ensures forall i :: 0 <= i < |names| ==> IsName(names[i])
  {
    var pieces := Split(s, "/");
    SplitPiecesFree(s, "/");
    assert forall i :: 0 <= i < |pieces| ==> '/' !in pieces[i] by {
      forall i | 0 <= i < |pieces| ensures '/' !in pieces[i] {
        CharOccurrence(pieces[i], '/');
      }
    }
    KeptPieces(pieces)
  }

  /** `PurePosixPath(s)`. */
  function Parse(s: string): (p: Path)
    ensures WellFormed(p)
    ensures IsAbsolute(p) <==> (|s| > 0 && s[0] == '/')
  {
    var root := RootOf(s);
    if root == "" then PathNames(s) else [root] + PathNames(s)
  }

  /** A single name parses to itself. */
  lemma ParseName(s: string)
    requires IsName(s)
    ensures Parse(s) == [s]
  {
    NoCharNoOccurrence(s, '/');
    assert Split(s, "/") == [s];
    assert s[0] != '/';
    assert [s][1..] == [];
    assert KeptPieces([s]) == [s];
  }

  /** A root on its own parses to itself. */
  lemma ParseRoot(root: string)
    requires IsRoot(root)
    ensures Parse(root) == [root]
  {
    assert Split("", "/") == [""];
    assert Find("/", "/") == Some(0);
    assert Split("/", "/") == ["", ""];
    if root == "//" {
      assert Find("//", "/") == Some(0);
      assert "//"[1..] == "/";
      assert Split("//", "/") == ["", "", ""];
    }
  }

  /** `base / s` with a string `s`: an absolute `s` replaces `base`. */
  function Join(base: Path, s: string): (r: Path)
    ensures IsName(s) ==> r == base + [s]
    ensures |s| > 0 && s[0] == '/' ==> r == Parse(s)
    ensures !(|s| > 0 && s[0] == '/') ==> base <= r
  {
    var q := Parse(s);
    assert IsName(s) ==> q == [s] by {
      if IsName(s) { ParseName(s); }
    }
    if IsAbsolute(q) then q else base + q
  }

  /** `p.name`: the last part, or "" for an empty or root-only path. */
  function Name(p: Path): (r: string)
    ensures r != "" ==> |p| > 0 && r == p[|p| - 1]
    ensures WellFormed(p) ==> (r == "" <==> |p| == 0 || IsRoot(p[|p| - 1]))
    ensures WellFormed(p) && r != "" ==> IsName(r)
  {
    if |p| == 0 || IsRoot(p[|p| - 1]) then "" else p[|p| - 1]
  }

  /** The name of `base / s`, for a single name `s`, is `s`. */
  lemma NameOfJoin(base: Path, s: string)
    requires IsName(s)
    ensures Name(Join(base, s)) == s
  {
  }

  datatype RelativeError = NotASubpath

  /** `p.relative_to(base)`. */
  function RelativeTo(p: Path, base: Path): (r: Result<Path, RelativeError>)
    ensures r.Ok? <==> base <= p && !(base == [] && IsAbsolute(p))
    ensures r.Ok? ==> base + r.value == p
  {
    if base == [] && IsAbsolute(p) then Err(NotASubpath)
    else if base <= p then Ok(p[|base|..])
    else Err(NotASubpath)
  }

  predicate AllNames(names: seq<string>)
  {
    forall i :: 0 <= i < |names| ==> IsName(names[i])
  }

  lemma {:induction false} KeptNames(names: seq<string>)
    requires AllNames(names)
    ensures KeptPieces(names) == names
    decreases |names|
  {
    if names != [] {
      KeptNames(names[1..]);
    }
  }

  /** Names joined with "/" split back into those names. */
  lemma SplitJoinedNames(names: seq<string>)
    requires |names| >= 1 && AllNames(names)
    ensures Split(JoinWith(names, "/"), "/") == names
  {
    forall k | 0 <= k < |names| - 1 ensures SeparatesCleanly(names[k], "/") {
      CharSeparatesCleanly(names[k], '/');
    }
    CharOccurrence(names[|names| - 1], '/');
    SplitJoin(names, "/");
  }

  /** Names joined with "/" start with the first name's first character. */
  lemma JoinedNamesStart(names: seq<string>)
    requires |names| >= 1 && AllNames(names)
    ensures |JoinWith(names, "/")| > 0 && JoinWith(names, "/")[0] == names[0][0]
  {
    JoinWithStart(names, "/");
    assert names[0] != "";
  }

  /** A relative path string parses to its names. */
  lemma ParseJoinedNames(names: seq<string>)
    requires |names| >= 1 && AllNames(names)
    ensures Parse(JoinWith(names, "/")) == names
  {
    var text := JoinWith(names, "/");
    SplitJoinedNames(names);
    JoinedNamesStart(names);
    KeptNames(names);
    assert text[0] != '/';
  }

  /** Empty pieces in front of names are dropped. */
  lemma KeptAfterEmpty(names: seq<string>)
    requires AllNames(names)
    ensures KeptPieces([""] + names) == names
    ensures KeptPieces(["", ""] + names) == names
  {
    KeptNames(names);
    assert ([""] + names)[1..] == names;
    assert (["", ""] + names)[1..] == [""] + names;
  }

  /** A leading slash splits off one empty piece. */
  lemma SplitAfterSlash(text: string, rest: string)
    requires text == "/" + rest
    ensures Split(text, "/") == [""] + Split(rest, "/")
  {
    assert SeparatesCleanly("", "/") by {
      assert "" + "/" == "/";
      assert Find("/", "/") == Some(0);
    }
    SplitCleanPiece("", "/", rest);
    assert "" + "/" + rest == text;
  }

  lemma RootOfSlashes(joined: string)
    requires |joined| > 0 && joined[0] != '/'
    ensures RootOf("/" + joined) == "/"
    ensures RootOf("//" + joined) == "//"
  {
    assert ("/" + joined)[1] == joined[0];
    assert ("//" + joined)[..2] == "//" && ("//" + joined)[2] == joined[0];
  }

  /** The names of a path string whose pieces are the given names. */
  lemma PathNamesOfPieces(text: string, names: seq<string>)
    requires AllNames(names)
    requires Split(text, "/") == names || Split(text, "/") == [""] + names || Split(text, "/") == ["", ""] + names
    ensures PathNames(text) == names
  {
    KeptAfterEmpty(names);
    KeptNames(names);
  }

  lemma ParseSlashNames(names: seq<string>)
    requires |names| >= 1 && AllNames(names)
    ensures Parse("/" + JoinWith(names, "/")) == ["/"] + names
  {
    var joined := JoinWith(names, "/");
    SplitAfterSlash("/" + joined, joined);
    SplitJoinedNames(names);
    PathNamesOfPieces("/" + joined, names);
    JoinedNamesStart(names);
    RootOfSlashes(joined);
  }

  lemma SplitAfterTwoSlashes(rest: string)
    ensures Split("//" + rest, "/") == ["", ""] + Split(rest, "/")
  {
    var once := "/" + rest;
    SplitAfterSlash("//" + rest, once);
    SplitAfterSlash(once, rest);
    assert [""] + ([""] + Split(rest, "/")) == ["", ""] + Split(rest, "/");
  }

  lemma SplitDoubleSlashNames(names: seq<string>)
    requires |names| >= 1 && AllNames(names)
    ensures Split("//" + JoinWith(names, "/"), "/") == ["", ""] + names
  {
    SplitAfterTwoSlashes(JoinWith(names, "/"));
    SplitJoinedNames(names);
  }

  lemma ParseDoubleSlashNames(names: seq<string>)
    requires |names| >= 1 && AllNames(names)
    ensures Parse("//" + JoinWith(names, "/")) == ["//"] + names
  {
    var joined := JoinWith(names, "/");
    SplitDoubleSlashNames(names);
    PathNamesOfPieces("//" + joined, names);
    JoinedNamesStart(names);
    RootOfSlashes(joined);
  }

  /**
   * `str(p)`: "." for the empty path, the root and the names joined with
   * "/" otherwise; parsing the string gives the path back.
   */
  function ToStr(p: Path): (r: string)
    ensures WellFormed(p) ==> Parse(r) == p
  {
    if p == [] then
      assert Parse(".") == [] by {
        NoCharNoOccurrence(".", '/');
        assert Split(".", "/") == ["."];
        assert ["."][1..] == [];
      }
      "."
    else if IsRoot(p[0]) then
      assert WellFormed(p) ==> Parse(p[0] + JoinWith(p[1..], "/")) == p by {
        if WellFormed(p) {
          if |p| == 1 {
            ParseRoot(p[0]);
            assert p[0] + JoinWith(p[1..], "/") == p[0];
          } else {
            assert AllNames(p[1..]) by {
              forall i | 0 <= i < |p[1..]| ensures IsName(p[1..][i]) {
                assert p[1..][i] == p[i + 1];
              }
            }
            if p[0] == "/" { ParseSlashNames(p[1..]); } else { ParseDoubleSlashNames(p[1..]); }
            assert [p[0]] + p[1..] == p;
          }
        }
      }
      p[0] + JoinWith(p[1..], "/")
    else
      assert WellFormed(p) ==> Parse(JoinWith(p, "/")) == p by {
        if WellFormed(p) { ParseJoinedNames(p); }
      }
      JoinWith(p, "/")
  }

  /** `p < q`: parts compared lexicographically, each part by code point. */
  predicate PathLt(p: Path, q: Path)
    decreases |p|
  {
    if |p| == 0 then |q| > 0
    else if |q| == 0 then false
    else if p[0] != q[0] then StrLt(p[0], q[0])
    else PathLt(p[1..], q[1..])
  }

  lemma {:induction false} PathLtIrreflexive(p: Path)
    ensures !PathLt(p, p)
    decreases |p|
  {
    if |p| > 0 { PathLtIrreflexive(p[1..]); }
  }

  lemma {:induction false} PathLtTransitive(p: Path, q: Path, s: Path)
    requires PathLt(p, q) && PathLt(q, s)
    ensures PathLt(p, s)
    decreases |p|
  {
    if |p| > 0 && |q| > 0 && |s| > 0 {
      if p[0] == q[0] && q[0] == s[0] {
        PathLtTransitive(p[1..], q[1..], s[1..]);
      } else if p[0] != q[0] && q[0] != s[0] {
        StrLtTransitive(p[0], q[0], s[0]);
        if p[0] == s[0] { StrLtIrreflexive(p[0]); }
      }
    }
  }

  lemma {:induction false} PathLtTotal(p: Path, q: Path)
    requires p != q
    ensures PathLt(p, q) || PathLt(q, p)
    decreases |p|
  {
    if |p| > 0 && |q| > 0 {
      if p[0] == q[0] {
        assert p == [p[0]] + p[1..] && q == [q[0]] + q[1..];
        PathLtTotal(p[1..], q[1..]);
      } else {
        StrLtTotal(p[0], q[0]);
      }
    }
  }
}
