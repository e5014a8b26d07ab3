/**
 * The validators of `git_web/helpers/checkers.py`: repository, directory
 * and commit names, reserved names, directory search and clone URLs.
 */
module Checkers {
  import opened Results
  import opened Strings
  import opened Paths

  /** The length cap of repository and directory names. */
  const MaxNameLength: nat := 100

  /** Names that clash with the application's own routes. */
  const ReservedNames: seq<string> := ["auth", "login", "logout", "new", "new-dir", "import", "settings"]

  /** The two bracket expressions the validators' regular expressions use. */
  datatype CharClass =
    | AlphaNumeric   // [a-zA-Z0-9]
    | NameCharacter  // [a-zA-Z0-9-_]

  predicate InClass(c: char, k: CharClass)
  {
    IsAsciiLetter(c) || IsAsciiDigit(c) || (k == NameCharacter && (c == '-' || c == '_'))
  }

  predicate AllInClass(s: string, k: CharClass)
  {
    forall i :: 0 <= i < |s| ==> InClass(s[i], k)
  }

  /** Where the greedy run `[k]+` that starts at `i` stops. */
  function RunEnd(s: string, i: nat, k: CharClass): (e: nat)
    requires i <= |s|
    ensures i <= e <= |s|
    ensures forall j :: i <= j < e ==> InClass(s[j], k)
    ensures e == |s| || !InClass(s[e], k)
    decreases |s| - i
  {
    if i == |s| || !InClass(s[i], k) then i else RunEnd(s, i + 1, k)
  }

  /** `$` without the MULTILINE flag: the end, or just before a final newline. */
  predicate EndAnchor(s: string, pos: int)
  {
    pos == |s| || (pos == |s| - 1 && 0 <= pos && s[pos] == '\n')
  }

  /** What the pattern means: a non-empty run of class characters from the start, then `$`. */
  ghost predicate PatternAccepts(s: string, k: CharClass)
  {
    exists e :: 0 < e <= |s| && AllInClass(s[..e], k) && EndAnchor(s, e)
  }

  /** The text is a class run, optionally followed by one newline. */
  predicate RunWithOptionalNewline(s: string, k: CharClass)
  {
    || (|s| > 0 && AllInClass(s, k))
    || (|s| > 1 && s[|s| - 1] == '\n' && AllInClass(s[..|s| - 1], k))
  }

  /**
   * `re.match(r"^[k]+$", s)`, evaluated the way the greedy engine does: the
   * run of class characters from the start, then `$`. It agrees with the
   * pattern's meaning, and both accept exactly a class run with at most one
   * trailing newline.
   */
  function MatchesWhole(s: string, k: CharClass): (r: bool)
    ensures r <==> PatternAccepts(s, k)
    ensures r <==> RunWithOptionalNewline(s, k)
  {
    var e := RunEnd(s, 0, k);
    var r := e > 0 && EndAnchor(s, e);
    assert (r <==> PatternAccepts(s, k)) && (r <==> RunWithOptionalNewline(s, k)) by {
      if r {
        assert AllInClass(s[..e], k);
      }
      if PatternAccepts(s, k) {
        var e' :| 0 < e' <= |s| && AllInClass(s[..e'], k) && EndAnchor(s, e');
        assert e' < |s| ==> s[e'] == '\n';
      }
      if RunWithOptionalNewline(s, k) {
        if |s| > 0 && AllInClass(s, k) {
          assert s[..|s|] == s;
        } else {
          assert EndAnchor(s, |s| - 1);
        }
        assert PatternAccepts(s, k);
      }
      if r && e < |s| {
        assert s[..e] == s[..|s| - 1];
      }
    }
    r
  }

  /** `is_allowed_dir`: the name is not one of the configured disallowed directories. */
  function IsAllowedDir(name: string, disallowedDirs: seq<string>): (r: bool)
    ensures r <==> forall i :: 0 <= i < |disallowedDirs| ==> disallowedDirs[i] != name
  {
    name !in disallowedDirs
  }

  /** `is_commit_hash`: `re.match(r"^[a-zA-Z0-9]+$", possible_hash)`. */
  function IsCommitHash(possibleHash: string): (r: bool)
    ensures r <==> PatternAccepts(possibleHash, AlphaNumeric)
    ensures r <==> RunWithOptionalNewline(possibleHash, AlphaNumeric)
  {
    MatchesWhole(possibleHash, AlphaNumeric)
  }

  /** `is_valid_repo_name`: the name pattern matches and the length is at most 100. */
  function IsValidRepoName(name: string): (r: bool)
    ensures r <==> PatternAccepts(name, NameCharacter) && |name| <= MaxNameLength
    ensures r <==> RunWithOptionalNewline(name, NameCharacter) && |name| <= MaxNameLength
  {
    MatchesWhole(name, NameCharacter) && |name| <= MaxNameLength
  }

  /** `is_valid_directory_name`: a valid repository name that is not disallowed. */
  function IsValidDirectoryName(name: string, disallowedDirs: seq<string>): (r: bool)
    ensures r <==> IsValidRepoName(name) && name !in disallowedDirs
  {
    IsValidRepoName(name) && IsAllowedDir(name, disallowedDirs)
  }

  /** `is_name_reserved`. */
  function IsNameReserved(name: string): (r: bool)
    ensures r <==> exists i :: 0 <= i < |ReservedNames| && ReservedNames[i] == name
  {
    name in ReservedNames
  }

  /** `does_path_contain`: `name in path.name`. */
  function DoesPathContain(path: Path, name: string): (r: bool)
    ensures r <==> exists i :: OccursAt(Name(path), name, i)
    ensures name == "" ==> r
  {
    assert name == "" ==> OccursAt(Name(path), name, 0);
    Contains(Name(path), name)
  }

  predicate IsSchemeChar(c: char)
  {
    IsAsciiLetter(c) || IsAsciiDigit(c) || c == '+' || c == '-' || c == '.'
  }

  predicate IsSchemeName(s: string)
  {
    |s| > 0 && IsAsciiLetter(s[0]) && forall i :: 0 <= i < |s| ==> IsSchemeChar(s[i])
  }

  /**
   * The scheme `urlparse` reports: the text before the first colon when it
   * is a well-formed scheme name, lower-cased; otherwise "".
   */
  function UrlScheme(url: string): (scheme: string)
    ensures scheme != "" <==> Find(url, ":").Some? && IsSchemeName(url[..Find(url, ":").value])
    ensures scheme != "" ==> scheme == LowerAscii(url[..Find(url, ":").value])
    ensures forall i :: 0 <= i < |scheme| ==> !IsAsciiUpper(scheme[i])
  {
    match Find(url, ":")
    case None => ""
    case Some(i) => if IsSchemeName(url[..i]) then LowerAscii(url[..i]) else ""
  }

  /** Text that lower-cases to an ASCII word is itself a well-formed scheme name. */
  lemma LowersToWordIsScheme(s: string, word: string)
    requires LowerAscii(s) == word
    requires |word| > 0 && forall i :: 0 <= i < |word| ==> IsAsciiLower(word[i])
    ensures IsSchemeName(s)
  {
    forall i | 0 <= i < |s| ensures IsAsciiLetter(s[i]) {
      assert LowerAscii(s)[i] == LowerChar(s[i]);
    }
  }

  /** `is_valid_clone_url`: the scheme is http or https, in any letter case. */
  function IsValidCloneUrl(url: string): (r: bool)
    ensures var colon := Find(url, ":");
            r <==> colon.Some? && LowerAscii(url[..colon.value]) in {"http", "https"}
  {
    var colon := Find(url, ":");
    assert colon.Some? && LowerAscii(url[..colon.value]) in {"http", "https"}
      ==> IsSchemeName(url[..colon.value]) by {
      if colon.Some? {
        var prefix := url[..colon.value];
        if LowerAscii(prefix) == "http" { LowersToWordIsScheme(prefix, "http"); }
        if LowerAscii(prefix) == "https" { LowersToWordIsScheme(prefix, "https"); }
      }
    }
    UrlScheme(url) in {"http", "https"}
  }

  /**
   * A valid repository name is one plain path part: it is non-empty and has
   * no slash, dot, backslash, space or parenthesis, so it can never be "..",
   * "." or a path of its own, and neither can the name with ".git" appended.
   */
  lemma ValidNameIsPlainPart(name: string)
    requires IsValidRepoName(name)
    ensures name != "" && name != "." && name != ".."
    ensures '/' !in name && '.' !in name && '\\' !in name
    ensures ' ' !in name && '(' !in name && ')' !in name
    ensures IsName(name) && IsName(name + ".git")
  {
    var body := if AllInClass(name, NameCharacter) then name else name[..|name| - 1];
    assert forall c :: c in name ==> c in body || c == '\n' by {
      forall c | c in name ensures c in body || c == '\n' {
        var i :| 0 <= i < |name| && name[i] == c;
        if i < |body| { assert body[i] == c; }
      }
    }
    assert forall c :: c in body ==> InClass(c, NameCharacter);
    assert name[0] != '.';
    assert '/' !in name + ".git" by {
      forall i | 0 <= i < |name + ".git"| ensures (name + ".git")[i] != '/' {
        if i < |name| { assert (name + ".git")[i] == name[i]; }
      }
    }
  }

  /**
   * The `$` anchor lets one trailing newline through, and the length cap
   * counts that newline.
   */
  lemma TrailingNewlineAccepted(word: string)
    requires |word| > 0 && AllInClass(word, NameCharacter)
    ensures IsValidRepoName(word + "\n") <==> |word| < MaxNameLength
    ensures !IsValidRepoName(word + "\n\n")
    ensures IsCommitHash(word + "\n") <==> AllInClass(word, AlphaNumeric)
  {
    var once := word + "\n";
    var twice := word + "\n\n";
    assert once[..|once| - 1] == word;
    assert !InClass(once[|once| - 1], NameCharacter);
    assert twice[..|twice| - 1] == once;
    assert !InClass(twice[|twice| - 1], NameCharacter);
  }

  /** A run of name characters of at most 100 characters is a valid name. */
  lemma NameRunAccepted(s: string)
    requires 0 < |s| <= MaxNameLength && AllInClass(s, NameCharacter)
    ensures IsValidRepoName(s)
  {
  }

  /** The example names of the validator's documented behaviour: accepted ones. */
  lemma RepoNameExamplesAccepted()
    ensures IsValidRepoName("my-repo") && IsValidRepoName("valid_underscore") && IsValidRepoName("valid-1234")
  {
    NameRunAccepted("my-repo");
    NameRunAccepted("valid_underscore");
    NameRunAccepted("valid-1234");
  }

  /** A name of exactly 100 characters is still valid. */
  lemma LongestNameAccepted()
    ensures IsValidRepoName(seq(100, _ => 'a'))
  {
    var hundred := seq(100, _ => 'a');
    assert AllInClass(hundred, NameCharacter);
    NameRunAccepted(hundred);
  }

  /** The example names of the validator's documented behaviour: rejected ones. */
  lemma RepoNameExamplesRejected()
    ensures !IsValidRepoName("with a space") && !IsValidRepoName("symbols-$$.") && !IsValidRepoName("")
    ensures !IsValidRepoName("()") && !IsValidRepoName("../breakout/repo-name")
    ensures !IsValidRepoName(seq(200, _ => 'a'))
  {
    assert "with a space"[4] == ' ';
    assert "symbols-$$."[8] == '$';
    assert "()"[0] == '(';
    assert "../breakout/repo-name"[0] == '.';
  }

  /** The example hashes of the validator's documented behaviour. */
  lemma CommitHashExamples()
    ensures IsCommitHash("44Afff") && IsCommitHash("42481a7")
    ensures !IsCommitHash("&& rm -rf .") && !IsCommitHash("42481a7@") && !IsCommitHash("")
  {
    assert "&& rm -rf ."[0] == '&';
    assert "42481a7@"[7] == '@';
  }

  /** Every reserved name passes name validation, so it needs its own check. */
  lemma ReservedNamesAreValidNames()
    ensures forall i :: 0 <= i < |ReservedNames| ==> IsValidRepoName(ReservedNames[i])
    ensures IsNameReserved("login") && IsNameReserved("logout") && !IsNameReserved("random")
  {
    assert ReservedNames[1] == "login" && ReservedNames[2] == "logout";
  }

  /** The first colon of `url` is at index `k`. */
  lemma FirstColonAt(url: string, k: nat)
    requires k < |url| && url[k] == ':'
    requires forall j :: 0 <= j < k ==> url[j] != ':'
    ensures Find(url, ":") == Some(k)
  {
    assert url[k..k + 1] == [url[k]];
    assert OccursAt(url, ":", k);
    forall j | 0 <= j < k ensures !OccursAt(url, ":", j) {
      assert url[j..j + 1] == [url[j]];
    }
  }

  /** A URL whose first colon is at `k` is a clone URL exactly when the text before it is http(s). */
  lemma CloneUrlWithColonAt(url: string, k: nat)
    requires k < |url| && url[k] == ':'
    requires forall j :: 0 <= j < k ==> url[j] != ':'
    ensures IsValidCloneUrl(url) <==> LowerAscii(url[..k]) in {"http", "https"}
  {
    FirstColonAt(url, k);
  }

  /** Example URLs of the validator's documented behaviour: https is accepted. */
  lemma HttpsCloneUrlAccepted()
    ensures IsValidCloneUrl("https://gitweb.lan/my-dir/my-repo.git")
  {
    assert "https://gitweb.lan/my-dir/my-repo.git"[..5] == "https";
    assert LowerAscii("https") == "https";
    CloneUrlWithColonAt("https://gitweb.lan/my-dir/my-repo.git", 5);
  }

  /** Example URLs of the validator's documented behaviour: http is accepted. */
  lemma HttpCloneUrlAccepted()
    ensures IsValidCloneUrl("http://gitweb.lan/a-repo.git")
  {
    assert "http://gitweb.lan/a-repo.git"[..4] == "http";
    assert LowerAscii("http") == "http";
    CloneUrlWithColonAt("http://gitweb.lan/a-repo.git", 4);
  }

  /** The scheme is compared after lower-casing. */
  lemma UpperCaseSchemeAccepted()
    ensures IsValidCloneUrl("HTTPS://gitweb.lan/a-repo.git")
  {
    assert "HTTPS://gitweb.lan/a-repo.git"[..5] == "HTTPS";
    assert LowerAscii("HTTPS") == "https";
    CloneUrlWithColonAt("HTTPS://gitweb.lan/a-repo.git", 5);
  }

  /** The example URLs of the validator's documented behaviour: a wrong or missing scheme is rejected. */
  lemma CloneUrlExamplesRejected()
    ensures !IsValidCloneUrl("ftp://gitweb.lan/my-dir/my-repo.git")
    ensures !IsValidCloneUrl("://gitweb.lan/my-dir/my-repo.git")
  {
    assert LowerAscii("ftp") == "ftp";
    CloneUrlWithColonAt("ftp://gitweb.lan/my-dir/my-repo.git", 3);
    CloneUrlWithColonAt("://gitweb.lan/my-dir/my-repo.git", 0);
  }

  /** The example URLs of the validator's documented behaviour: text without a colon is rejected. */
  lemma SchemelessUrlsRejected()
    ensures !IsValidCloneUrl("//my-dir/my-repo.git")
    ensures !IsValidCloneUrl("")
    ensures !IsValidCloneUrl("../my-repo/my-repo.git")
  {
    NoCharNoOccurrence("//my-dir/my-repo.git", ':');
    NoCharNoOccurrence("../my-repo/my-repo.git", ':');
  }

  /** The example search of the directory view: three of five names contain "hello". */
  lemma PathContainExamples()
    ensures DoesPathContain(["test", "hello"], "hello")
    ensures !DoesPathContain(["a", "something"], "hello")
    ensures DoesPathContain(["test", "hello this is a test"], "hello")
    ensures !DoesPathContain(["something", "my filename"], "hello")
    ensures DoesPathContain(["test", "this is amazing hello"], "hello")
  {
    assert Name(["test", "hello"]) == "hello";
    assert Name(["a", "something"]) == "something";
    assert Name(["test", "hello this is a test"]) == "hello this is a test";
    assert Name(["something", "my filename"]) == "my filename";
    assert Name(["test", "this is amazing hello"]) == "this is amazing hello";
    assert OccursAt("hello", "hello", 0);
    assert OccursAt("hello this is a test", "hello", 0);
    assert OccursAt("this is amazing hello", "hello", 16);
    forall j ensures !OccursAt("something", "hello", j) {
      if 0 <= j && j + 5 <= 9 { assert "something"[j..j + 5][0] == "something"[j]; }
    }
    forall j ensures !OccursAt("my filename", "hello", j) {
      if 0 <= j && j + 5 <= 11 { assert "my filename"[j..j + 5][0] == "my filename"[j]; }
    }
  }
}
