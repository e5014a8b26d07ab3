/**
 * The Python `str` operations the helpers rely on: substring search (`in`),
 * `split` with an explicit separator, `join`, `strip`, ASCII `lower`,
 * `replace` of one character and the code-point ordering used by `<`.
 */
module Strings {
  import opened Results

  /** `sep` occurs in `s` starting at index `i`. */
  predicate OccursAt(s: string, sep: string, i: int)
  {
    0 <= i && i + |sep| <= |s| && s[i..i + |sep|] == sep
  }

  lemma OccursAtShift(s: string, sep: string, j: nat)
    requires |s| > 0
    ensures OccursAt(s, sep, j + 1) <==> OccursAt(s[1..], sep, j)
  {
    if 0 <= j && j + 1 + |sep| <= |s| {
      assert s[1..][j..j + |sep|] == s[j + 1..j + 1 + |sep|];
    }
  }

  /** Index of the leftmost occurrence of `sep` in `s`, if any. */
  function Find(s: string, sep: string): (r: Option<nat>)
    ensures r.Some? ==> OccursAt(s, sep, r.value)
    ensures r.Some? ==> forall j :: 0 <= j < r.value ==> !OccursAt(s, sep, j)
    ensures r.None? ==> forall j :: !OccursAt(s, sep, j)
    decreases |s|
  {
    if |s| < |sep| then None
    else if s[..|sep|] == sep then Some(0)
    else
      var rest := Find(s[1..], sep);
      assert forall j :: 1 <= j ==> (OccursAt(s, sep, j) <==> OccursAt(s[1..], sep, j - 1)) by {
        forall j | 1 <= j ensures OccursAt(s, sep, j) <==> OccursAt(s[1..], sep, j - 1) {
          OccursAtShift(s, sep, j - 1);
        }
      }
      match rest
      case None => None
      case Some(k) => Some(k + 1)
  }

  /** Python's `sub in s`: `sub` occurs somewhere in `s`. */
  function Contains(s: string, sub: string): (r: bool)
    ensures r <==> exists i :: OccursAt(s, sub, i)
  {
    Find(s, sub).Some?
  }

  /** A one-character separator occurs exactly where that character does. */
  lemma NoCharNoOccurrence(s: string, c: char)
    requires c !in s
    ensures Find(s, [c]).None?
  {
    forall j | 0 <= j < |s| ensures !OccursAt(s, [c], j) {
      assert s[j..j + 1] == [s[j]];
    }
  }

  /** A one-character text occurs exactly where that character does. */
  lemma CharOccurrence(s: string, c: char)
    ensures Contains(s, [c]) <==> c in s
  {
    if c in s {
      var k :| 0 <= k < |s| && s[k] == c;
      assert s[k..k + 1] == [c];
      assert OccursAt(s, [c], k);
    } else {
      NoCharNoOccurrence(s, c);
    }
  }

  /** The piece before the leftmost separator ends right where that separator starts. */
  lemma FirstPieceSeparatesCleanly(s: string, sep: string, i: nat)
    requires Find(s, sep) == Some(i)
    ensures SeparatesCleanly(s[..i], sep)
  {
    var t := s[..i] + sep;
    assert t == s[..i + |sep|];
    assert OccursAt(t, sep, i);
    forall j | 0 <= j < i ensures !OccursAt(t, sep, j) {
      assert !OccursAt(s, sep, j);
      if j + |sep| <= |t| {
        assert t[j..j + |sep|] == s[j..j + |sep|];
      }
    }
    var f := Find(t, sep);
    assert f.Some?;
    assert !(f.value < i);
    assert !(f.value > i);
  }

  /** Python's `s.split(sep)` for a non-empty separator. */
  function Split(s: string, sep: string): (parts: seq<string>)
    requires |sep| > 0
    ensures |parts| >= 1
    decreases |s|
  {
    match Find(s, sep)
    case None => [s]
    case Some(i) => [s[..i]] + Split(s[i + |sep|..], sep)
  }

  /** Python's `sep.join(parts)`. */
  function JoinWith(parts: seq<string>, sep: string): string
  {
    if |parts| == 0 then ""
    else if |parts| == 1 then parts[0]
    else parts[0] + sep + JoinWith(parts[1..], sep)
  }

  /** Joining the pieces of a split gives the original text back. */
  lemma {:induction false} JoinSplit(s: string, sep: string)
    requires |sep| > 0
    ensures JoinWith(Split(s, sep), sep) == s
    decreases |s|
  {
    match Find(s, sep)
    case None =>
    case Some(i) =>
      var rest := s[i + |sep|..];
      var tail := Split(rest, sep);
      JoinSplit(rest, sep);
      assert Split(s, sep) == [s[..i]] + tail;
      assert ([s[..i]] + tail)[1..] == tail;
      assert JoinWith(Split(s, sep), sep) == s[..i] + sep + JoinWith(tail, sep);
      assert s == s[..i] + sep + rest;
  }

  /** No piece of a split contains the separator. */
  lemma {:induction false} SplitPiecesFree(s: string, sep: string)
    requires |sep| > 0
    ensures forall k :: 0 <= k < |Split(s, sep)| ==> !Contains(Split(s, sep)[k], sep)
    decreases |s|
  {
    match Find(s, sep)
    case None =>
    case Some(i) =>
      var rest := s[i + |sep|..];
      SplitPiecesFree(rest, sep);
      if Contains(s[..i], sep) {
        var j := Find(s[..i], sep).value;
        assert s[..i][j..j + |sep|] == s[j..j + |sep|];
        assert OccursAt(s, sep, j);
      }
  }

  /**
   * `piece` ends right where the separator that follows it starts: the
   * separator after it is the first occurrence in `piece + sep`.
   */
  predicate SeparatesCleanly(piece: string, sep: string)
  {
    Find(piece + sep, sep) == Some(|piece|)
  }

  lemma {:induction false} FindAfterCleanPiece(piece: string, sep: string, rest: string)
    requires SeparatesCleanly(piece, sep)
    ensures Find(piece + sep + rest, sep) == Some(|piece|)
  {
    var s := piece + sep + rest;
    assert s[|piece|..|piece| + |sep|] == sep;
    assert OccursAt(s, sep, |piece|);
    forall j | 0 <= j < |piece| ensures !OccursAt(s, sep, j) {
      if OccursAt(s, sep, j) {
        assert (piece + sep)[j..j + |sep|] == s[j..j + |sep|];
        assert OccursAt(piece + sep, sep, j);
      }
    }
  }

  /** Splitting a cleanly separated piece off the front. */
  lemma SplitCleanPiece(piece: string, sep: string, rest: string)
    requires |sep| > 0
    requires SeparatesCleanly(piece, sep)
    ensures Split(piece + sep + rest, sep) == [piece] + Split(rest, sep)
  {
    var s := piece + sep + rest;
    FindAfterCleanPiece(piece, sep, rest);
    assert s[..|piece|] == piece;
    assert s[|piece| + |sep|..] == rest;
  }

  /** A text without the separator is a single piece. */
  lemma SplitWithoutSeparator(s: string, sep: string)
    requires |sep| > 0
    requires !Contains(s, sep)
    ensures Split(s, sep) == [s]
  {
  }

  /** A text that contains the separator splits into at least two pieces. */
  lemma SplitWithSeparator(s: string, sep: string)
    requires |sep| > 0
    requires Contains(s, sep)
    ensures |Split(s, sep)| >= 2
  {
  }

  /** Every piece but the last ends cleanly before its separator. */
  predicate CleanPieces(parts: seq<string>, sep: string)
  {
    forall k :: 0 <= k < |parts| - 1 ==> SeparatesCleanly(parts[k], sep)
  }

  lemma ConsCleanPieces(piece: string, tail: seq<string>, sep: string)
    requires SeparatesCleanly(piece, sep) && CleanPieces(tail, sep)
    ensures CleanPieces([piece] + tail, sep)
  {
    var parts := [piece] + tail;
    forall k | 0 <= k < |parts| - 1 ensures SeparatesCleanly(parts[k], sep) {
      if k > 0 { assert parts[k] == tail[k - 1]; }
    }
  }

  /**
   * Python cuts at the leftmost occurrence each time: every piece but the
   * last stops exactly where the first separator after it begins.
   */
  lemma {:induction false} SplitLeftmost(s: string, sep: string)
    requires |sep| > 0
    ensures CleanPieces(Split(s, sep), sep)
    decreases |s|
  {
    match Find(s, sep)
    case None =>
    case Some(i) =>
      var rest := s[i + |sep|..];
      SplitLeftmost(rest, sep);
      FirstPieceSeparatesCleanly(s, sep, i);
      assert Split(s, sep) == [s[..i]] + Split(rest, sep);
      ConsCleanPieces(s[..i], Split(rest, sep), sep);
  }

  /**
   * Splitting the join of pieces gives the pieces back, provided every piece
   * but the last ends cleanly before its separator and the last one does not
   * contain the separator.
   */
  lemma {:induction false} SplitJoin(parts: seq<string>, sep: string)
    requires |sep| > 0 && |parts| >= 1
    requires CleanPieces(parts, sep)
    requires !Contains(parts[|parts| - 1], sep)
    ensures Split(JoinWith(parts, sep), sep) == parts
    decreases |parts|
  {
    if |parts| == 1 {
      SplitWithoutSeparator(parts[0], sep);
    } else {
      SplitJoin(parts[1..], sep);
      SplitCleanPiece(parts[0], sep, JoinWith(parts[1..], sep));
    }
  }

  /** A piece without a one-character separator ends cleanly before it. */
  lemma CharSeparatesCleanly(piece: string, c: char)
    requires c !in piece
    ensures SeparatesCleanly(piece, [c])
  {
    var s := piece + [c];
    assert s[|piece|..|piece| + 1] == [c];
    assert OccursAt(s, [c], |piece|);
    forall j | 0 <= j < |piece| ensures !OccursAt(s, [c], j) {
      assert s[j..j + 1] == [piece[j]];
    }
  }

  /** A join begins with its first piece. */
  lemma JoinWithStart(parts: seq<string>, sep: string)
    requires |parts| >= 1
    ensures parts[0] <= JoinWith(parts, sep)
  {
  }

  /** A join ends with its last piece. */
  lemma {:induction false} JoinWithEnd(parts: seq<string>, sep: string)
    requires |parts| >= 1
    ensures var t, last := JoinWith(parts, sep), parts[|parts| - 1];
            |last| <= |t| && t[|t| - |last|..] == last
    decreases |parts|
  {
    if |parts| > 1 {
      var rest := parts[1..];
      assert rest[|rest| - 1] == parts[|parts| - 1];
      JoinWithEnd(rest, sep);
      var t := JoinWith(parts, sep);
      assert t == (parts[0] + sep) + JoinWith(rest, sep);
    }
  }

  /** A character in neither the pieces nor the separator is not in their join. */
  lemma {:induction false} CharNotInJoin(parts: seq<string>, sep: string, c: char)
    requires c !in sep
    requires forall i :: 0 <= i < |parts| ==> c !in parts[i]
    ensures c !in JoinWith(parts, sep)
    decreases |parts|
  {
    if |parts| > 1 {
      CharNotInJoin(parts[1..], sep, c);
      assert c !in parts[0] + sep;
    }
  }

  /** The characters Python's `str.isspace` accepts. */
  predicate IsSpace(c: char)
  {
    var n := c as int;
    (9 <= n <= 13) || (28 <= n <= 32) || n == 0x85 || n == 0xA0 || n == 0x1680
    || (0x2000 <= n <= 0x200A) || n == 0x2028 || n == 0x2029 || n == 0x202F
    || n == 0x205F || n == 0x3000
  }

  predicate AllSpace(s: string)
  {
    forall i :: 0 <= i < |s| ==> IsSpace(s[i])
  }

  lemma AllSpaceAppend(a: string, b: string)
    requires AllSpace(a) && AllSpace(b)
    ensures AllSpace(a + b)
  {
    forall i | 0 <= i < |a + b| ensures IsSpace((a + b)[i]) {
      if i < |a| { assert (a + b)[i] == a[i]; } else { assert (a + b)[i] == b[i - |a|]; }
    }
  }

  /** Drops leading whitespace. */
  function TrimStart(s: string): (r: string)
    ensures |r| <= |s| && r == s[|s| - |r|..]
    ensures AllSpace(s[..|s| - |r|])
    ensures r == "" || !IsSpace(r[0])
    decreases |s|
  {
    if |s| > 0 && IsSpace(s[0]) then
      var rest := s[1..];
      var t := TrimStart(rest);
      assert t == s[|s| - |t|..] by { assert rest[|rest| - |t|..] == s[|s| - |t|..]; }
      assert s[..|s| - |t|] == [s[0]] + rest[..|rest| - |t|];
      AllSpaceAppend([s[0]], rest[..|rest| - |t|]);
      t
    else s
  }

  /** Drops trailing whitespace. */
  function TrimEnd(s: string): (r: string)
    ensures |r| <= |s| && r == s[..|r|]
    ensures AllSpace(s[|r|..])
    ensures r == "" || !IsSpace(r[|r| - 1])
    decreases |s|
  {
    if |s| > 0 && IsSpace(s[|s| - 1]) then
      var init := s[..|s| - 1];
      var t := TrimEnd(init);
      assert t == s[..|t|] by { assert init[..|t|] == s[..|t|]; }
      assert s[|t|..] == init[|t|..] + [s[|s| - 1]];
      AllSpaceAppend(init[|t|..], [s[|s| - 1]]);
      t
    else s
  }

  /** `r` is `s` with some whitespace taken off each end. */
  ghost predicate TrimmedFrom(s: string, r: string)
  {
    exists i :: 0 <= i <= |s| - |r| && r == s[i..i + |r|] && AllSpace(s[..i]) && AllSpace(s[i + |r|..])
  }

  lemma TrimmedAt(s: string, r: string, i: nat)
    requires i + |r| <= |s| && r == s[i..i + |r|] && AllSpace(s[..i]) && AllSpace(s[i + |r|..])
    ensures TrimmedFrom(s, r)
  {
  }

  /** Slicing a suffix of `s` is slicing `s` further along. */
  lemma SuffixSlices(s: string, i: nat, n: nat)
    requires i + n <= |s|
    ensures s[i..][..n] == s[i..i + n] && s[i..][n..] == s[i + n..]
  {
  }

  /** What the two trims together leave of `s`. */
  lemma StripFacts(s: string, t: string, r: string)
    requires |t| <= |s| && t == s[|s| - |t|..] && AllSpace(s[..|s| - |t|])
    requires t == "" || !IsSpace(t[0])
    requires |r| <= |t| && r == t[..|r|] && AllSpace(t[|r|..])
    ensures s[|s| - |t|..|s| - |t| + |r|] == r
    ensures AllSpace(s[|s| - |t| + |r|..])
    ensures AllSpace(s) <==> r == ""
  {
    var i := |s| - |t|;
    SuffixSlices(s, i, |r|);
    if r == "" {
      assert s == s[..i] + t[|r|..];
      AllSpaceAppend(s[..i], t[|r|..]);
    } else {
      assert r[0] == t[0] == s[i];
    }
  }

  /**
   * Python's `s.strip()` with no argument: the text between the leading and
   * the trailing whitespace, which neither starts nor ends with whitespace.
   */
  function Strip(s: string): (r: string)
    ensures TrimmedFrom(s, r)
    ensures AllSpace(s) <==> r == ""
    ensures r == "" || (!IsSpace(r[0]) && !IsSpace(r[|r| - 1]))
    ensures |s| > 0 && !IsSpace(s[0]) && !IsSpace(s[|s| - 1]) ==> r == s
  {
    var t := TrimStart(s);
    var r := TrimEnd(t);
    var i := |s| - |t|;
    StripFacts(s, t, r);
    TrimmedAt(s, r, i);
    r
  }

  predicate IsAsciiUpper(c: char) { 'A' <= c <= 'Z' }
  predicate IsAsciiLower(c: char) { 'a' <= c <= 'z' }
  predicate IsAsciiLetter(c: char) { IsAsciiUpper(c) || IsAsciiLower(c) }
  predicate IsAsciiDigit(c: char) { '0' <= c <= '9' }

  function LowerChar(c: char): (r: char)
    ensures IsAsciiLetter(r) <==> IsAsciiLetter(c)
    ensures !IsAsciiUpper(c) ==> r == c
  {
    if IsAsciiUpper(c) then (c as int - 'A' as int + 'a' as int) as char else c
  }

  /** `lower()` on text made of ASCII characters. */
  function LowerAscii(s: string): (r: string)
    ensures |r| == |s|
    ensures forall i :: 0 <= i < |s| ==> r[i] == LowerChar(s[i])
  {
    seq(|s|, i requires 0 <= i < |s| => LowerChar(s[i]))
  }

  /**
   * `s.replace(old, new)` for single characters: every `from` becomes `to`
   * and every other character stays where it is.
   */
  function ReplaceChar(s: string, from: char, to: char): (r: string)
    ensures |r| == |s|
    ensures forall i :: 0 <= i < |s| ==> r[i] == (if s[i] == from then to else s[i])
    ensures from !in s ==> r == s
    ensures from != to ==> from !in r
  {
    seq(|s|, i requires 0 <= i < |s| => if s[i] == from then to else s[i])
  }

  /** Python's `a < b` on strings: code-point lexicographic order. */
  predicate StrLt(a: string, b: string)
    decreases |a|
  {
    if |a| == 0 then |b| > 0
    else if |b| == 0 then false
    else if a[0] != b[0] then a[0] < b[0]
    else StrLt(a[1..], b[1..])
  }

  lemma {:induction false} StrLtIrreflexive(a: string)
    ensures !StrLt(a, a)
    decreases |a|
  {
    if |a| > 0 { StrLtIrreflexive(a[1..]); }
  }

  lemma {:induction false} StrLtTransitive(a: string, b: string, c: string)
    requires StrLt(a, b) && StrLt(b, c)
    ensures StrLt(a, c)
    decreases |a|
  {
    if |a| > 0 && |b| > 0 && |c| > 0 && a[0] == b[0] && b[0] == c[0] {
      StrLtTransitive(a[1..], b[1..], c[1..]);
    }
  }

  lemma {:induction false} StrLtTotal(a: string, b: string)
    requires a != b
    ensures StrLt(a, b) || StrLt(b, a)
    decreases |a|
  {
    if |a| > 0 && |b| > 0 && a[0] == b[0] {
      assert a == [a[0]] + a[1..] && b == [b[0]] + b[1..];
      StrLtTotal(a[1..], b[1..]);
    }
  }
}
