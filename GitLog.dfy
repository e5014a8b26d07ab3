/**
 * The commit-log parser of `git_web/git/log.py`. `git log` is run with the
 * format `%H;;%ae;;%cI;;%s`, one commit per line; each line is split on
 * ";;" into hash, author e-mail, commit date and subject. The date is kept
 * as the text git printed.
 */
module GitLog {
  import opened Results
  import opened Strings

  /** `Log`: one commit of the history. */
  datatype Log = Log(commitHash: string, authorEmail: string, commitDate: string, subject: string)

  /** The `ValueError` a malformed line raises, with its message. */
  datatype LogError = InvalidLogLine(message: string)

  /** The field separator of the `--pretty` format. */
  const FieldSeparator: string := ";;"

  const InvalidLinePrefix: string := "invalid log line: "

  /**
   * The line `git log --pretty=%H;;%ae;;%cI;;%s` prints for a commit: the
   * four fields in that order, joined by ";;".
   */
  function FormatLog(log: Log): (line: string)
    ensures line == JoinWith([log.commitHash, log.authorEmail, log.commitDate, log.subject], FieldSeparator)
  {
    var sep := FieldSeparator;
    var h, e, d, sub := log.commitHash, log.authorEmail, log.commitDate, log.subject;
    assert JoinWith([h, e, d, sub], sep) == h + sep + (e + sep + (d + sep + sub)) by {
      assert JoinWith([sub], sep) == sub;
      assert [d, sub][1..] == [sub];
      assert JoinWith([d, sub], sep) == d + sep + sub;
      assert [e, d, sub][1..] == [d, sub];
      assert JoinWith([e, d, sub], sep) == e + sep + (d + sep + sub);
      assert [h, e, d, sub][1..] == [e, d, sub];
    }
    h + sep + (e + sep + (d + sep + sub))
  }

  /**
   * The message as the source writes it: a plain string rather than an
   * f-string, so the placeholder after the prefix is literal text whatever
   * the line.
   */
  function InvalidLineMessageAsWritten(line: string): (m: string)
    ensures InvalidLinePrefix <= m && m[|InvalidLinePrefix|..] == "{stdout_line}"
  {
    "invalid log line: {stdout_line}"
  }

  /** The message the placeholder evidently intends: the prefix followed by the line itself. */
  function InvalidLineMessage(line: string): (m: string)
    ensures InvalidLinePrefix <= m && m[|InvalidLinePrefix|..] == line
  {
    InvalidLinePrefix + line
  }

  /** Different lines give different corrected messages. */
  lemma InvalidLineMessageInjective(a: string, b: string)
    requires InvalidLineMessage(a) == InvalidLineMessage(b)
    ensures a == b
  {
    assert a == InvalidLineMessage(a)[|InvalidLinePrefix|..];
  }

  /**
   * As written, the message names no line: the empty line and a line with
   * too many fields give the same text, which the corrected message tells
   * apart.
   */
  lemma AsWrittenMessageOmitsLine()
    ensures InvalidLineMessageAsWritten("") == InvalidLineMessageAsWritten("a;;b;;c;;d;;e")
    ensures InvalidLineMessage("") != InvalidLineMessage("a;;b;;c;;d;;e")
    ensures InvalidLineMessageAsWritten("") != InvalidLinePrefix
  {
    assert |InvalidLineMessage("")| != |InvalidLineMessage("a;;b;;c;;d;;e")|;
  }

  /**
   * `process_log`: a line is accepted exactly when it has four ";;"-separated
   * fields, and the fields read back print as that line again.
   */
  function ProcessLog(line: string): (r: Result<Log, LogError>)
    ensures r.Ok? <==> |Split(line, FieldSeparator)| == 4
    ensures r.Ok? ==> FormatLog(r.value) == line
    ensures r.Err? ==> r.error == InvalidLogLine(InvalidLineMessage(line))
  {
    var parts := Split(line, FieldSeparator);
    if |parts| != 4 then Err(InvalidLogLine(InvalidLineMessage(line)))
    else
      var log := Log(parts[0], parts[1], parts[2], parts[3]);
      JoinSplit(line, FieldSeparator);
      assert parts == [log.commitHash, log.authorEmail, log.commitDate, log.subject];
      Ok(log)
  }

  /**
   * The first three fields end cleanly before the separator that follows
   * them (none ends in ";" or holds ";;") and the subject has no ";;".
   */
  predicate CleanFields(log: Log)
  {
    SeparatesCleanly(log.commitHash, FieldSeparator)
    && SeparatesCleanly(log.authorEmail, FieldSeparator)
    && SeparatesCleanly(log.commitDate, FieldSeparator)
    && !Contains(log.subject, FieldSeparator)
  }

  /** Parsing the printed line of a commit gives the commit back, fields in order. */
  lemma ProcessFormatRoundTrip(log: Log)
    requires CleanFields(log)
    ensures ProcessLog(FormatLog(log)) == Ok(log)
  {
    var parts := [log.commitHash, log.authorEmail, log.commitDate, log.subject];
    SplitJoin(parts, FieldSeparator);
  }

  /** A subject holding ";;" adds fields, so the line of that commit is rejected. */
  lemma SubjectWithSeparatorRejected(log: Log)
    requires SeparatesCleanly(log.commitHash, FieldSeparator)
    requires SeparatesCleanly(log.authorEmail, FieldSeparator)
    requires SeparatesCleanly(log.commitDate, FieldSeparator)
    requires Contains(log.subject, FieldSeparator)
    ensures ProcessLog(FormatLog(log)).Err?
  {
    var sep := FieldSeparator;
    var tail2 := log.commitDate + sep + log.subject;
    var tail1 := log.authorEmail + sep + tail2;
    assert FormatLog(log) == log.commitHash + sep + tail1;
    SplitCleanPiece(log.commitHash, sep, tail1);
    SplitCleanPiece(log.authorEmail, sep, tail2);
    SplitCleanPiece(log.commitDate, sep, log.subject);
    SplitWithSeparator(log.subject, sep);
  }

  /** The lines of `git log` output for a list of commits. */
  function FormatLines(logs: seq<Log>): (lines: seq<string>)
    ensures |lines| == |logs|
  {
    seq(|logs|, i requires 0 <= i < |logs| => FormatLog(logs[i]))
  }

  /**
   * `process_logs`: the output is stripped of surrounding whitespace, cut
   * at every "\n", and each line is parsed in order.
   */
  function ProcessLogs(stdout: string): (r: seq<Result<Log, LogError>>)
    ensures |r| == |Split(Strip(stdout), "\n")| >= 1
    ensures forall i :: 0 <= i < |r| ==> r[i] == ProcessLog(Split(Strip(stdout), "\n")[i])
  {
    var lines := Split(Strip(stdout), "\n");
    seq(|lines|, i requires 0 <= i < |lines| => ProcessLog(lines[i]))
  }

  lemma SingleElement<T>(r: seq<T>)
    requires |r| == 1
    ensures r == [r[0]]
  {
  }

  /** Whitespace-only output is one empty line, which is rejected. */
  lemma BlankOutputRejected(stdout: string)
    requires AllSpace(stdout)
    ensures ProcessLogs(stdout) == [Err(InvalidLogLine(InvalidLineMessage("")))]
  {
    var r := ProcessLogs(stdout);
    assert Strip(stdout) == "";
    assert Split("", "\n") == [""];
    SingleElement(r);
    EmptyLineRejected();
  }

  lemma EmptyLineRejected()
    ensures ProcessLog("") == Err(InvalidLogLine(InvalidLineMessage("")))
  {
    assert Split("", FieldSeparator) == [""];
  }

  /** Output that does not begin or end with whitespace is left alone by the strip. */
  lemma FormattedOutputIsStripped(logs: seq<Log>)
    requires |logs| >= 1
    requires |logs[0].commitHash| > 0 && !IsSpace(logs[0].commitHash[0])
    requires var s := logs[|logs| - 1].subject; s == "" || !IsSpace(s[|s| - 1])
    ensures var text := JoinWith(FormatLines(logs), "\n"); Strip(text) == text
  {
    var lines := FormatLines(logs);
    var first, last := lines[0], lines[|lines| - 1];
    var log := logs[|logs| - 1];
    assert first == FormatLog(logs[0]);
    assert first[0] == logs[0].commitHash[0];
    assert last == log.commitHash + ";;" + log.authorEmail + ";;" + log.commitDate + ";;" + log.subject;
    assert last[|last| - 1] == if log.subject == "" then ';' else log.subject[|log.subject| - 1];
    var text := JoinWith(lines, "\n");
    JoinWithStart(lines, "\n");
    JoinWithEnd(lines, "\n");
    assert text[0] == first[0];
    assert text[|text| - 1] == last[|last| - 1];
  }

  /** Lines without a newline are cut apart again at the newlines that join them. */
  lemma SplitFormattedLines(logs: seq<Log>)
    requires |logs| >= 1
    requires forall i :: 0 <= i < |logs| ==> '\n' !in FormatLog(logs[i])
    ensures Split(JoinWith(FormatLines(logs), "\n"), "\n") == FormatLines(logs)
  {
    var lines := FormatLines(logs);
    forall k | 0 <= k < |lines| - 1 ensures SeparatesCleanly(lines[k], "\n") {
      CharSeparatesCleanly(lines[k], '\n');
    }
    CharOccurrence(lines[|lines| - 1], '\n');
    SplitJoin(lines, "\n");
  }

  /**
   * Output printed for a non-empty list of commits, whose fields hold no
   * newline and split cleanly, and which does not begin or end with
   * whitespace, parses back to exactly those commits in order.
   */
  lemma ProcessLogsRoundTrip(logs: seq<Log>)
    requires |logs| >= 1
    requires forall i :: 0 <= i < |logs| ==> CleanFields(logs[i])
    requires forall i :: 0 <= i < |logs| ==> '\n' !in FormatLog(logs[i])
    requires |logs[0].commitHash| > 0 && !IsSpace(logs[0].commitHash[0])
    requires var s := logs[|logs| - 1].subject; s == "" || !IsSpace(s[|s| - 1])
    ensures var r := ProcessLogs(JoinWith(FormatLines(logs), "\n"));
            |r| == |logs| && forall i :: 0 <= i < |logs| ==> r[i] == Ok(logs[i])
  {
    var text := JoinWith(FormatLines(logs), "\n");
    FormattedOutputIsStripped(logs);
    SplitFormattedLines(logs);
    assert Split(Strip(text), "\n") == FormatLines(logs);
    forall i | 0 <= i < |logs| ensures ProcessLog(FormatLines(logs)[i]) == Ok(logs[i]) {
      ProcessFormatRoundTrip(logs[i]);
    }
  }

  /** The commits of a fully parsed output. */
  function ParsedLogs(r: seq<Result<Log, LogError>>): (logs: seq<Log>)
    requires forall i :: 0 <= i < |r| ==> r[i].Ok?
    ensures |logs| == |r| && forall i :: 0 <= i < |r| ==> r[i] == Ok(logs[i])
  {
    seq(|r|, i requires 0 <= i < |r| => r[i].value)
  }

  /** Reprinting parsed lines gives the lines back. */
  lemma ReprintParsedLines(lines: seq<string>, r: seq<Result<Log, LogError>>)
    requires |r| == |lines|
    requires forall i :: 0 <= i < |r| ==> r[i] == ProcessLog(lines[i]) && r[i].Ok?
    ensures FormatLines(ParsedLogs(r)) == lines
  {
    var logs := ParsedLogs(r);
    forall i | 0 <= i < |lines| ensures FormatLines(logs)[i] == lines[i] {
      assert ProcessLog(lines[i]) == Ok(logs[i]);
    }
  }

  /**
   * When every line of the output parses, printing the parsed commits
   * again gives the stripped output back.
   */
  lemma ProcessLogsReprint(stdout: string)
    requires forall i :: 0 <= i < |ProcessLogs(stdout)| ==> ProcessLogs(stdout)[i].Ok?
    ensures JoinWith(FormatLines(ParsedLogs(ProcessLogs(stdout))), "\n") == Strip(stdout)
  {
    var stripped := Strip(stdout);
    var lines := Split(stripped, "\n");
    ReprintParsedLines(lines, ProcessLogs(stdout));
    JoinSplit(stripped, "\n");
  }
}
