/** The /urlcheck command (bot/handlers/url_check.py): classify the lines
    of the URL-check log and report the failing ones, at most twenty, each
    cut to a hundred characters. */
module UrlCheck {
  import opened Strings
  import Seqs
  import opened GitHubStore

  const EmptyLog := "📋 Лог проверки URL пуст"
  const AllReachable := "✅ <b>Все URL доступны</b>\n\nПоследняя проверка прошла успешно"
  const LogMissing := "❌ Лог проверки URL не найден или недоступен"
  const ErrorsTitle := "⚠️ <b>Недоступные URL</b>\n"

  /** At most this many error lines are listed. */
  const MaxShown: nat := 20
  /** Each listed line is cut to this many characters. */
  const MaxWidth: nat := 100

  /** `"ERROR" in line or "unreachable" in line or "HTTP" in line and
      ("404" in line or "500" in line)`, where `and` binds tighter than
      `or`. */
  predicate IsErrorLine(line: string)
    ensures !Contains(line, "HTTP") ==> (IsErrorLine(line) <==> Contains(line, "ERROR") || Contains(line, "unreachable"))
    ensures Contains(line, "HTTP") && (Contains(line, "404") || Contains(line, "500")) ==> IsErrorLine(line)
  {
    Contains(line, "ERROR") || Contains(line, "unreachable")
    || (Contains(line, "HTTP") && (Contains(line, "404") || Contains(line, "500")))
  }

  /** `s[:n]` */
  function Take(s: string, n: nat): (r: string)
    ensures |r| <= n && |r| <= |s|
    ensures r == s[..|r|]
    ensures |s| <= n ==> r == s
  {
    if |s| <= n then s else s[..n]
  }

  /** `f"<code>{err[:100]}</code>"` */
  function CodeLine(err: string): string {
    "<code>" + Take(err, MaxWidth) + "</code>"
  }

  /** `f"\n... и ещё {n} ошибок"` */
  function OverflowNote(n: nat): string {
    "\n... и ещё " + NatToString(n) + " ошибок"
  }

  /** The lines of the error report: the title, the first twenty errors
      in log order, and the overflow note when there are more. */
  function ReportLines(errors: seq<string>): (r: seq<string>)
    ensures |r| == 1 + (if |errors| <= MaxShown then |errors| else MaxShown + 1)
    ensures r[0] == ErrorsTitle
    ensures forall i :: 0 <= i < |errors| && i < MaxShown ==> r[1 + i] == CodeLine(errors[i])
    ensures |errors| > MaxShown ==> r[|r| - 1] == OverflowNote(|errors| - MaxShown)
  {
    var shown := if |errors| <= MaxShown then errors else errors[..MaxShown];
    [ErrorsTitle] + seq(|shown|, i requires 0 <= i < |shown| => CodeLine(shown[i]))
    + (if |errors| > MaxShown then [OverflowNote(|errors| - MaxShown)] else [])
  }

  /** The loop collecting the error lines, in log order. */
  method CollectErrors(lines: seq<string>) returns (errors: seq<string>)
    ensures errors == Seqs.Filter(IsErrorLine, lines)
  {
    errors := [];
    for i := 0 to |lines|
      invariant errors == Seqs.Filter(IsErrorLine, lines[..i])
    {
      Seqs.FilterSnoc(IsErrorLine, lines, i);
      if IsErrorLine(lines[i]) {
        errors := errors + [lines[i]];
      }
    }
    assert lines[..|lines|] == lines;
  }

  /** The loop over `errors[:20]` that builds the report. */
  method BuildReport(errors: seq<string>) returns (msgLines: seq<string>)
    ensures msgLines == ReportLines(errors)
  {
    msgLines := [ErrorsTitle];
    var shown := if |errors| <= MaxShown then errors else errors[..MaxShown];
    for i := 0 to |shown|
      invariant msgLines == [ErrorsTitle] + seq(i, k requires 0 <= k < i => CodeLine(shown[k]))
    {
      msgLines := msgLines + [CodeLine(shown[i])];
    }
    if |errors| > MaxShown {
      msgLines := msgLines + [OverflowNote(|errors| - MaxShown)];
    }
  }

  /** `url_check_command` on the outcome of reading the log. */
  method UrlCheckCommand(log: Outcome<string>) returns (reply: string)
    ensures log.Failed? ==> reply == LogMissing
    ensures log.Done? && Strip(log.value) == "" ==> reply == EmptyLog
    ensures log.Done? && Strip(log.value) != "" ==>
              var errors := Seqs.Filter(IsErrorLine, Split(Strip(log.value), '\n'));
              reply == (if errors == [] then AllReachable else Join("\n", ReportLines(errors)))
  {
    if log.Failed? {
      return LogMissing;
    }
    var text := log.value;
    if text == "" || Strip(text) == "" {
      return EmptyLog;
    }
    var lines := Split(Strip(text), '\n');
    var errors := CollectErrors(lines);
    if errors == [] {
      return AllReachable;
    }
    var msgLines := BuildReport(errors);
    reply := Join("\n", msgLines);
  }

  /** A log line is listed iff it is an error line, and the listing keeps
      the log's order. */
  lemma {:induction false} ListedIffError(lines: seq<string>, line: string)
    requires line in lines
    ensures line in Seqs.Filter(IsErrorLine, lines) <==> IsErrorLine(line)
  {
    var errs := Seqs.Filter(IsErrorLine, lines);
    if line in errs {
      var i :| 0 <= i < |errs| && errs[i] == line;
    }
  }

  /** Every listed line is at most the width plus its markup. */
  lemma {:induction false} ListedLinesAreCut(errors: seq<string>, i: nat)
    requires 1 <= i <= |errors| && i <= MaxShown
    ensures |ReportLines(errors)[i]| <= |"<code>"| + MaxWidth + |"</code>"|
  {
  }

  /** Precedence: a line mentioning only a status code, without "HTTP",
      is not an error, but the same line with "ERROR" is. */
  lemma {:induction false} StatusNeedsHttp(rest: string)
    requires !Contains(rest, "HTTP") && !Contains(rest, "ERROR") && !Contains(rest, "unreachable")
    ensures !IsErrorLine(rest)
    ensures IsErrorLine("ERROR" + rest)
  {
    assert ("ERROR" + rest)[..5] == "ERROR";
    assert Contains("ERROR" + rest, "ERROR");
  }
}
