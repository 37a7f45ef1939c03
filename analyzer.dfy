/**
  * The Django 4/5 compatibility analyser: a line-by-line scan of Python
  * sources for deprecated APIs, with matches inside try/except
  * compatibility blocks suppressed; three checks on a settings file; a
  * count of compatibility shims; and the grouping of all issues by
  * severity that decides the exit code.
  *
  * Files are given by their text, or by the reason they could not be read.
  */
module Analyzer {
  import opened Wrappers
  import opened Text

  datatype Severity = Error | Warning | Info

  /** One reported problem. `line` is absent for the settings checks; `code`
      is `''` where no source line is recorded. */
  datatype Issue = Issue(file: string, line: Option<nat>, code: string, message: string,
                         severity: Severity, check: string)

  /** The outcome of opening and reading a file as UTF-8 text. */
  datatype Read = Content(text: string) | Unreadable(reason: string)

  const ExceptImportError := "except ImportError"

  function Max(a: int, b: int): int { if a < b then b else a }
  function Min(a: int, b: int): int { if a < b then a else b }

  // ---------------------------------------------------------------------------
  // analyze_file_for_compatibility_issues

  /** An entry of the pattern table. Each pattern is a literal, in three
      entries followed by the negative lookahead `(?!.*except ImportError)`. */
  datatype Check = Check(name: string, literal: string, lookahead: bool, message: string, severity: Severity)

  /** The pattern table, in the order it is walked. */
  const Checks: seq<Check> := [
    Check("ugettext_usage", "ugettext", true,
          "ugettext is deprecated in Django 4+, should use gettext", Warning),
    Check("ugettext_lazy_usage", "ugettext_lazy", true,
          "ugettext_lazy is deprecated in Django 4+, should use gettext_lazy", Warning),
    Check("render_to_response_usage", "render_to_response(", false,
          "render_to_response is deprecated, should use render", Warning),
    Check("django_conf_urls", "from django.conf.urls import url", false,
          "django.conf.urls.url is deprecated, should use django.urls.re_path", Warning),
    Check("smart_unicode_usage", "smart_unicode", false,
          "smart_unicode is deprecated, should use smart_str", Error),
    Check("simplejson_usage", "from django.utils import simplejson", false,
          "django.utils.simplejson is deprecated, should use standard json", Info),
    Check("forms_util_usage", "from django.forms import util", true,
          "django.forms.util is deprecated, should use django.forms.utils", Warning)
  ]

  /** `re.search(pattern, line)`: the literal occurs, and for a lookahead
      pattern `except ImportError` does not occur after that occurrence. */
  predicate Matches(line: string, c: Check) {
    if c.lookahead then
      exists i :: 0 <= i <= |line| - |c.literal| && OccursAt(line, c.literal, i) && !Contains(line[i + |c.literal|..], ExceptImportError)
    else Contains(line, c.literal)
  }

  /** `lines[max(0, n - 5):min(len(lines), n + 3)]` around 1-based line `n`. */
  function Window(lines: seq<string>, n: nat): seq<string>
    requires 1 <= n <= |lines|
  {
    lines[Max(0, n - 5)..Min(|lines|, n + 3)]
  }

  /** A line that marks a try/except compatibility block. */
  predicate Marker(l: string) {
    Contains(l, "try:") || Contains(l, ExceptImportError)
  }

  /** A match on line `n` is taken for a compatibility shim and skipped. */
  predicate Suppressed(lines: seq<string>, n: nat)
    requires 1 <= n <= |lines|
  {
    var w := Window(lines, n);
    || (exists j :: 0 <= j < |w| && Marker(w[j]))
    || Contains(lines[n - 1], ExceptImportError)
    || Contains(lines[n - 1], "# Django 3 fallback")
  }

  /** Line `n` is reported for the check `c`. */
  predicate Reported(lines: seq<string>, n: nat, c: Check)
    requires 1 <= n <= |lines|
  {
    Matches(lines[n - 1], c) && !Suppressed(lines, n)
  }

  /** The issue reported for check `c` on line `n`. */
  function LineIssue(path: string, lines: seq<string>, n: nat, c: Check): Issue
    requires 1 <= n <= |lines|
  {
    Issue(path, Some(n), Strip(lines[n - 1]), c.message, c.severity, c.name)
  }

  /** The issues of line `n` for the checks `cs`, in table order. */
  function LineIssues(path: string, lines: seq<string>, n: nat, cs: seq<Check>): seq<Issue>
    requires 1 <= n <= |lines|
  {
    if cs == [] then []
    else
      var c := cs[|cs| - 1];
      LineIssues(path, lines, n, cs[..|cs| - 1]) + if Reported(lines, n, c) then [LineIssue(path, lines, n, c)] else []
  }

  /** The issues of the first `m` lines for the table `cs`, line by line. */
  function ScanLines(path: string, lines: seq<string>, m: nat, cs: seq<Check>): seq<Issue>
    requires m <= |lines|
  {
    if m == 0 then [] else ScanLines(path, lines, m - 1, cs) + LineIssues(path, lines, m, cs)
  }

  /** One more entry of the table adds that entry's issue, if any. */
  lemma LineIssuesNext(path: string, lines: seq<string>, n: nat, cs: seq<Check>, k: nat)
    requires 1 <= n <= |lines| && k < |cs|
    ensures LineIssues(path, lines, n, cs[..k + 1])
         == LineIssues(path, lines, n, cs[..k]) + if Reported(lines, n, cs[k]) then [LineIssue(path, lines, n, cs[k])] else []
  {
    assert cs[..k + 1][..k] == cs[..k];
  }

  /** The single issue of a file that cannot be read. */
  function ReadError(path: string, reason: string): Issue {
    Issue(path, Some(0), "", "Error reading file: " + reason, Error, "file_read_error")
  }

  /** What `analyze_file_for_compatibility_issues` returns for a file. */
  function FileIssues(path: string, r: Read): seq<Issue> {
    match r
    case Unreadable(reason) => [ReadError(path, reason)]
    case Content(text) =>
      var lines := Split(text, '\n');
      ScanLines(path, lines, |lines|, Checks)
  }

  /** Python's `analyze_file_for_compatibility_issues`: the loop over lines. */
  method AnalyzeFile(path: string, r: Read) returns (issues: seq<Issue>)
    ensures issues == FileIssues(path, r)
  {
    issues := [];
    if r.Unreadable? {
      issues := issues + [ReadError(path, r.reason)];
      return;
    }
    var lines := Split(r.text, '\n');
    var n := 1;
    while n <= |lines|
      invariant 1 <= n <= |lines| + 1
      invariant issues == ScanLines(path, lines, n - 1, Checks)
    {
      var found := AnalyzeLine(path, lines, n, Checks);
      issues := issues + found;
      n := n + 1;
    }
  }

  /** The body of the loop over lines: the loop over the pattern table `cs`
      and the context test for each match on line `n`. */
  method AnalyzeLine(path: string, lines: seq<string>, n: nat, cs: seq<Check>) returns (issues: seq<Issue>)
    requires 1 <= n <= |lines|
    ensures issues == LineIssues(path, lines, n, cs)
  {
    issues := [];
    var line := lines[n - 1];
    var k := 0;
    while k < |cs|
      invariant 0 <= k <= |cs|
      invariant issues == LineIssues(path, lines, n, cs[..k])
    {
      var c := cs[k];
      LineIssuesNext(path, lines, n, cs, k);
      if Matches(line, c) {
        var context := lines[Max(0, n - 5)..Min(|lines|, n + 3)];
        var hasTryExcept := exists j :: 0 <= j < |context| && Marker(context[j]);
        var isFallback := Contains(line, ExceptImportError) || Contains(line, "# Django 3 fallback");
        assert context == Window(lines, n);
        if !(hasTryExcept || isFallback) {
          issues := issues + [Issue(path, Some(n), Strip(line), c.message, c.severity, c.name)];
        }
      }
      k := k + 1;
    }
    assert cs[..k] == cs;
  }

  /** The context is the four lines before line `n` and the three after it,
      as far as they exist (0-based positions `n - 5` to `n + 2`): a match is
      suppressed exactly when one of those lines or the line itself holds
      `try:` or `except ImportError`, or the line carries the
      `# Django 3 fallback` comment. */
  lemma SuppressedSpec(lines: seq<string>, n: nat)
    requires 1 <= n <= |lines|
    ensures Suppressed(lines, n) <==>
      || (exists j :: n - 5 <= j <= n + 2 && 0 <= j < |lines| && Marker(lines[j]))
      || Contains(lines[n - 1], "# Django 3 fallback")
  {
    var lo := Max(0, n - 5);
    var w := Window(lines, n);
    assert forall j :: 0 <= j < |w| ==> w[j] == lines[lo + j];
    if exists j :: n - 5 <= j <= n + 2 && 0 <= j < |lines| && Marker(lines[j]) {
      var j :| n - 5 <= j <= n + 2 && 0 <= j < |lines| && Marker(lines[j]);
      assert w[j - lo] == lines[j];
    }
    if exists j :: 0 <= j < |w| && Marker(w[j]) {
      var j :| 0 <= j < |w| && Marker(w[j]);
      assert Marker(lines[lo + j]);
    }
    assert w[n - 1 - lo] == lines[n - 1];
  }

  /** The lookahead never decides anything: once the context test has let
      a line through, the line holds no `except ImportError`, so a line is
      reported for a check exactly when it contains the check's literal. */
  lemma ReportedLiteral(lines: seq<string>, n: nat, c: Check)
    requires 1 <= n <= |lines|
    ensures Reported(lines, n, c) <==> Contains(lines[n - 1], c.literal) && !Suppressed(lines, n)
  {
    var line := lines[n - 1];
    if c.lookahead && Contains(line, c.literal) && !Suppressed(lines, n) {
      var i :| 0 <= i <= |line| - |c.literal| && OccursAt(line, c.literal, i);
      if Contains(line[i + |c.literal|..], ExceptImportError) {
        assert line[i + |c.literal|..|line|] == line[i + |c.literal|..];
        ContainsSlice(line, i + |c.literal|, |line|, ExceptImportError);
        assert false;
      }
    }
  }

  /** The issues of one line are those of the reported checks, each once. */
  lemma {:induction false} LineIssuesMember(path: string, lines: seq<string>, n: nat, cs: seq<Check>, iss: Issue)
    requires 1 <= n <= |lines|
    ensures iss in LineIssues(path, lines, n, cs) <==>
      exists k :: 0 <= k < |cs| && Reported(lines, n, cs[k]) && iss == LineIssue(path, lines, n, cs[k])
  {
    if cs != [] {
      var init := cs[..|cs| - 1];
      LineIssuesMember(path, lines, n, init, iss);
      assert forall k :: 0 <= k < |init| ==> init[k] == cs[k];
    }
  }

  /** The issues of the first `m` lines are those of the lines `1..m`. */
  lemma {:induction false} ScanLinesMember(path: string, lines: seq<string>, m: nat, cs: seq<Check>, iss: Issue)
    requires m <= |lines|
    ensures iss in ScanLines(path, lines, m, cs) <==>
      exists n :: 1 <= n <= m && iss in LineIssues(path, lines, n, cs)
  {
    if m > 0 {
      var a := ScanLines(path, lines, m - 1, cs);
      var b := LineIssues(path, lines, m, cs);
      ScanLinesMember(path, lines, m - 1, cs, iss);
      assert iss in a + b <==> iss in a || iss in b;
      if iss in b {
        assert 1 <= m <= m && iss in LineIssues(path, lines, m, cs);
      }
    }
  }

  /** The issues of all lines for the table `cs` are those of the reported
      pairs of a line and an entry; each carries its line number and its
      entry's name, message and severity. */
  lemma AllLinesMember(path: string, lines: seq<string>, cs: seq<Check>, iss: Issue)
    ensures iss in ScanLines(path, lines, |lines|, cs) <==>
      exists n, k :: 1 <= n <= |lines| && 0 <= k < |cs| && Reported(lines, n, cs[k])
                     && iss == LineIssue(path, lines, n, cs[k])
    ensures iss in ScanLines(path, lines, |lines|, cs) ==>
      && iss.line.Some? && 1 <= iss.line.value <= |lines|
      && exists k :: 0 <= k < |cs| && iss.check == cs[k].name
                     && iss.message == cs[k].message && iss.severity == cs[k].severity
  {
    ScanLinesMember(path, lines, |lines|, cs, iss);
    if iss in ScanLines(path, lines, |lines|, cs) {
      var n :| 1 <= n <= |lines| && iss in LineIssues(path, lines, n, cs);
      LineIssuesMember(path, lines, n, cs, iss);
    }
    if exists n, k :: 1 <= n <= |lines| && 0 <= k < |cs| && Reported(lines, n, cs[k])
                      && iss == LineIssue(path, lines, n, cs[k]) {
      var n, k :| 1 <= n <= |lines| && 0 <= k < |cs| && Reported(lines, n, cs[k])
                  && iss == LineIssue(path, lines, n, cs[k]);
      LineIssuesMember(path, lines, n, cs, iss);
    }
  }

  /** An issue is reported for a readable file exactly when its line, for
      its check, matches and is not in a compatibility block; it then holds
      a line number between 1 and the number of lines and the name,
      message and severity of a table entry. */
  lemma FileIssuesMember(path: string, text: string, iss: Issue)
    ensures var lines := Split(text, '\n');
      iss in FileIssues(path, Content(text)) <==>
      exists n, k :: 1 <= n <= |lines| && 0 <= k < |Checks| && Reported(lines, n, Checks[k])
                     && iss == LineIssue(path, lines, n, Checks[k])
    ensures iss in FileIssues(path, Content(text)) ==>
      && iss.line.Some? && 1 <= iss.line.value <= |Split(text, '\n')|
      && exists k :: 0 <= k < |Checks| && iss.check == Checks[k].name
                     && iss.message == Checks[k].message && iss.severity == Checks[k].severity
  {
    AllLinesMember(path, Split(text, '\n'), Checks, iss);
  }

  /** No two entries of `cs` share a name. */
  predicate DistinctNames(cs: seq<Check>) {
    forall i, j :: 0 <= i < j < |cs| ==> cs[i].name != cs[j].name
  }

  /** The names of the pattern table are distinct. */
  lemma ChecksDistinct()
    ensures DistinctNames(Checks)
  {
    assert |Checks[0].name| == 14 && |Checks[2].name| == 24;
    assert |Checks[1].name| == 19 && Checks[1].name[0] == 'u';
    assert |Checks[4].name| == 19 && Checks[4].name[0] == 's';
    assert |Checks[3].name| == 16 && Checks[3].name[0] == 'd';
    assert |Checks[5].name| == 16 && Checks[5].name[0] == 's';
    assert |Checks[6].name| == 16 && Checks[6].name[0] == 'f';
  }

  /** The position in `cs` of the first entry named `name`, or `|cs|`. */
  function Position(name: string, cs: seq<Check>): (k: nat)
    ensures k <= |cs|
    ensures k < |cs| ==> cs[k].name == name
  {
    if cs == [] then 0
    else
      var k := Position(name, cs[..|cs| - 1]);
      if k < |cs| - 1 then k else if cs[|cs| - 1].name == name then |cs| - 1 else |cs|
  }

  /** In a table with distinct names, each entry is found at its own position. */
  lemma {:induction false} PositionOf(cs: seq<Check>, k: nat)
    requires DistinctNames(cs) && k < |cs|
    ensures Position(cs[k].name, cs) == k
  {
    var init := cs[..|cs| - 1];
    if k < |init| {
      forall i, j | 0 <= i < j < |init| ensures init[i].name != init[j].name {
        assert init[i] == cs[i] && init[j] == cs[j];
      }
      assert init[k] == cs[k];
      PositionOf(init, k);
    } else {
      forall q | 0 <= q < |init| ensures init[q].name != cs[k].name {
        assert init[q] == cs[q];
      }
    }
  }

  /** Issue `a` comes before issue `b`: an earlier line, or the same line
      and an earlier entry of the table `cs`. */
  predicate Before(a: Issue, b: Issue, cs: seq<Check>) {
    a.line.Some? && b.line.Some?
    && (a.line.value < b.line.value
        || (a.line.value == b.line.value && Position(a.check, cs) < Position(b.check, cs)))
  }

  /** Every issue of `s` is on line `n` and comes from one of the first `k`
      entries of `cs`. */
  predicate OnLineFrom(s: seq<Issue>, n: nat, cs: seq<Check>, k: nat) {
    forall i :: 0 <= i < |s| ==> s[i].line == Some(n) && Position(s[i].check, cs) < k
  }

  /** `s` is ordered by line, then by table order. */
  predicate InOrder(s: seq<Issue>, cs: seq<Check>) {
    forall i, j :: 0 <= i < j < |s| ==> Before(s[i], s[j], cs)
  }

  /** Every issue of `s` is on one of the lines `1..m`. */
  predicate WithinLines(s: seq<Issue>, m: nat) {
    forall i :: 0 <= i < |s| ==> s[i].line.Some? && 1 <= s[i].line.value <= m
  }

  /** An issue for entry `k - 1` may follow issues for earlier entries of the
      same line. */
  lemma AppendOrdered(a: seq<Issue>, b: seq<Issue>, n: nat, cs: seq<Check>, k: nat)
    requires 0 < k && OnLineFrom(a, n, cs, k - 1) && InOrder(a, cs)
    requires |b| <= 1 && forall i :: 0 <= i < |b| ==> b[i].line == Some(n) && Position(b[i].check, cs) == k - 1
    ensures OnLineFrom(a + b, n, cs, k) && InOrder(a + b, cs)
  {
    var s := a + b;
    forall i | 0 <= i < |s| ensures s[i].line == Some(n) && Position(s[i].check, cs) < k {
      if i < |a| {
        assert s[i] == a[i];
      } else {
        assert s[i] == b[i - |a|];
      }
    }
    forall i, j | 0 <= i < j < |s| ensures Before(s[i], s[j], cs) {
      if j < |a| {
        assert s[i] == a[i] && s[j] == a[j];
      } else {
        assert j == |a| && s[j] == b[0];
        assert s[i] == a[i];
      }
    }
  }

  /** The issues of one line follow the table order. */
  lemma {:induction false} LineIssuesOrdered(path: string, lines: seq<string>, n: nat, cs: seq<Check>, k: nat)
    requires 1 <= n <= |lines| && k <= |cs| && DistinctNames(cs)
    ensures OnLineFrom(LineIssues(path, lines, n, cs[..k]), n, cs, k)
    ensures InOrder(LineIssues(path, lines, n, cs[..k]), cs)
  {
    if k > 0 {
      var c := cs[k - 1];
      assert cs[..k][..k - 1] == cs[..k - 1] && cs[..k][k - 1] == c;
      LineIssuesOrdered(path, lines, n, cs, k - 1);
      PositionOf(cs, k - 1);
      var b := if Reported(lines, n, c) then [LineIssue(path, lines, n, c)] else [];
      AppendOrdered(LineIssues(path, lines, n, cs[..k - 1]), b, n, cs, k);
    }
  }

  /** The issues of a later line may follow those of earlier lines. */
  lemma AppendLine(a: seq<Issue>, b: seq<Issue>, m: nat, cs: seq<Check>)
    requires 0 < m && WithinLines(a, m - 1) && InOrder(a, cs)
    requires OnLineFrom(b, m, cs, |cs|) && InOrder(b, cs)
    ensures WithinLines(a + b, m) && InOrder(a + b, cs)
  {
    var s := a + b;
    forall i | 0 <= i < |s| ensures s[i].line.Some? && 1 <= s[i].line.value <= m {
      if i < |a| {
        assert s[i] == a[i];
      } else {
        assert s[i] == b[i - |a|];
      }
    }
    forall i, j | 0 <= i < j < |s| ensures Before(s[i], s[j], cs) {
      if j < |a| {
        assert s[i] == a[i] && s[j] == a[j];
      } else if i >= |a| {
        assert s[i] == b[i - |a|] && s[j] == b[j - |a|];
      } else {
        assert s[i] == a[i] && s[j] == b[j - |a|];
      }
    }
  }

  /** The issues of the first `m` lines come out by line, then by table order. */
  lemma {:induction false} ScanLinesOrdered(path: string, lines: seq<string>, m: nat, cs: seq<Check>)
    requires m <= |lines| && DistinctNames(cs)
    ensures WithinLines(ScanLines(path, lines, m, cs), m)
    ensures InOrder(ScanLines(path, lines, m, cs), cs)
  {
    if m > 0 {
      ScanLinesOrdered(path, lines, m - 1, cs);
      LineIssuesOrdered(path, lines, m, cs, |cs|);
      assert cs[..|cs|] == cs;
      AppendLine(ScanLines(path, lines, m - 1, cs), LineIssues(path, lines, m, cs), m, cs);
    }
  }

  /** The issues of a readable file come out ordered by line number, then
      by the order of the pattern table. */
  lemma FileIssuesOrdered(path: string, text: string)
    ensures var s := FileIssues(path, Content(text));
      forall i, j :: 0 <= i < j < |s| ==> Before(s[i], s[j], Checks)
  {
    var lines := Split(text, '\n');
    ChecksDistinct();
    ScanLinesOrdered(path, lines, |lines|, Checks);
  }

  /** A reported line and entry give an issue of the scan. */
  lemma ReportedIssueListed(path: string, lines: seq<string>, cs: seq<Check>, n: nat, k: nat)
    requires 1 <= n <= |lines| && k < |cs| && Reported(lines, n, cs[k])
    ensures LineIssue(path, lines, n, cs[k]) in ScanLines(path, lines, |lines|, cs)
  {
    AllLinesMember(path, lines, cs, LineIssue(path, lines, n, cs[k]));
  }

  /** A line using `ugettext_lazy` outside any compatibility block is
      reported twice: once as `ugettext` and once as `ugettext_lazy`. */
  lemma UgettextLazyReportedTwice(path: string, text: string, n: nat)
    requires 1 <= n <= |Split(text, '\n')|
    requires Contains(Split(text, '\n')[n - 1], "ugettext_lazy")
    requires !Suppressed(Split(text, '\n'), n)
    ensures LineIssue(path, Split(text, '\n'), n, Checks[0]) in FileIssues(path, Content(text))
    ensures LineIssue(path, Split(text, '\n'), n, Checks[1]) in FileIssues(path, Content(text))
    ensures Checks[0].name == "ugettext_usage" && Checks[1].name == "ugettext_lazy_usage"
  {
    var lines := Split(text, '\n');
    var c0, c1 := Checks[0], Checks[1];
    assert c1.literal == c0.literal + "_lazy";
    ContainsPrefixOfPattern(lines[n - 1], c0.literal, "_lazy");
    ReportedLiteral(lines, n, c0);
    ReportedLiteral(lines, n, c1);
    ReportedIssueListed(path, lines, Checks, n, 0);
    ReportedIssueListed(path, lines, Checks, n, 1);
  }

  /** A file that cannot be read yields exactly one issue, an error on line 0. */
  lemma UnreadableFile(path: string, reason: string)
    ensures |FileIssues(path, Unreadable(reason))| == 1
    ensures var iss := FileIssues(path, Unreadable(reason))[0];
      iss.check == "file_read_error" && iss.line == Some(0) && iss.severity == Error && iss.file == path
  {
  }

  // ---------------------------------------------------------------------------
  // analyze_settings_compatibility

  /** The middleware test as written: `MIDDLEWARE_CLASSES` present and
      `MIDDLEWARE` absent. */
  predicate MiddlewareAsWritten(text: string) {
    Contains(text, "MIDDLEWARE_CLASSES") && !Contains(text, "MIDDLEWARE")
  }

  /** The test as written never holds: `MIDDLEWARE` is part of
      `MIDDLEWARE_CLASSES`. */
  lemma MiddlewareAsWrittenNeverHolds(text: string)
    ensures !MiddlewareAsWritten(text)
  {
    if Contains(text, "MIDDLEWARE_CLASSES") {
      assert "MIDDLEWARE_CLASSES" == "MIDDLEWARE" + "_CLASSES";
      ContainsPrefixOfPattern(text, "MIDDLEWARE", "_CLASSES");
    }
  }

  /** An occurrence of `MIDDLEWARE` that is not the start of `MIDDLEWARE_CLASSES`. */
  predicate ModernMiddleware(text: string) {
    exists i :: 0 <= i <= |text| && OccursAt(text, "MIDDLEWARE", i) && !OccursAt(text, "MIDDLEWARE_CLASSES", i)
  }

  /** The intended test: the old setting is used and the new one is not. */
  predicate LegacyMiddleware(text: string) {
    Contains(text, "MIDDLEWARE_CLASSES") && !ModernMiddleware(text)
  }

  /** A settings text whose only `M` is the one of `MIDDLEWARE_CLASSES` is flagged. */
  lemma LegacyMiddlewareFlagged(pre: string, post: string)
    requires 'M' !in pre && 'M' !in post
    ensures LegacyMiddleware(pre + "MIDDLEWARE_CLASSES" + post)
  {
    var mc := "MIDDLEWARE_CLASSES";
    var text := pre + mc + post;
    assert text[|pre|..|pre| + 18] == mc;
    assert OccursAt(text, mc, |pre|);
    forall j | 0 <= j < |text| && j != |pre| ensures text[j] != 'M' {
      if j < |pre| {
        assert text[j] == pre[j];
      } else if j < |pre| + 18 {
        assert text[j] == mc[j - |pre|];
      } else {
        assert text[j] == post[j - |pre| - 18];
      }
    }
    forall i | 0 <= i <= |text| && OccursAt(text, "MIDDLEWARE", i) ensures OccursAt(text, mc, i) {
      OccursAtChar(text, "MIDDLEWARE", i, 0);
    }
  }

  /** A settings text that assigns `MIDDLEWARE` is not flagged, whatever else
      it holds. */
  lemma ModernMiddlewareNotFlagged(text: string, i: nat)
    requires OccursAt(text, "MIDDLEWARE =", i)
    ensures !LegacyMiddleware(text)
  {
    assert text[i..i + 12] == "MIDDLEWARE =";
    assert text[i..i + 10] == text[i..i + 12][..10];
    assert "MIDDLEWARE ="[..10] == "MIDDLEWARE";
    OccursAtChar(text, "MIDDLEWARE =", i, 10);
    assert OccursAt(text, "MIDDLEWARE", i);
    assert "MIDDLEWARE_CLASSES"[10] == '_';
    assert !OccursAt(text, "MIDDLEWARE_CLASSES", i) by {
      if i + 18 <= |text| {
        assert text[i..i + 18][10] == ' ';
      }
    }
  }

  function MiddlewareIssue(path: string): Issue {
    Issue(path, None, "", "MIDDLEWARE_CLASSES is deprecated, should use MIDDLEWARE", Warning, "middleware_setting")
  }

  function AutoFieldIssue(path: string): Issue {
    Issue(path, None, "", "DEFAULT_AUTO_FIELD should be set for Django 3.2+", Info, "default_auto_field")
  }

  function TemplateIssue(path: string): Issue {
    Issue(path, None, "", "Old template settings detected, should use TEMPLATES", Error, "template_settings")
  }

  /** Three optional issues in a fixed order. */
  function Pieces(m: Issue, d: Issue, t: Issue, a: bool, b: bool, c: bool): seq<Issue> {
    (if a then [m] else []) + (if b then [d] else []) + (if c then [t] else [])
  }

  /** The settings issues, given the outcome of the three tests. */
  function SettingsOf(path: string, legacy: bool, noAutoField: bool, oldTemplates: bool): seq<Issue> {
    Pieces(MiddlewareIssue(path), AutoFieldIssue(path), TemplateIssue(path), legacy, noAutoField, oldTemplates)
  }

  /** The issue of a settings file that could not be read. */
  function SettingsReadError(path: string, reason: string): Issue {
    Issue(path, None, "", "Error reading settings: " + reason, Error, "settings_read_error")
  }

  /** What `analyze_settings_compatibility` returns, with the middleware
      test as written. */
  function SettingsIssues(path: string, r: Read): seq<Issue> {
    match r
    case Unreadable(reason) => [SettingsReadError(path, reason)]
    case Content(text) =>
      SettingsOf(path, MiddlewareAsWritten(text), !Contains(text, "DEFAULT_AUTO_FIELD"),
                 Contains(text, "TEMPLATE_DIRS") || Contains(text, "TEMPLATE_LOADERS"))
  }

  /** The same with the intended middleware test. */
  function IntendedSettingsIssues(path: string, r: Read): seq<Issue> {
    match r
    case Unreadable(reason) => [SettingsReadError(path, reason)]
    case Content(text) =>
      SettingsOf(path, LegacyMiddleware(text), !Contains(text, "DEFAULT_AUTO_FIELD"),
                 Contains(text, "TEMPLATE_DIRS") || Contains(text, "TEMPLATE_LOADERS"))
  }

  /** Some issue of `issues` comes from the check `name`. */
  predicate Raised(issues: seq<Issue>, name: string) {
    exists i :: 0 <= i < |issues| && issues[i].check == name
  }

  /** The position of a settings check in the order the checks run. */
  function SettingsRank(name: string): nat {
    if name == "middleware_setting" then 0 else if name == "default_auto_field" then 1 else 2
  }

  /** An issue of a concatenation comes from one of its parts. */
  lemma RaisedAppend(a: seq<Issue>, b: seq<Issue>, name: string)
    ensures Raised(a + b, name) <==> Raised(a, name) || Raised(b, name)
  {
    if Raised(a + b, name) {
      var i :| 0 <= i < |a + b| && (a + b)[i].check == name;
      if i < |a| {
        assert a[i] == (a + b)[i];
      } else {
        assert b[i - |a|] == (a + b)[i];
      }
    }
    if Raised(b, name) {
      var i :| 0 <= i < |b| && b[i].check == name;
      assert (a + b)[|a| + i] == b[i];
    }
    if Raised(a, name) {
      var i :| 0 <= i < |a| && a[i].check == name;
      assert (a + b)[i] == a[i];
    }
  }

  /** An optional single issue is raised exactly when present with that name. */
  lemma RaisedOption(x: Issue, present: bool, name: string)
    ensures Raised(if present then [x] else [], name) <==> present && x.check == name
  {
    if present && x.check == name {
      assert [x][0].check == name;
    }
  }

  /** With three distinct check names, each is raised exactly when its flag is set. */
  lemma PiecesRaised(m: Issue, d: Issue, t: Issue, a: bool, b: bool, c: bool)
    requires m.check != d.check && m.check != t.check && d.check != t.check
    ensures var s := Pieces(m, d, t, a, b, c);
      && (Raised(s, m.check) <==> a) && (Raised(s, d.check) <==> b) && (Raised(s, t.check) <==> c)
  {
    var x := if a then [m] else [];
    var y := if b then [d] else [];
    var z := if c then [t] else [];
    forall name | name in {m.check, d.check, t.check}
      ensures Raised(Pieces(m, d, t, a, b, c), name)
          <==> (a && m.check == name) || (b && d.check == name) || (c && t.check == name)
    {
      RaisedAppend(x, y, name);
      RaisedAppend(x + y, z, name);
      RaisedOption(m, a, name);
      RaisedOption(d, b, name);
      RaisedOption(t, c, name);
    }
  }

  /** The pieces come out in their fixed order, each at most once. */
  lemma PiecesOrder(m: Issue, d: Issue, t: Issue, a: bool, b: bool, c: bool)
    requires m != d && m != t && d != t
    ensures var s := Pieces(m, d, t, a, b, c);
      && |s| <= 3
      && (forall i :: 0 <= i < |s| ==> s[i] == m || s[i] == d || s[i] == t)
      && (forall i, j :: 0 <= i < j < |s| ==> (s[i] == m && s[j] != m) || (s[i] == d && s[j] == t))
  {
  }

  /** The settings check names differ. */
  lemma SettingsNamesDiffer(path: string)
    ensures MiddlewareIssue(path).check != AutoFieldIssue(path).check
    ensures MiddlewareIssue(path).check != TemplateIssue(path).check
    ensures AutoFieldIssue(path).check != TemplateIssue(path).check
  {
    assert "middleware_setting"[0] == 'm' && "default_auto_field"[0] == 'd' && "template_settings"[0] == 't';
  }

  /** For a readable settings file as the analyser is written:
      `middleware_setting` is never raised, `default_auto_field` exactly when
      `DEFAULT_AUTO_FIELD` is absent, `template_settings` exactly when an
      old template setting is present. */
  lemma SettingsRaised(path: string, text: string)
    ensures var s := SettingsIssues(path, Content(text));
      && !Raised(s, "middleware_setting")
      && (Raised(s, "default_auto_field") <==> !Contains(text, "DEFAULT_AUTO_FIELD"))
      && (Raised(s, "template_settings") <==>
            Contains(text, "TEMPLATE_DIRS") || Contains(text, "TEMPLATE_LOADERS"))
  {
    SettingsNamesDiffer(path);
    MiddlewareAsWrittenNeverHolds(text);
    PiecesRaised(MiddlewareIssue(path), AutoFieldIssue(path), TemplateIssue(path),
                 MiddlewareAsWritten(text), !Contains(text, "DEFAULT_AUTO_FIELD"),
                 Contains(text, "TEMPLATE_DIRS") || Contains(text, "TEMPLATE_LOADERS"));
  }

  /** Whatever the settings file holds, and whether or not it can be read,
      the analyser as written emits no `middleware_setting` issue. */
  lemma MiddlewareNeverRaised(path: string, r: Read)
    ensures !Raised(SettingsIssues(path, r), "middleware_setting")
  {
    match r
    case Unreadable(reason) =>
      assert SettingsIssues(path, r) == [SettingsReadError(path, reason)];
    case Content(text) =>
      SettingsRaised(path, text);
  }

  /** With the intended middleware test each check is raised exactly when
      its condition holds. */
  lemma IntendedSettingsRaised(path: string, text: string)
    ensures var s := IntendedSettingsIssues(path, Content(text));
      && (Raised(s, "middleware_setting") <==> LegacyMiddleware(text))
      && (Raised(s, "default_auto_field") <==> !Contains(text, "DEFAULT_AUTO_FIELD"))
      && (Raised(s, "template_settings") <==>
            Contains(text, "TEMPLATE_DIRS") || Contains(text, "TEMPLATE_LOADERS"))
  {
    SettingsNamesDiffer(path);
    PiecesRaised(MiddlewareIssue(path), AutoFieldIssue(path), TemplateIssue(path),
                 LegacyMiddleware(text), !Contains(text, "DEFAULT_AUTO_FIELD"),
                 Contains(text, "TEMPLATE_DIRS") || Contains(text, "TEMPLATE_LOADERS"));
  }

  /** For a readable settings file: at most one issue per check, each the
      fixed issue of its check (with its message and severity), in the
      order the checks run, none with a line number. */
  lemma SettingsShape(path: string, text: string)
    ensures var s := SettingsIssues(path, Content(text));
      && |s| <= 3
      && (forall i :: 0 <= i < |s| ==> s[i] == MiddlewareIssue(path) || s[i] == AutoFieldIssue(path) || s[i] == TemplateIssue(path))
      && (forall i :: 0 <= i < |s| ==> s[i].line.None? && s[i].file == path)
      && (forall i, j :: 0 <= i < j < |s| ==> SettingsRank(s[i].check) < SettingsRank(s[j].check))
  {
    SettingsOfShape(path, MiddlewareAsWritten(text), !Contains(text, "DEFAULT_AUTO_FIELD"),
                    Contains(text, "TEMPLATE_DIRS") || Contains(text, "TEMPLATE_LOADERS"));
  }

  /** The same, whatever the outcome of the three tests. */
  lemma SettingsOfShape(path: string, a: bool, b: bool, c: bool)
    ensures var s := SettingsOf(path, a, b, c);
      && |s| <= 3
      && (forall i :: 0 <= i < |s| ==> s[i] == MiddlewareIssue(path) || s[i] == AutoFieldIssue(path) || s[i] == TemplateIssue(path))
      && (forall i :: 0 <= i < |s| ==> s[i].line.None? && s[i].file == path)
      && (forall i, j :: 0 <= i < j < |s| ==> SettingsRank(s[i].check) < SettingsRank(s[j].check))
  {
    var m, d, t := MiddlewareIssue(path), AutoFieldIssue(path), TemplateIssue(path);
    SettingsNamesDiffer(path);
    assert SettingsRank(m.check) == 0 && SettingsRank(d.check) == 1 && SettingsRank(t.check) == 2;
    PiecesOrder(m, d, t, a, b, c);
  }

  // ---------------------------------------------------------------------------
  // check_compatibility_shims

  /** A shim pattern: `head\s*tail`, or `head.*tail` with `.` matching newlines. */
  datatype Shim = Adjacent(head: string, tail: string) | Later(head: string, tail: string)

  const Shims: seq<Shim> := [
    Adjacent("try:", "from django.utils.translation import gettext"),
    Adjacent("except ImportError:", "from django.utils.translation import ugettext"),
    Adjacent("try:", "from django.forms import utils"),
    Later("except ImportError", "from django.forms import util"),
    Adjacent("try:", "from django.utils import simplejson"),
    Later("except ImportError", "import json")
  ]

  /** Every character of `s[a..b]` is whitespace. */
  predicate AllSpace(s: string, a: nat, b: nat)
    requires a <= b <= |s|
  {
    forall j :: a <= j < b ==> IsSpace(s[j])
  }

  /** `re.search(pattern, text, re.MULTILINE | re.DOTALL)` finds the shim. */
  predicate Found(text: string, p: Shim) {
    match p
    case Adjacent(head, tail) =>
      exists i, k :: 0 <= i <= k <= |text| && OccursAt(text, head, i) && OccursAt(text, tail, k)
                     && i + |head| <= k && AllSpace(text, i + |head|, k)
    case Later(head, tail) =>
      exists i, k :: 0 <= i <= k <= |text| && OccursAt(text, head, i) && OccursAt(text, tail, k)
                     && i + |head| <= k
  }

  /** How many of the patterns `ps` are found in `text`. */
  function ShimCount(text: string, ps: seq<Shim>): (n: nat)
    ensures n <= |ps|
  {
    if ps == [] then 0
    else ShimCount(text, ps[..|ps| - 1]) + if Found(text, ps[|ps| - 1]) then 1 else 0
  }

  /** What `check_compatibility_shims` returns: `0` for an unreadable file. */
  function Shimmed(r: Read): nat {
    if r.Unreadable? then 0 else ShimCount(r.text, Shims)
  }

  /** Python's `check_compatibility_shims`, which counts in a loop. */
  method CheckShims(r: Read) returns (found: nat)
    ensures found == Shimmed(r)
    ensures found <= 6
  {
    if r.Unreadable? {
      return 0;
    }
    found := 0;
    var i := 0;
    while i < |Shims|
      invariant 0 <= i <= |Shims|
      invariant found == ShimCount(r.text, Shims[..i])
    {
      assert Shims[..i + 1][..i] == Shims[..i];
      if Found(r.text, Shims[i]) {
        found := found + 1;
      }
      i := i + 1;
    }
    assert Shims[..i] == Shims;
  }

  /** An occurrence in `s` is an occurrence in any text that contains `s`. */
  lemma OccursShifted(a: string, s: string, b: string, pat: string, i: int)
    requires OccursAt(s, pat, i)
    ensures OccursAt(a + s + b, pat, |a| + i)
  {
    var t := a + s + b;
    assert t[|a| + i..|a| + i + |pat|] == s[i..i + |pat|];
  }

  /** A pattern found in a text is found in any text that contains it. */
  lemma FoundInfix(a: string, s: string, b: string, p: Shim)
    requires Found(s, p)
    ensures Found(a + s + b, p)
  {
    var t := a + s + b;
    var i, k :| 0 <= i <= k <= |s| && OccursAt(s, p.head, i) && OccursAt(s, p.tail, k)
                && i + |p.head| <= k && (p.Adjacent? ==> AllSpace(s, i + |p.head|, k));
    OccursShifted(a, s, b, p.head, i);
    OccursShifted(a, s, b, p.tail, k);
    if p.Adjacent? {
      forall j | |a| + i + |p.head| <= j < |a| + k ensures IsSpace(t[j]) {
        assert t[j] == s[j - |a|];
      }
    }
  }

  /** Counting over texts where every pattern found in the first is found in the second. */
  lemma {:induction false} ShimCountMonotone(s: string, t: string, ps: seq<Shim>)
    requires forall i :: 0 <= i < |ps| && Found(s, ps[i]) ==> Found(t, ps[i])
    ensures ShimCount(s, ps) <= ShimCount(t, ps)
  {
    if ps != [] {
      var init := ps[..|ps| - 1];
      assert forall i :: 0 <= i < |init| ==> init[i] == ps[i];
      ShimCountMonotone(s, t, init);
    }
  }

  /** Adding text before or after a file's text never loses a shim. */
  lemma ShimsSurviveAdditions(a: string, s: string, b: string)
    ensures ShimCount(s, Shims) <= ShimCount(a + s + b, Shims)
  {
    forall i | 0 <= i < |Shims| && Found(s, Shims[i]) ensures Found(a + s + b, Shims[i]) {
      FoundInfix(a, s, b, Shims[i]);
    }
    ShimCountMonotone(s, a + s + b, Shims);
  }

  // ---------------------------------------------------------------------------
  // main: the walk over the files, the severity buckets and the exit code

  /** A file the walk found: its path and how reading it went. */
  type File = (string, Read)

  predicate IsSettings(path: string) {
    EndsWith(path, "settings.py")
  }

  /** The issues of all files, in order. */
  function AllIssues(files: seq<File>): seq<Issue> {
    if files == [] then []
    else
      var (path, r) := files[|files| - 1];
      AllIssues(files[..|files| - 1]) + if IsSettings(path) then SettingsIssues(path, r) else FileIssues(path, r)
  }

  /** The shims of all files other than the settings file. */
  function AllShims(files: seq<File>): (n: nat)
    ensures n <= 6 * |files|
  {
    if files == [] then 0
    else
      var (path, r) := files[|files| - 1];
      AllShims(files[..|files| - 1]) + if IsSettings(path) then 0 else Shimmed(r)
  }

  /** One more file adds its issues and, unless it is the settings file,
      its shims. */
  lemma AllFilesNext(files: seq<File>, i: nat)
    requires i < |files|
    ensures var (path, r) := files[i];
      && AllIssues(files[..i + 1]) == AllIssues(files[..i]) + (if IsSettings(path) then SettingsIssues(path, r) else FileIssues(path, r))
      && AllShims(files[..i + 1]) == AllShims(files[..i]) + (if IsSettings(path) then 0 else Shimmed(r))
  {
    assert files[..i + 1][..i] == files[..i];
  }

  /** The loop of `main` over the files. */
  method AnalyzeAll(files: seq<File>) returns (issues: seq<Issue>, shims: nat)
    ensures issues == AllIssues(files) && shims == AllShims(files)
  {
    issues := [];
    shims := 0;
    var i := 0;
    while i < |files|
      invariant 0 <= i <= |files|
      invariant issues == AllIssues(files[..i]) && shims == AllShims(files[..i])
    {
      AllFilesNext(files, i);
      var (path, r) := files[i];
      var found: seq<Issue>;
      if IsSettings(path) {
        found := SettingsIssues(path, r);
      } else {
        found := AnalyzeFile(path, r);
        var n := CheckShims(r);
        shims := shims + n;
      }
      issues := issues + found;
      i := i + 1;
    }
    assert files[..i] == files;
  }

  /** The issues of a given severity, in order. */
  function OfSeverity(issues: seq<Issue>, sev: Severity): (s: seq<Issue>)
    ensures |s| <= |issues|
  {
    if issues == [] then []
    else
      var x := issues[|issues| - 1];
      OfSeverity(issues[..|issues| - 1], sev) + if x.severity == sev then [x] else []
  }

  /** `by_severity[issue['severity']].append(issue)` for every issue. */
  method GroupBySeverity(issues: seq<Issue>) returns (errors: seq<Issue>, warnings: seq<Issue>, infos: seq<Issue>)
    ensures errors == OfSeverity(issues, Error)
    ensures warnings == OfSeverity(issues, Warning)
    ensures infos == OfSeverity(issues, Info)
  {
    errors, warnings, infos := [], [], [];
    var i := 0;
    while i < |issues|
      invariant 0 <= i <= |issues|
      invariant errors == OfSeverity(issues[..i], Error)
      invariant warnings == OfSeverity(issues[..i], Warning)
      invariant infos == OfSeverity(issues[..i], Info)
    {
      assert issues[..i + 1][..i] == issues[..i];
      var x := issues[i];
      match x.severity {
        case Error => errors := errors + [x];
        case Warning => warnings := warnings + [x];
        case Info => infos := infos + [x];
      }
      i := i + 1;
    }
    assert issues[..i] == issues;
  }

  /** Adding an issue to the bucket of its severity adds it to their union. */
  lemma BucketStep(e: seq<Issue>, w: seq<Issue>, f: seq<Issue>, x: Issue, e': seq<Issue>, w': seq<Issue>, f': seq<Issue>)
    requires e' == e + if x.severity == Error then [x] else []
    requires w' == w + if x.severity == Warning then [x] else []
    requires f' == f + if x.severity == Info then [x] else []
    ensures multiset(e') + multiset(w') + multiset(f') == multiset(e) + multiset(w) + multiset(f) + multiset{x}
  {
  }

  /** Every issue lands in exactly one bucket: together the buckets hold
      the issues, each as often as it was reported. */
  lemma {:induction false} BucketsPartition(issues: seq<Issue>)
    ensures multiset(OfSeverity(issues, Error)) + multiset(OfSeverity(issues, Warning))
            + multiset(OfSeverity(issues, Info)) == multiset(issues)
  {
    if issues != [] {
      var init := issues[..|issues| - 1];
      var x := issues[|issues| - 1];
      BucketsPartition(init);
      assert multiset(issues) == multiset(init) + multiset{x} by {
        assert issues == init + [x];
      }
      BucketStep(OfSeverity(init, Error), OfSeverity(init, Warning), OfSeverity(init, Info), x,
                 OfSeverity(issues, Error), OfSeverity(issues, Warning), OfSeverity(issues, Info));
    }
  }

  /** The buckets together are as long as the list of issues. */
  lemma BucketSizes(issues: seq<Issue>)
    ensures |OfSeverity(issues, Error)| + |OfSeverity(issues, Warning)| + |OfSeverity(issues, Info)| == |issues|
  {
    BucketsPartition(issues);
    assert |multiset(issues)| == |issues|;
  }

  /** A bucket holds exactly the issues of its severity. */
  lemma {:induction false} OfSeverityMember(issues: seq<Issue>, sev: Severity, x: Issue)
    ensures x in OfSeverity(issues, sev) <==> x in issues && x.severity == sev
  {
    if issues != [] {
      var init := issues[..|issues| - 1];
      OfSeverityMember(init, sev, x);
      assert issues == init + [issues[|issues| - 1]];
    }
  }

  /** The value `main` returns: 1 when there is an error, 0 otherwise. */
  function ExitCode(errors: seq<Issue>): int {
    if errors == [] then 0 else 1
  }

  /** `main` exits with 1 exactly when some issue is an error. */
  lemma ExitCodeSpec(issues: seq<Issue>)
    ensures ExitCode(OfSeverity(issues, Error)) == 1 <==> exists i :: 0 <= i < |issues| && issues[i].severity == Error
    ensures ExitCode(OfSeverity(issues, Error)) in {0, 1}
  {
    var errors := OfSeverity(issues, Error);
    if errors != [] {
      OfSeverityMember(issues, Error, errors[0]);
    }
    if exists i :: 0 <= i < |issues| && issues[i].severity == Error {
      var i :| 0 <= i < |issues| && issues[i].severity == Error;
      OfSeverityMember(issues, Error, issues[i]);
    }
  }

  /** `main` without its report: analyse the files, group the issues and
      compute the exit code. */
  method Assess(files: seq<File>) returns (exitCode: int, shims: nat)
    ensures exitCode == 1 <==> exists i :: 0 <= i < |AllIssues(files)| && AllIssues(files)[i].severity == Error
    ensures exitCode == 0 || exitCode == 1
    ensures shims == AllShims(files)
  {
    var issues;
    issues, shims := AnalyzeAll(files);
    var errors, warnings, infos := GroupBySeverity(issues);
    ExitCodeSpec(issues);
    exitCode := ExitCode(errors);
  }
}
