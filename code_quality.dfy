/**
  * The code-quality pass of the Django 4/5 test runner: every readable
  * `.py` file is searched for four deprecated names, a file holding
  * `except ImportError` anywhere is skipped as a whole, and each line that
  * holds a name but neither `except` nor `try:` counts as one issue. The
  * pass succeeds when nothing was counted.
  *
  * The walk over the package directory is given as the list of files it
  * yields, each with its text or nothing when it could not be read.
  */
module CodeQuality {
  import opened Wrappers
  import opened Text

  /** A file of the walk: its name, and its text if it could be read. */
  datatype SourceFile = SourceFile(name: string, content: Option<string>)

  /** The deprecated names and the advice printed with them. */
  const DeprecatedPatterns: seq<(string, string)> := [
    ("ugettext", "Use gettext instead"),
    ("render_to_response", "Use render instead"),
    ("django.conf.urls.url", "Use django.urls.re_path instead"),
    ("MIDDLEWARE_CLASSES", "Use MIDDLEWARE instead")
  ]

  /** A line is flagged for a name it holds, unless it mentions `except`
      or `try:`. */
  predicate Flagged(line: string, pattern: string) {
    Contains(line, pattern) && !Contains(line, "except") && !Contains(line, "try:")
  }

  /** The file is searched line by line for the name: it holds the name and
      no `except ImportError`. */
  predicate Searched(content: string, pattern: string) {
    Contains(content, pattern) && !Contains(content, ExceptImportError)
  }

  const ExceptImportError := "except ImportError"

  /** The 1-based numbers of the flagged lines among the first `m`. */
  function LineHits(lines: seq<string>, pattern: string, m: nat): seq<nat>
    requires m <= |lines|
  {
    if m == 0 then []
    else LineHits(lines, pattern, m - 1) + if Flagged(lines[m - 1], pattern) then [m] else []
  }

  /** The lines of a file flagged for one name. */
  function PatternHits(content: string, pattern: string): seq<nat> {
    if Searched(content, pattern) then
      var lines := Split(content, '\n');
      LineHits(lines, pattern, |lines|)
    else []
  }

  /** The issues one file adds for the names `ps`. */
  function FileCount(content: string, ps: seq<(string, string)>): nat {
    if ps == [] then 0
    else FileCount(content, ps[..|ps| - 1]) + |PatternHits(content, ps[|ps| - 1].0)|
  }

  /** The file is searched at all: a Python source that could be read. */
  predicate Scanned(f: SourceFile) {
    EndsWith(f.name, ".py") && f.content.Some?
  }

  /** The issues the files add, in the order of the walk. */
  function TotalCount(files: seq<SourceFile>, ps: seq<(string, string)>): nat {
    if files == [] then 0
    else
      var f := files[|files| - 1];
      TotalCount(files[..|files| - 1], ps) + if Scanned(f) then FileCount(f.content.value, ps) else 0
  }

  /** Python's `check_code_quality` without its printing: the loops over
      files, names and lines, and the verdict. */
  method CheckCodeQuality(files: seq<SourceFile>) returns (passed: bool, issuesFound: nat)
    ensures issuesFound == TotalCount(files, DeprecatedPatterns)
    ensures passed <==> issuesFound == 0
  {
    issuesFound := 0;
    var i := 0;
    while i < |files|
      invariant 0 <= i <= |files|
      invariant issuesFound == TotalCount(files[..i], DeprecatedPatterns)
    {
      assert files[..i + 1][..i] == files[..i];
      var f := files[i];
      if EndsWith(f.name, ".py") && f.content.Some? {
        var found := CountFile(f.content.value, DeprecatedPatterns);
        issuesFound := issuesFound + found;
      }
      i := i + 1;
    }
    assert files[..i] == files;
    passed := issuesFound == 0;
  }

  /** The body of the loop over files: the loops over the names `ps` and
      over the lines of one readable file. */
  method CountFile(content: string, ps: seq<(string, string)>) returns (found: nat)
    ensures found == FileCount(content, ps)
  {
    found := 0;
    var k := 0;
    while k < |ps|
      invariant 0 <= k <= |ps|
      invariant found == FileCount(content, ps[..k])
    {
      FileCountNext(content, ps, k);
      var (pattern, message) := ps[k];
      if Contains(content, pattern) && !Contains(content, ExceptImportError) {
        var hits := CountLines(Split(content, '\n'), pattern);
        found := found + hits;
      }
      k := k + 1;
    }
    assert ps[..k] == ps;
  }

  /** The loop over the lines of a file for one name. */
  method CountLines(lines: seq<string>, pattern: string) returns (hits: nat)
    ensures hits == |LineHits(lines, pattern, |lines|)|
  {
    hits := 0;
    var n := 1;
    while n <= |lines|
      invariant 1 <= n <= |lines| + 1
      invariant hits == |LineHits(lines, pattern, n - 1)|
    {
      if Flagged(lines[n - 1], pattern) {
        hits := hits + 1;
      }
      n := n + 1;
    }
  }

  /** One more name: the count grows by that name's hits. */
  lemma FileCountNext(content: string, ps: seq<(string, string)>, k: nat)
    requires k < |ps|
    ensures FileCount(content, ps[..k + 1]) == FileCount(content, ps[..k]) + |PatternHits(content, ps[k].0)|
  {
    assert ps[..k + 1][..k] == ps[..k];
  }

  // ---------------------------------------------------------------------------
  // Properties

  /** `h` is strictly increasing. */
  predicate Increasing(h: seq<nat>) {
    forall a, b :: 0 <= a < b < |h| ==> h[a] < h[b]
  }

  /** A line number is among the hits exactly when it is a line of the first
      `m` that is flagged. */
  lemma {:induction false} LineHitsMembers(lines: seq<string>, pattern: string, m: nat)
    requires m <= |lines|
    ensures forall n :: n in LineHits(lines, pattern, m) <==> 1 <= n <= m && Flagged(lines[n - 1], pattern)
  {
    if m > 0 {
      LineHitsMembers(lines, pattern, m - 1);
    }
  }

  /** The hits come in increasing order, so no line counts twice for one name. */
  lemma {:induction false} LineHitsIncreasing(lines: seq<string>, pattern: string, m: nat)
    requires m <= |lines|
    ensures Increasing(LineHits(lines, pattern, m))
  {
    if m > 0 {
      LineHitsIncreasing(lines, pattern, m - 1);
      LineHitsMembers(lines, pattern, m - 1);
      var h0 := LineHits(lines, pattern, m - 1);
      var h := LineHits(lines, pattern, m);
      if Flagged(lines[m - 1], pattern) {
        assert h == h0 + [m];
        forall a, b | 0 <= a < b < |h| ensures h[a] < h[b] {
          assert h[a] == h0[a] && h0[a] in h0;
          if b < |h0| {
            assert h[b] == h0[b];
          }
        }
      } else {
        assert h == h0;
      }
    }
  }

  /** The lines flagged in a file for one name: those that hold the name and
      neither `except` nor `try:`, and only when the file holds no
      `except ImportError`. */
  lemma PatternHitsSpec(content: string, pattern: string, n: nat)
    ensures var lines := Split(content, '\n');
      n in PatternHits(content, pattern) <==>
        !Contains(content, ExceptImportError) && 1 <= n <= |lines| && Flagged(lines[n - 1], pattern)
  {
    var lines := Split(content, '\n');
    LineHitsMembers(lines, pattern, |lines|);
    if !Contains(content, ExceptImportError) && 1 <= n <= |lines| && Flagged(lines[n - 1], pattern) {
      SplitPieceContained(content, '\n', n - 1);
      ContainsTransitive(content, lines[n - 1], pattern);
    }
  }

  /** A file holding `except ImportError` anywhere adds nothing. */
  lemma {:induction false} GuardedFileAddsNothing(content: string, ps: seq<(string, string)>)
    requires Contains(content, ExceptImportError)
    ensures FileCount(content, ps) == 0
  {
    if ps != [] {
      GuardedFileAddsNothing(content, ps[..|ps| - 1]);
    }
  }

  /** A name the file does not hold flags none of its lines. */
  lemma AbsentPatternFlagsNothing(content: string, pattern: string)
    requires !Contains(content, pattern)
    ensures PatternHits(content, pattern) == []
  {
  }

  /** A file counts once per line and name: its count is the number of
      (name, line) pairs flagged. */
  lemma {:induction false} FileCountBound(content: string, ps: seq<(string, string)>)
    ensures FileCount(content, ps) <= |ps| * |Split(content, '\n')|
  {
    if ps != [] {
      FileCountBound(content, ps[..|ps| - 1]);
      var lines := Split(content, '\n');
      var pattern := ps[|ps| - 1].0;
      if Searched(content, pattern) {
        LineHitsLength(lines, pattern, |lines|);
      }
      assert |ps| * |lines| == (|ps| - 1) * |lines| + |lines|;
    }
  }

  /** There are no more hits than lines. */
  lemma {:induction false} LineHitsLength(lines: seq<string>, pattern: string, m: nat)
    requires m <= |lines|
    ensures |LineHits(lines, pattern, m)| <= m
  {
    if m > 0 {
      LineHitsLength(lines, pattern, m - 1);
    }
  }

  /** Files that are not read as Python sources (unreadable, or not named
      `.py`) add nothing to the count. */
  lemma SkippedFileAddsNothing(files: seq<SourceFile>, f: SourceFile, ps: seq<(string, string)>)
    requires !Scanned(f)
    ensures TotalCount(files + [f], ps) == TotalCount(files, ps)
  {
    assert (files + [f])[..|files|] == files;
  }

  /** The count is zero exactly when no name flags any line of any readable
      Python file. */
  lemma {:induction false} NoIssuesSpec(files: seq<SourceFile>, ps: seq<(string, string)>)
    ensures TotalCount(files, ps) == 0 <==>
      forall i, k :: 0 <= i < |files| && Scanned(files[i]) && 0 <= k < |ps| ==>
        PatternHits(files[i].content.value, ps[k].0) == []
  {
    if files != [] {
      var init := files[..|files| - 1];
      var f := files[|files| - 1];
      NoIssuesSpec(init, ps);
      if Scanned(f) {
        FileCountZero(f.content.value, ps);
      }
      assert forall i :: 0 <= i < |init| ==> init[i] == files[i];
    }
  }

  /** A file adds nothing exactly when no name flags any of its lines. */
  lemma {:induction false} FileCountZero(content: string, ps: seq<(string, string)>)
    ensures FileCount(content, ps) == 0 <==> forall k :: 0 <= k < |ps| ==> PatternHits(content, ps[k].0) == []
  {
    if ps != [] {
      var init := ps[..|ps| - 1];
      FileCountZero(content, init);
      assert forall k :: 0 <= k < |init| ==> init[k] == ps[k];
    }
  }

  /** A line using `ugettext_lazy` outside any guard is counted for
      `ugettext`, and a line with `MIDDLEWARE_CLASSES` for that name. */
  lemma PatternsCaught(content: string, n: nat)
    requires !Contains(content, ExceptImportError)
    requires 1 <= n <= |Split(content, '\n')|
    requires !Contains(Split(content, '\n')[n - 1], "except") && !Contains(Split(content, '\n')[n - 1], "try:")
    ensures Contains(Split(content, '\n')[n - 1], "ugettext_lazy") ==> n in PatternHits(content, DeprecatedPatterns[0].0)
    ensures Contains(Split(content, '\n')[n - 1], "MIDDLEWARE_CLASSES") ==> n in PatternHits(content, DeprecatedPatterns[3].0)
  {
    var line := Split(content, '\n')[n - 1];
    PatternHitsSpec(content, "ugettext", n);
    PatternHitsSpec(content, "MIDDLEWARE_CLASSES", n);
    if Contains(line, "ugettext_lazy") {
      assert "ugettext_lazy" == "ugettext" + "_lazy";
      ContainsPrefixOfPattern(line, "ugettext", "_lazy");
    }
  }
}
