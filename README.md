# filebrowser query tags, field validation and Django 4/5 scanners in Dafny

This project models four self-contained pieces of the `filebrowser-no-grappelli` Django app and its tooling. It proves what each of them promises.

- **Query-string template helpers** (`filebrowser/templatetags/fb_tags.py`):
  - `string_to_dict` and `string_to_list` parse `"k=v, k=v"` and `"k, k"` arguments;
  - `get_query_string` edits a parameter dictionary in place and serialises it as `?k=v&k=v`;
  - `query_helper` does the same on a copy;
  - the `selectable` tag compiles to a node whose `render` stores a selectability decision in the template context.

  Module `FbTags`, on top of `Text` (Python string operations), `OrderedDict` (Python's insertion-ordered `dict`) and `Wrappers` (`Option`, `Result`).
- **The Django 4/5 compatibility analyser** (`analyze_django45_compatibility.py`):
  - the line-by-line scan for deprecated APIs, with matches inside `try`/`except ImportError` blocks suppressed;
  - the three settings checks;
  - the compatibility-shim counter;
  - the grouping by severity and the exit code of `main`.

  Module `Analyzer`.
- **The file-browse fields** (`filebrowser/fields.py`):
  - `FileBrowseFormField.__init__` chooses the allowed extensions;
  - `clean` checks the lower-cased `os.path.splitext` suffix against them;
  - `FileBrowseField` converts between stored strings and file objects.

  Module `Fields`. Python's `posixpath.splitext` is modelled exactly, including hidden files such as `.bashrc`.
- **The code-quality pass** of the Django 4/5 test runner (`check_code_quality` in `test_django45_compatibility.py`): a file-wide `except ImportError` guard, a per-line filter and a counter. Module `CodeQuality`.

Loops in the source are `method`s with loop invariants, each proved equal to a recursive specification function:
- `StringToDict`, `StringToList`, `GetQueryString`;
- `AnalyzeFile`, `CheckShims`, `AnalyzeAll`, `GroupBySeverity`;
- `CheckCodeQuality`.

The properties are lemmas about those functions.

Objects that the source updates in place are classes whose methods carry `modifies` clauses:
- the query dictionary `p` is `FbTags.ParamDict`;
- the template context is `FbTags.Context`;
- the two fields are `Fields.FileBrowseFormField` and `Fields.FileBrowseField`.

Outside code appears as parameters:
- file contents: a string, or the reason the file could not be read;
- `urlquote` and `url_to_path`: functions;
- the `SELECT_FORMATS` and `EXTENSIONS` settings: maps;
- Django's `CharField.clean`: its result.

## Model

| member | source | states |
|---|---|---|
| FbTags.SplitAssignment | filebrowser/templatetags/fb_tags.py:87 | `arg.split('=', 1)` unpacks into two values exactly when `arg` holds `=`; the key is the text before the first `=` and holds none, the value is the rest |
| FbTags.SplitAssignmentFirst | filebrowser/templatetags/fb_tags.py:87 | a value may itself contain `=`: `k=v` splits back into `k` and `v` whenever `k` has no `=` |
| FbTags.ClassifySpec | filebrowser/templatetags/fb_tags.py:85-88 | a segment is skipped exactly when it strips to nothing, raises exactly when it strips to a non-empty text without `=`, and otherwise gives the key and value around the first `=` of the stripped text |
| FbTags.StringToDict | filebrowser/templatetags/fb_tags.py:78-89 | the loop returns the dictionary of the segments, or the unpacking error, exactly as the specification `ParseDict` says (`{}` for an empty or missing string) |
| FbTags.StringToList | filebrowser/templatetags/fb_tags.py:98-108 | the loop returns the stripped non-blank segments in order, as `ParseList` says (`[]` for an empty or missing string) |
| FbTags.DictOfBlankLast | filebrowser/templatetags/fb_tags.py:81-86 | the blank segment left by the appended `','` changes nothing |
| FbTags.DictOfError | filebrowser/templatetags/fb_tags.py:87 | `string_to_dict` raises exactly when some segment is non-blank and has no `=` |
| FbTags.DictOfErrorPersists | filebrowser/templatetags/fb_tags.py:84-88 | once a segment has raised, the segments after it do not matter |
| FbTags.DictOfLookup | filebrowser/templatetags/fb_tags.py:84-88 | a successful parse has no key twice, and key `k` holds `v` exactly when some segment sets `k` to `v` and no later segment sets `k` (a later duplicate overwrites) |
| FbTags.LastValueIff | filebrowser/templatetags/fb_tags.py:88 | the last assignment to a key is `v` exactly when a segment assigns `v` and no later one assigns the key |
| FbTags.DictOfAssignments | filebrowser/templatetags/fb_tags.py:84-88 | parsing the `k=v` segments of a dictionary whose keys are distinct and free of `=` and `,` gives that dictionary back |
| FbTags.ParseDictJoin | filebrowser/templatetags/fb_tags.py:78-89 | round trip: `string_to_dict` of the comma-joined `k=v` pairs is the dictionary |
| FbTags.ParseOneSegment | filebrowser/templatetags/fb_tags.py:81-84 | a single segment without `,` is parsed on its own once the `','` is appended |
| FbTags.SegmentsOfJoin | filebrowser/templatetags/fb_tags.py:81-84 | two or more parts without `,`, comma-joined, split back into the parts, and no `','` is appended |
| FbTags.ListOfItems | filebrowser/templatetags/fb_tags.py:104-107 | segments that are stripped and non-blank are kept as they are, in order |
| FbTags.ParseListJoin | filebrowser/templatetags/fb_tags.py:98-108 | round trip: `string_to_list` of the comma-joined items gives the items back |
| FbTags.ParamDict.Delete | filebrowser/templatetags/fb_tags.py:60 | `del p[k]` removes the key's entry and keeps the dictionary valid |
| FbTags.ParamDict.Put | filebrowser/templatetags/fb_tags.py:66 | `p[k] = v` assigns in place and keeps the dictionary valid |
| FbTags.ParamDict.Copy | filebrowser/templatetags/fb_tags.py:46 | `p.copy()` is a fresh dictionary with the same entries |
| FbTags.GetQueryString | filebrowser/templatetags/fb_tags.py:56-67 | removals first, then the new parameters; the new state of `p` is `Updated(old p, …)` and the result is `?` followed by the `&`-joined pairs of that state |
| FbTags.RemoveAllSpec | filebrowser/templatetags/fb_tags.py:58-60 | after the removals each removed key is absent and every other key keeps its value |
| FbTags.ApplyOneSpec | filebrowser/templatetags/fb_tags.py:63-66 | one new parameter: `None` deletes the key, a value is assigned, other keys are untouched |
| FbTags.ApplyAllSpec | filebrowser/templatetags/fb_tags.py:62-66 | a key of `new_params` with a value holds it, a key with `None` is absent, every other key keeps its value |
| FbTags.UpdatedSpec | filebrowser/templatetags/fb_tags.py:56-66 | after `get_query_string` a key given a value holds it; a key given `None`, or removed and not given a value, is absent; every other key keeps its value; no key appears twice |
| FbTags.QueryStringEmpty | filebrowser/templatetags/fb_tags.py:67 | the result starts with `?`, and it is exactly `?` iff the dictionary is empty |
| FbTags.QueryStringPairs | filebrowser/templatetags/fb_tags.py:67 | when quoting never yields `&`, the text after `?` splits into exactly one `k=v` pair per key, in dictionary order |
| FbTags.QueryHelper | filebrowser/templatetags/fb_tags.py:39-47 | the caller's query is left unchanged; a parse error of `add` propagates; otherwise the result is the query string of the updated copy |
| FbTags.AsNewParams | filebrowser/templatetags/fb_tags.py:44 | the parsed `add` dictionary as `new_params`: the same keys in the same order, distinct when the dictionary's are, and each key looks up its `add` value as a present value |
| FbTags.QueryHelperLookup | filebrowser/templatetags/fb_tags.py:39-47 | after `query_helper`'s update the keys stay distinct and a key maps to its `add` value if `add` names it, else to nothing if `remove` names it, else to its old value |
| FbTags.Selectability | filebrowser/templatetags/fb_tags.py:125-130 | `False` exactly when file type and format are both non-empty and the file type is not listed for the format; `KeyError` exactly when both are non-empty and the format is not in `SELECT_FORMATS`; `True` otherwise |
| FbTags.SelectableNode.Render | filebrowser/templatetags/fb_tags.py:116-132 | stores the decision under `selectable`, changes no other variable and renders `''`; a `KeyError` leaves the context as it was |
| FbTags.Context.constructor | filebrowser/templatetags/fb_tags.py:116 | a context holds the given variables |
| FbTags.CompileSelectable | filebrowser/templatetags/fb_tags.py:137-142 | the tag compiles exactly when it has three whitespace-separated words; otherwise the error names the tag: `<tag> tag requires 2 arguments` |
| FbTags.CompileSelectableWords | filebrowser/templatetags/fb_tags.py:138 | `name filetype format` compiles to the node reading `filetype` and `format` |
| OrderedDict.AssignSpec | filebrowser/templatetags/fb_tags.py:66 | after `d[k] = v` the key holds `v`, other keys keep their values, no key appears twice |
| OrderedDict.AssignKeys | filebrowser/templatetags/fb_tags.py:66 | assigning keeps an existing key in its place and appends a new one |
| OrderedDict.RemoveSpec | filebrowser/templatetags/fb_tags.py:60 | after `del d[k]` the key is absent and other keys keep their values |
| OrderedDict.RemoveKeys | filebrowser/templatetags/fb_tags.py:60 | deleting takes out exactly that key |
| Text.JoinSplit | filebrowser/templatetags/fb_tags.py:84 | joining the pieces of `s.split(c)` with `c` gives `s` back |
| Text.SplitJoin | filebrowser/templatetags/fb_tags.py:84 | splitting a join of parts without the separator gives the parts back |
| Text.SplitTrailingSeparator | filebrowser/templatetags/fb_tags.py:83-84 | an appended separator adds exactly one empty last piece |
| Text.SplitPieceContained | test_django45_compatibility.py:190 | every line of `content.split('\n')` occurs in `content` |
| Text.StripSpec | filebrowser/templatetags/fb_tags.py:85 | `strip()` is empty iff the text is all whitespace, has no whitespace at either end, and is a slice of the text |
| Text.TrimLeftSpec | filebrowser/templatetags/fb_tags.py:85 | `lstrip()` removes only leading whitespace |
| Text.TrimRightSpec | filebrowser/templatetags/fb_tags.py:85 | `rstrip()` removes only trailing whitespace |
| Text.LowerIdempotent | filebrowser/fields.py:81 | lower-casing twice is lower-casing once |
| Text.LastIndexLower | filebrowser/fields.py:81 | lower-casing does not move the last `/` or `.` (any character that is not a letter) |
| Text.LastIndex | filebrowser/fields.py:81 | `rfind`: -1 or the index of the last occurrence |
| Text.WordsOfThree | filebrowser/templatetags/fb_tags.py:138 | three space-separated words split into exactly those words |
| Analyzer.Position | analyze_django45_compatibility.py:59 | the index of a check's entry in the table |
| Analyzer.PositionOf | analyze_django45_compatibility.py:20-56 | with distinct names, an entry's name leads back to its index |
| Analyzer.ChecksDistinct | analyze_django45_compatibility.py:20-56 | the names of the pattern table are distinct |
| Analyzer.AnalyzeFile | analyze_django45_compatibility.py:10-93 | the nested loops over lines and patterns return `FileIssues`, the issues of the reported (line, entry) pairs, or the one read error |
| Analyzer.AnalyzeLine | analyze_django45_compatibility.py:59-81 | the inner loop over the table returns the issues of one line, in table order |
| Analyzer.LineIssuesNext | analyze_django45_compatibility.py:59-81 | one more table entry adds that entry's issue for the line, if it is reported |
| Analyzer.SuppressedSpec | analyze_django45_compatibility.py:62-72 | a match on 1-based line `n` is skipped exactly when a line with 0-based index `n-5` to `n+2` holds `try:` or `except ImportError`, or the line carries `# Django 3 fallback` |
| Analyzer.ReportedLiteral | analyze_django45_compatibility.py:22-72 | the lookahead never decides anything: a line is reported iff it contains the literal and is not suppressed |
| Analyzer.LineIssuesMember | analyze_django45_compatibility.py:59-81 | a line's issues are exactly those of its reported entries |
| Analyzer.ScanLinesMember | analyze_django45_compatibility.py:58-81 | the issues of lines `1..m` are those of each of those lines |
| Analyzer.AllLinesMember | analyze_django45_compatibility.py:58-81 | an issue is produced iff some line and entry are reported; it carries a line number between 1 and the line count and its entry's name, message and severity |
| Analyzer.FileIssuesMember | analyze_django45_compatibility.py:58-81 | the same for a readable file scanned with the pattern table |
| Analyzer.AppendOrdered | analyze_django45_compatibility.py:59-81 | adding a later entry's issue keeps a line's issues in table order |
| Analyzer.LineIssuesOrdered | analyze_django45_compatibility.py:59-81 | a line's issues are on that line and in table order |
| Analyzer.AppendLine | analyze_django45_compatibility.py:58-81 | adding the next line's issues keeps the order by line, then by table |
| Analyzer.ScanLinesOrdered | analyze_django45_compatibility.py:58-81 | issues are ordered by line number, then by table order, and lie within the lines scanned |
| Analyzer.FileIssuesOrdered | analyze_django45_compatibility.py:58-81 | a readable file's issues come ordered by line, then by pattern-table order |
| Analyzer.ReportedIssueListed | analyze_django45_compatibility.py:60-81 | every reported (line, entry) pair gives an issue of the scan |
| Analyzer.UgettextLazyReportedTwice | analyze_django45_compatibility.py:21-30 | an unsuppressed `ugettext_lazy` line yields both a `ugettext_usage` and a `ugettext_lazy_usage` issue |
| Analyzer.UnreadableFile | analyze_django45_compatibility.py:83-91 | an unreadable file yields exactly one issue: `file_read_error`, line 0, severity error |
| Analyzer.MiddlewareAsWrittenNeverHolds | analyze_django45_compatibility.py:104 | the middleware test as written is false for every content |
| Analyzer.LegacyMiddlewareFlagged | analyze_django45_compatibility.py:104 | under the corrected test, a settings text whose only `M` starts `MIDDLEWARE_CLASSES` is flagged |
| Analyzer.ModernMiddlewareNotFlagged | analyze_django45_compatibility.py:104 | under the corrected test, a text assigning `MIDDLEWARE =` is not flagged |
| Analyzer.RaisedAppend | analyze_django45_compatibility.py:97-128 | a check is raised by a concatenation iff it is raised by one of the parts |
| Analyzer.RaisedOption | analyze_django45_compatibility.py:104-128 | a conditionally appended issue raises its check iff its condition holds |
| Analyzer.PiecesRaised | analyze_django45_compatibility.py:104-128 | three conditional appends with distinct checks raise each check iff its condition holds |
| Analyzer.PiecesOrder | analyze_django45_compatibility.py:104-128 | three conditional appends give at most three issues, each one of the three, in append order |
| Analyzer.SettingsNamesDiffer | analyze_django45_compatibility.py:109-127 | the three settings check names differ |
| Analyzer.SettingsRaised | analyze_django45_compatibility.py:104-128 | as written: `middleware_setting` is never raised; `default_auto_field` iff `DEFAULT_AUTO_FIELD` is absent; `template_settings` iff `TEMPLATE_DIRS` or `TEMPLATE_LOADERS` is present |
| Analyzer.MiddlewareNeverRaised | analyze_django45_compatibility.py:95-128 | for any settings file, readable or not, the analyser as written emits no `middleware_setting` issue |
| Analyzer.IntendedSettingsRaised | analyze_django45_compatibility.py:104-128 | with the corrected middleware test: `middleware_setting` iff that test holds; `default_auto_field` iff `DEFAULT_AUTO_FIELD` is absent; `template_settings` iff `TEMPLATE_DIRS` or `TEMPLATE_LOADERS` is present |
| Analyzer.SettingsOfShape | analyze_django45_compatibility.py:104-128 | whatever the three tests give, at most three issues, each the fixed issue of its check, without line number, in check order |
| Analyzer.SettingsShape | analyze_django45_compatibility.py:95-128 | a readable settings file yields at most one issue per check, each with its fixed message and severity, in the order the checks run |
| Analyzer.ShimCount | analyze_django45_compatibility.py:155-158 | the count of found patterns is at most the number of patterns |
| Analyzer.CheckShims | analyze_django45_compatibility.py:140-163 | the loop returns `Shimmed`: the number of the six shim patterns found, and 0 for an unreadable file; never more than 6 |
| Analyzer.OccursShifted | analyze_django45_compatibility.py:157 | an occurrence in a text is an occurrence in any text around it |
| Analyzer.FoundInfix | analyze_django45_compatibility.py:157 | a shim found in a text is found in any text containing it |
| Analyzer.ShimCountMonotone | analyze_django45_compatibility.py:155-158 | finding more patterns never lowers the count |
| Analyzer.ShimsSurviveAdditions | analyze_django45_compatibility.py:142-158 | adding text around a file never lowers its shim count |
| Analyzer.AllShims | analyze_django45_compatibility.py:191-198 | the shims of the files are at most six per file |
| Analyzer.AllFilesNext | analyze_django45_compatibility.py:191-200 | one more file adds its settings or file issues, and its shims unless it is the settings file |
| Analyzer.AnalyzeAll | analyze_django45_compatibility.py:191-200 | the loop of `main` returns the issues of all files in order and the shim count of the non-settings files |
| Analyzer.OfSeverity | analyze_django45_compatibility.py:207-209 | a bucket is no longer than the issue list |
| Analyzer.GroupBySeverity | analyze_django45_compatibility.py:207-209 | the loop fills each bucket with the issues of its severity, in order |
| Analyzer.BucketStep | analyze_django45_compatibility.py:209 | appending an issue to its bucket adds it once to the union of the buckets |
| Analyzer.BucketsPartition | analyze_django45_compatibility.py:207-209 | the buckets together hold exactly the issues, each as often as reported |
| Analyzer.BucketSizes | analyze_django45_compatibility.py:207-209 | the bucket sizes sum to the number of issues |
| Analyzer.OfSeverityMember | analyze_django45_compatibility.py:209 | an issue is in a bucket iff it is an issue of that severity |
| Analyzer.ExitCodeSpec | analyze_django45_compatibility.py:269 | the exit code is 0 or 1, and 1 exactly when some issue is an error |
| Analyzer.Assess | analyze_django45_compatibility.py:191-269 | `main` returns 1 exactly when some issue of some file is an error, else 0 |
| Fields.SplitExtSpec | filebrowser/fields.py:81 | `splitext`: root and extension give the path back; the extension is empty or a dot followed by neither dot nor slash; it is non-empty iff the last component has a dot after some other character |
| Fields.SplitExtLower | filebrowser/fields.py:81 | `splitext` of a lower-cased path is the lower-cased root and extension |
| Fields.ExtensionOfLower | filebrowser/fields.py:81 | the lower-cased extension of a lower-cased path equals that of the path |
| Fields.LeadingDotsNoExtension | filebrowser/fields.py:81 | a final component made of leading dots and a dot-free name has no extension (`.bashrc`) |
| Fields.ChosenExtensionsSpec | filebrowser/fields.py:70-74 | with a non-empty format and no non-empty list, the extensions are the `EXTENSIONS` entry for the format or `None`; otherwise the given list |
| Fields.FileBrowseFormField.constructor | filebrowser/fields.py:66-75 | `__init__` stores the directory, the chosen extensions, and the format only when it is non-empty; the lengths end as `None` because `CharField.__init__` is called without them and resets them |
| Fields.FileBrowseFormField.Clean | filebrowser/fields.py:77-84 | an accepted value is the base-cleaned value, unaltered |
| Fields.CleanSpec | filebrowser/fields.py:77-84 | `''` and any value under an absent or empty list pass; otherwise the value is rejected iff its lower-cased extension is not listed, with the message naming it and the `, `-joined list |
| Fields.CleanIgnoresCase | filebrowser/fields.py:81-83 | two values equal once lower-cased are accepted or rejected together, and a rejection carries the same message |
| Fields.CleanRejectsMissingExtension | filebrowser/fields.py:81-83 | a name without extension, or a hidden file such as `.jpg`, is rejected by a non-empty list without `''` |
| Fields.FileBrowseField.constructor | filebrowser/fields.py:88-92 | missing keyword arguments become empty |
| Fields.FileBrowseField.ToPython | filebrowser/fields.py:94-97 | `None`, `''` and file objects are returned unchanged; no non-empty string comes out |
| Fields.FileBrowseField.GetDbPrepValue | filebrowser/fields.py:99-102 | `None` stays `None`, anything else is stored; a string is stored as it is |
| Fields.ToPythonIdempotent | filebrowser/fields.py:94-97 | converting twice is converting once |
| Fields.StoredStringRoundTrip | filebrowser/fields.py:94-102 | a stored non-empty string comes back as the string form of the file object at its path |
| CodeQuality.CheckCodeQuality | test_django45_compatibility.py:177-204 | the loop over files counts `TotalCount` issues and passes iff the count is 0 |
| CodeQuality.CountFile | test_django45_compatibility.py:187-194 | the loops over names and lines of one file count `FileCount` issues |
| CodeQuality.CountLines | test_django45_compatibility.py:191-194 | the loop over the lines counts the flagged lines |
| CodeQuality.FileCountNext | test_django45_compatibility.py:187-194 | one more name adds that name's flagged lines |
| CodeQuality.LineHitsMembers | test_django45_compatibility.py:191-192 | line `n` is a hit iff it is one of the lines and it is flagged |
| CodeQuality.LineHitsIncreasing | test_django45_compatibility.py:191 | hits are strictly increasing, so no line counts twice for one name |
| CodeQuality.PatternHitsSpec | test_django45_compatibility.py:188-192 | line `n` (1-based) is flagged for a name iff the file has no `except ImportError`, and the line holds the name and neither `except` nor `try:` |
| CodeQuality.GuardedFileAddsNothing | test_django45_compatibility.py:188 | a file containing `except ImportError` anywhere adds nothing |
| CodeQuality.AbsentPatternFlagsNothing | test_django45_compatibility.py:188 | a name absent from the file flags nothing |
| CodeQuality.FileCountBound | test_django45_compatibility.py:187-194 | a file adds at most one per (name, line) pair |
| CodeQuality.LineHitsLength | test_django45_compatibility.py:191-194 | there are no more hits than lines |
| CodeQuality.SkippedFileAddsNothing | test_django45_compatibility.py:181-197 | a file not named `.py` or not readable adds nothing |
| CodeQuality.NoIssuesSpec | test_django45_compatibility.py:177-204 | the count is zero iff no name flags any line of any readable Python file |
| CodeQuality.FileCountZero | test_django45_compatibility.py:187-194 | a file adds nothing iff no name flags any of its lines |
| CodeQuality.PatternsCaught | test_django45_compatibility.py:170-192 | an unguarded `ugettext_lazy` line is counted under `ugettext`, a `MIDDLEWARE_CLASSES` line under that name |

## Left out

- File I/O and `os.walk`/`os.path.exists`/`os.path.relpath`: files are given as a list of paths with their text or the reason reading failed. The analyser's `main` walk and its settings-file lookup are therefore the given list; files that the walk finds are not modelled.
- All printing and report formatting in the analyser's `main` and in `check_code_quality`: output only.
- `urlquote` is a function parameter; the model does not define percent-encoding. `QueryStringPairs` requires only that quoting never produces `&`.
- The general regular-expression engine: the seven patterns of the analyser's table are literals. Three carry the lookahead `(?!.*except ImportError)`, modelled exactly. The shim patterns are modelled as `head\s*tail` or `head.*tail` with `.` matching newlines.
- `lower()` maps only `A`-`Z`; Unicode case mapping is not modelled. Whitespace (`str.isspace()`, `strip()`, `split()`) follows Python's full set of whitespace characters.
- Django's `CharField.clean` is outside the model: `Clean` receives its outcome (the cleaned value or its error). The `EXTENSIONS` and `SELECT_FORMATS` settings are maps passed in. `url_to_path` and `str()` of a file object (`smart_str`) are function parameters.
- `FileBrowseField`'s `extensions` defaults to `''` in Python and to the empty list here; both are false and nothing else reads them in the model.
- `FileBrowseWidget` (`__init__`, `render`), `FileBrowseField.formfield`, `get_manipulator_field_objs`, `get_internal_type` and the South introspection block: template rendering and Django glue.
- The `query_string` inclusion tag performs the same steps as `query_helper` on `context['query']`; `QueryHelper` models both.
- `template.Variable.resolve` raising `VariableDoesNotExist` is modelled as a missing context variable resolving to `''`.
- `custom_admin_media_prefix`, `filebrowser/forms.py`, the test-client suites, `manual_testing_guide.py` and the rest of `test_django45_compatibility.py`: not part of this model.
- The suppression window of the analyser: the code slices `lines[max(0, n-5):min(len(lines), n+3)]` for 1-based line `n`. That is four lines before the match and three after. The model follows the code.
- SettingsIssues: follows the middleware test as written, so `AllIssues`, `AnalyzeAll` and `Assess` never report `middleware_setting`; the corrected test is used only by `IntendedSettingsIssues`, which `main` does not call.
- CompileSelectable: splits the tag on whitespace; Django's `split_contents` keeps a quoted argument that contains spaces as one bit, so such a tag is counted differently here.
- FileBrowseFormField.constructor: the rest of `CharField.__init__` (widget, validators, `required`, `label`) is Django's and is not modelled; only its resetting of the lengths is.

## Findings

| source | as written | input that shows it | evidently intended | confidence | as-written member | corrected member |
|---|---|---|---|---|---|---|
| analyze_django45_compatibility.py:104 | `'MIDDLEWARE_CLASSES' in content and 'MIDDLEWARE' not in content` | any settings text containing `MIDDLEWARE_CLASSES = (...)`: it also contains `MIDDLEWARE`, so the warning never fires | warn when the old `MIDDLEWARE_CLASSES` setting is used and no `MIDDLEWARE` occurrence other than the start of `MIDDLEWARE_CLASSES` exists | high; not executed | Analyzer.MiddlewareNeverRaised | Analyzer.IntendedSettingsRaised |
