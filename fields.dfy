/**
  * The file-browse model and form fields: the form field chooses the list
  * of allowed extensions when it is built and checks the extension of a
  * cleaned value against it; the model field turns stored strings into
  * file objects and back.
  *
  * Django's own `CharField.clean`, the `EXTENSIONS` setting, `url_to_path`
  * and the string form of a file object are outside this model: they are
  * passed in as parameters.
  */
module Fields {
  import opened Wrappers
  import opened Text

  // ---------------------------------------------------------------------------
  // os.path.splitext

  /** Some character of `p[a..b]` is not a dot. */
  predicate HasNonDot(p: string, a: int, b: int)
    requires 0 <= a <= b <= |p|
  {
    exists j :: a <= j < b && p[j] != '.'
  }

  /** Python's `posixpath.splitext`: the extension starts at the last dot of
      the final path component, unless everything before that dot in the
      component is a dot (a leading dot names a hidden file, not an
      extension). */
  function SplitExt(p: string): (string, string) {
    var sep := LastIndex(p, '/');
    var dot := LastIndex(p, '.');
    if dot > sep && HasNonDot(p, sep + 1, dot) then (p[..dot], p[dot..]) else (p, "")
  }

  /** `p[j]` is a character other than a dot in the final component of `p`,
      and `p[k]` a dot after it. */
  predicate DotAfterName(p: string, j: int, k: int) {
    && 0 <= j < k < |p| && p[j] != '.' && p[k] == '.'
    && forall m :: j <= m < |p| ==> p[m] != '/'
  }

  /** The two parts put back together give the path; the extension is empty
      or a dot followed by neither dot nor slash; and it is non-empty exactly
      when the final component has a dot after some other character. */
  lemma SplitExtSpec(p: string)
    ensures SplitExt(p).0 + SplitExt(p).1 == p
    ensures var ext := SplitExt(p).1;
      ext == "" || (ext[0] == '.' && forall i :: 1 <= i < |ext| ==> ext[i] != '.' && ext[i] != '/')
    ensures SplitExt(p).1 != "" <==> exists j, k :: DotAfterName(p, j, k)
  {
    var sep := LastIndex(p, '/');
    var dot := LastIndex(p, '.');
    if SplitExt(p).1 != "" {
      var j :| sep + 1 <= j < dot && p[j] != '.';
      assert DotAfterName(p, j, dot);
      var ext := p[dot..];
      forall i | 1 <= i < |ext| ensures ext[i] != '.' && ext[i] != '/' {
        assert ext[i] == p[dot + i];
      }
    }
    if exists j, k :: DotAfterName(p, j, k) {
      var j, k :| DotAfterName(p, j, k);
      assert sep < j;
      assert k <= dot;
      assert HasNonDot(p, sep + 1, dot);
    }
  }

  /** A final component made of leading dots and a name without dots has no
      extension: `splitext('.bashrc')` is `('.bashrc', '')`. */
  lemma LeadingDotsNoExtension(dir: string, dots: string, name: string)
    requires forall i :: 0 <= i < |dots| ==> dots[i] == '.'
    requires '.' !in name && '/' !in name && '/' !in dots
    ensures SplitExt(dir + "/" + dots + name) == (dir + "/" + dots + name, "")
  {
    var p := dir + "/" + dots + name;
    var d := |dir| + 1;
    SplitExtSpec(p);
    assert p[d - 1] == '/';
    forall j | d <= j < d + |dots| ensures p[j] == '.' {
      assert p[j] == dots[j - d];
    }
    forall k | d + |dots| <= k < |p| ensures p[k] != '.' {
      assert p[k] == name[k - d - |dots|];
    }
  }

  /** `splitext` and `lower()` commute: neither `/` nor `.` is a letter, so
      lower-casing moves no split point. */
  lemma SplitExtLower(p: string)
    ensures SplitExt(Lower(p)) == (Lower(SplitExt(p).0), Lower(SplitExt(p).1))
  {
    var q := Lower(p);
    LastIndexLower(p, '/');
    LastIndexLower(p, '.');
    var sep, dot := LastIndex(p, '/'), LastIndex(p, '.');
    if dot > sep {
      assert forall j :: sep + 1 <= j < dot ==> (q[j] != '.' <==> p[j] != '.');
      assert HasNonDot(q, sep + 1, dot) <==> HasNonDot(p, sep + 1, dot);
      LowerSlice(p, 0, dot);
      LowerSlice(p, dot, |p|);
      assert p[0..dot] == p[..dot] && p[dot..|p|] == p[dot..];
      assert q[0..dot] == q[..dot] && q[dot..|q|] == q[dot..];
    }
  }

  /** The extension `clean` checks depends only on the lower-cased value. */
  lemma ExtensionOfLower(v: string)
    ensures Extension(Lower(v)) == Extension(v)
  {
    SplitExtLower(v);
    LowerIdempotent(SplitExt(v).1);
  }

  // ---------------------------------------------------------------------------
  // FileBrowseFormField

  /** Python's truth value of an optional list: neither `None` nor empty. */
  predicate NonEmpty(l: Option<seq<string>>) {
    l.Some? && l.value != []
  }

  /** Python's truth value of an optional string. */
  predicate Given(s: Option<string>) {
    s.Some? && s.value != ""
  }

  /** The allowed extensions `__init__` settles on: with a format, the given
      list if it is non-empty and otherwise the `EXTENSIONS` entry for the
      format (`None` when there is none); without a format, the given list. */
  function ChosenExtensions(extensions: Option<seq<string>>, format: Option<string>,
                            table: map<string, seq<string>>): Option<seq<string>> {
    if Given(format) then
      if NonEmpty(extensions) then extensions
      else if format.value in table then Some(table[format.value]) else None
    else extensions
  }

  /** The chosen list is the given one unless a format is given and the list
      is empty or absent; then it is the table's list for the format, if the
      table has one. */
  lemma ChosenExtensionsSpec(extensions: Option<seq<string>>, format: Option<string>,
                             table: map<string, seq<string>>)
    ensures var r := ChosenExtensions(extensions, format, table);
      && (NonEmpty(extensions) ==> r == extensions)
      && (!Given(format) ==> r == extensions)
      && (Given(format) && !NonEmpty(extensions) ==>
            (r.Some? <==> format.value in table) && (r.Some? ==> r.value == table[format.value]))
      && (r == extensions || (Given(format) && r == if format.value in table then Some(table[format.value]) else None))
  {
  }

  /** The message of the `extension` validation error. */
  function ExtensionMessage(ext: string, allowed: seq<string>): string {
    "Extension " + ext + " is not allowed. Only " + Join(", ", allowed) + " is allowed."
  }

  /** The extension `clean` checks: the `splitext` suffix, lower-cased. */
  function Extension(value: string): string {
    Lower(SplitExt(value).1)
  }

  class FileBrowseFormField {
    var maxLength: Option<int>
    var minLength: Option<int>
    var directory: Option<string>
    var extensions: Option<seq<string>>
    /** `None` when the attribute was never set: `__init__` sets it only for a
        non-empty format. */
    var format: Option<string>

    /** Python's `__init__`, with the `EXTENSIONS` setting as `table`. The
        lengths it stores are overwritten by `CharField.__init__`, which is
        called without them and so sets both to `None`. */
    constructor(maxLength: Option<int>, minLength: Option<int>, directory: Option<string>,
                extensions: Option<seq<string>>, format: Option<string>, table: map<string, seq<string>>)
      ensures this.maxLength == None && this.minLength == None && this.directory == directory
      ensures this.extensions == ChosenExtensions(extensions, format, table)
      ensures this.format == if Given(format) then format else None
    {
      this.maxLength, this.minLength := maxLength, minLength;
      this.directory := directory;
      this.extensions := extensions;
      this.format := None;
      if Given(format) {
        this.format := format;
        this.extensions := if NonEmpty(extensions) then extensions
                           else if format.value in table then Some(table[format.value]) else None;
      }
      // super().__init__(*args, **kwargs): CharField's own defaults
      this.maxLength, this.minLength := None, None;
    }

    /** Python's `clean`, given what `CharField.clean` made of the input:
        its error passes through, and a cleaned value is checked for its
        extension when there is a list to check it against. */
    function Clean(cleaned: Result<string, string>): (r: Result<string, string>)
      reads this
      ensures r.Ok? ==> r == cleaned
    {
      match cleaned
      case Err(_) => cleaned
      case Ok(value) =>
        if value == "" then cleaned
        else
          var ext := Extension(value);
          if NonEmpty(extensions) && ext !in extensions.value then
            Err(ExtensionMessage(ext, extensions.value))
          else cleaned
    }
  }

  /** `clean` on a value `CharField.clean` accepted: the empty value and any
      value under an absent or empty list pass; otherwise the value is
      rejected exactly when its lower-cased extension is not listed, with a
      message naming that extension and the listed ones joined by `, `. */
  lemma CleanSpec(f: FileBrowseFormField, value: string)
    ensures value == "" ==> f.Clean(Ok(value)) == Ok(value)
    ensures !NonEmpty(f.extensions) ==> f.Clean(Ok(value)) == Ok(value)
    ensures NonEmpty(f.extensions) && value != "" ==>
      (f.Clean(Ok(value)).Err? <==> Extension(value) !in f.extensions.value)
    ensures f.Clean(Ok(value)).Err? ==>
      f.Clean(Ok(value)).error == ExtensionMessage(Extension(value), f.extensions.value)
  {
  }

  /** The check ignores case: two values that agree once lower-cased are
      accepted together, or rejected with the same message. */
  lemma CleanIgnoresCase(f: FileBrowseFormField, a: string, b: string)
    requires Lower(a) == Lower(b)
    ensures f.Clean(Ok(a)).Ok? <==> f.Clean(Ok(b)).Ok?
    ensures f.Clean(Ok(a)).Err? ==> f.Clean(Ok(b)) == f.Clean(Ok(a))
  {
    ExtensionOfLower(a);
    ExtensionOfLower(b);
  }

  /** A file name without an extension is rejected by any non-empty list
      that does not hold the empty string, and so is a hidden file such as
      `.jpg`, even when `.jpg` is listed. */
  lemma CleanRejectsMissingExtension(f: FileBrowseFormField, dir: string, dots: string, name: string)
    requires forall i :: 0 <= i < |dots| ==> dots[i] == '.'
    requires '.' !in name && '/' !in name && '/' !in dots
    requires NonEmpty(f.extensions) && "" !in f.extensions.value
    ensures f.Clean(Ok(dir + "/" + dots + name)).Err?
  {
    LeadingDotsNoExtension(dir, dots, name);
    assert Extension(dir + "/" + dots + name) == "";
  }

  // ---------------------------------------------------------------------------
  // FileBrowseField

  /** A value held by the model field: `None`, a string, or a file object
      for a path. */
  datatype FieldValue = Null | Text(s: string) | FileObject(path: string)

  class FileBrowseField {
    var directory: string
    /** The `''` default of the keyword argument is the empty list here:
        both are false in Python. */
    var extensions: seq<string>
    var format: string

    /** Python's `__init__`: each keyword argument that is not given becomes
        the empty string. */
    constructor(directory: Option<string>, extensions: Option<seq<string>>, format: Option<string>)
      ensures this.directory == directory.GetOr("")
      ensures this.extensions == extensions.GetOr([])
      ensures this.format == format.GetOr("")
    {
      this.directory := directory.GetOr("");
      this.extensions := extensions.GetOr([]);
      this.format := format.GetOr("");
    }

    /** Python's `to_python`, with `url_to_path` as a parameter: a false value
        or a file object is returned as it is; a non-empty string becomes the
        file object of its path. No non-empty string comes out. */
    function ToPython(v: FieldValue, urlToPath: string -> string): (r: FieldValue)
      ensures r.Text? ==> r.s == ""
      ensures v.Null? || v.FileObject? || v == Text("") ==> r == v
    {
      match v
      case Text(s) => if s == "" then v else FileObject(urlToPath(s))
      case _ => v
    }

    /** Python's `get_db_prep_value`, with the string form of a file object
        as `fileText`: `None` stays `None`, a string is stored as it is. */
    function GetDbPrepValue(v: FieldValue, fileText: string -> string): (r: Option<string>)
      ensures r.None? <==> v.Null?
      ensures v.Text? ==> r == Some(v.s)
    {
      match v
      case Null => None
      case Text(s) => Some(s)
      case FileObject(path) => Some(fileText(path))
    }
  }

  /** Converting twice is converting once. */
  lemma ToPythonIdempotent(f: FileBrowseField, v: FieldValue, urlToPath: string -> string)
    ensures f.ToPython(f.ToPython(v, urlToPath), urlToPath) == f.ToPython(v, urlToPath)
  {
    var r := f.ToPython(v, urlToPath);
    assert r.Text? ==> r.s == "";
  }

  /** A stored non-empty string comes back from the database as the string
      form of the file object at its path. */
  lemma StoredStringRoundTrip(f: FileBrowseField, s: string, urlToPath: string -> string, fileText: string -> string)
    requires s != ""
    ensures f.GetDbPrepValue(f.ToPython(Text(s), urlToPath), fileText) == Some(fileText(urlToPath(s)))
  {
  }
}
