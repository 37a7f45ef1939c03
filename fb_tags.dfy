/**
  * The query-string template tags and the `selectable` tag of the file
  * browser: parsing `"k=v, k=v"` and `"k, k"` arguments, editing a copy of
  * the request's query parameters and serialising them as `?k=v&k=v`, and
  * deciding whether a file may be selected for a given format.
  */
module FbTags {
  import opened Wrappers
  import opened Text
  import opened OrderedDict

  /** The exceptions these tags raise. */
  datatype TagError =
    | UnpackError                           // `kw, val = arg.split('=', 1)` on a segment without `=`
    | KeyError                              // `SELECT_FORMATS[format]` for a format it does not list
    | TemplateSyntaxError(message: string)  // the `selectable` tag with the wrong number of arguments
    | IndexError                            // the same, when the tag has no words at all

  // ---------------------------------------------------------------------------
  // string_to_dict and string_to_list

  /** The segments the parsers walk: `string.split(',')`, after a `','` has
      been appended to a string that has none. */
  function Segments(s: string): seq<string> {
    Split(if ',' in s then s else s + ",", ',')
  }

  /** `kw, val = arg.split('=', 1)`: the text before the first `=` and the
      text after it, or `None` where the unpacking raises. */
  function SplitAssignment(arg: string): (r: Option<(string, string)>)
    ensures r.None? <==> '=' !in arg
    ensures r.Some? ==> arg == r.value.0 + "=" + r.value.1 && '=' !in r.value.0
  {
    if '=' in arg then
      var i := FirstIndex(arg, '=');
      assert arg == arg[..i] + "=" + arg[i + 1..];
      Some((arg[..i], arg[i + 1..]))
    else None
  }

  /** The value after the first `=` may itself contain `=`. */
  lemma SplitAssignmentFirst(k: string, v: string)
    requires '=' !in k
    ensures SplitAssignment(k + "=" + v) == Some((k, v))
  {
    var arg := k + "=" + v;
    assert arg[|k|] == '=' && arg[..|k|] == k;
    var i := FirstIndex(arg, '=');
    assert arg[..i] == k && arg[i + 1..] == v;
  }

  /** What `string_to_dict` makes of one segment once it is stripped. */
  datatype Segment = Blank | Bad | Pair(key: string, value: string)

  /** A blank segment is skipped, a non-blank one without `=` raises, any
      other is split at its first `=`. */
  function Classify(seg: string): Segment {
    var arg := Strip(seg);
    if arg == [] then Blank
    else match SplitAssignment(arg)
      case None => Bad
      case Some((k, v)) => Pair(k, v)
  }

  /** A segment is blank exactly when it strips to nothing, malformed exactly
      when it strips to a non-empty text without `=`, and otherwise a pair
      whose key and value surround the first `=` of the stripped text. */
  lemma ClassifySpec(seg: string)
    ensures Classify(seg) == Blank <==> Strip(seg) == []
    ensures Classify(seg) == Bad <==> Strip(seg) != [] && '=' !in Strip(seg)
    ensures Classify(seg).Pair? ==>
      Strip(seg) == Classify(seg).key + "=" + Classify(seg).value && '=' !in Classify(seg).key
  {
  }

  /** The segments as `string_to_dict` sees them, in order. */
  function Classified(segs: seq<string>): (cs: seq<Segment>)
    ensures |cs| == |segs|
  {
    if segs == [] then [] else Classified(segs[..|segs| - 1]) + [Classify(segs[|segs| - 1])]
  }

  /** One iteration of `string_to_dict`'s loop. */
  function Step(d: Entries<string, string>, c: Segment): Result<Entries<string, string>, TagError> {
    match c
    case Blank => Ok(d)
    case Bad => Err(UnpackError)
    case Pair(k, v) => Ok(Assign(d, k, v))
  }

  /** The dictionary the loop builds from classified segments, or the error
      of the first malformed one. */
  function Build(cs: seq<Segment>): Result<Entries<string, string>, TagError> {
    if cs == [] then Ok([])
    else
      var before := Build(cs[..|cs| - 1]);
      if before.Err? then before else Step(before.value, cs[|cs| - 1])
  }

  /** The dictionary `string_to_dict` builds from a list of segments. */
  function DictOf(segs: seq<string>): Result<Entries<string, string>, TagError> {
    Build(Classified(segs))
  }

  /** `string_to_dict(string)`: an empty or missing string gives `{}`. */
  function ParseDict(s: Option<string>): Result<Entries<string, string>, TagError> {
    if s.None? || s.value == [] then Ok([]) else DictOf(Segments(s.value))
  }

  /** The list `string_to_list` builds from a list of segments. */
  function ListOf(segs: seq<string>): seq<string> {
    if segs == [] then []
    else
      var init := ListOf(segs[..|segs| - 1]);
      var arg := Strip(segs[|segs| - 1]);
      if arg == [] then init else init + [arg]
  }

  /** `string_to_list(string)`: an empty or missing string gives `[]`. */
  function ParseList(s: Option<string>): seq<string> {
    if s.None? || s.value == [] then [] else ListOf(Segments(s.value))
  }

  /** Python's `string_to_dict`, which loops over the segments. */
  method StringToDict(s: Option<string>) returns (r: Result<Entries<string, string>, TagError>)
    ensures r == ParseDict(s)
  {
    var kwargs: Entries<string, string> := [];
    if s.None? || s.value == [] {
      return Ok(kwargs);
    }
    var str := s.value;
    if ',' !in str {
      str := str + ",";
    }
    var segs := Split(str, ',');
    var i := 0;
    while i < |segs|
      invariant 0 <= i <= |segs|
      invariant DictOf(segs[..i]) == Ok(kwargs)
    {
      var arg := Strip(segs[i]);
      DictOfStep(segs, i, kwargs);
      if arg != [] {
        if '=' !in arg {
          DictOfErrorPersists(segs, i + 1);
          return Err(UnpackError);
        }
        var kv := SplitAssignment(arg).value;
        kwargs := Assign(kwargs, kv.0, kv.1);
      }
      i := i + 1;
    }
    assert segs[..i] == segs;
    return Ok(kwargs);
  }

  /** Python's `string_to_list`, which loops over the segments. */
  method StringToList(s: Option<string>) returns (args: seq<string>)
    ensures args == ParseList(s)
  {
    args := [];
    if s.None? || s.value == [] {
      return;
    }
    var str := s.value;
    if ',' !in str {
      str := str + ",";
    }
    var segs := Split(str, ',');
    var i := 0;
    while i < |segs|
      invariant 0 <= i <= |segs|
      invariant ListOf(segs[..i]) == args
    {
      var arg := Strip(segs[i]);
      assert segs[..i + 1][..i] == segs[..i];
      if arg != [] {
        args := args + [arg];
      }
      i := i + 1;
    }
    assert segs[..i] == segs;
  }

  /** Each segment is classified on its own. */
  lemma {:induction false} ClassifiedAt(segs: seq<string>)
    ensures forall i :: 0 <= i < |segs| ==> Classified(segs)[i] == Classify(segs[i])
  {
    if segs != [] {
      var init := segs[..|segs| - 1];
      ClassifiedAt(init);
      assert forall i :: 0 <= i < |init| ==> init[i] == segs[i];
    }
  }

  /** Classifying two runs of segments one after the other. */
  lemma {:induction false} ClassifiedAppend(a: seq<string>, b: seq<string>)
    ensures Classified(a + b) == Classified(a) + Classified(b)
  {
    if b != [] {
      ClassifiedAppend(a, b[..|b| - 1]);
      assert (a + b)[..|a + b| - 1] == a + b[..|b| - 1];
    } else {
      assert a + b == a;
    }
  }

  /** One more segment: one more step of the loop, unless it has raised. */
  lemma DictOfNext(segs: seq<string>, i: nat)
    requires i < |segs|
    ensures DictOf(segs[..i + 1]) ==
      if DictOf(segs[..i]).Err? then DictOf(segs[..i]) else Step(DictOf(segs[..i]).value, Classify(segs[i]))
  {
    assert segs[..i + 1][..i] == segs[..i];
    var cs := Classified(segs[..i + 1]);
    assert cs == Classified(segs[..i]) + [Classify(segs[i])];
    assert cs[..i] == Classified(segs[..i]);
  }

  /** The loop body of `string_to_dict` on the stripped segment `arg`. */
  lemma DictOfStep(segs: seq<string>, i: nat, kwargs: Entries<string, string>)
    requires i < |segs| && DictOf(segs[..i]) == Ok(kwargs)
    ensures var arg := Strip(segs[i]);
      DictOf(segs[..i + 1]) ==
        if arg == [] then Ok(kwargs)
        else if '=' !in arg then Err(UnpackError)
        else Ok(Assign(kwargs, SplitAssignment(arg).value.0, SplitAssignment(arg).value.1))
  {
    DictOfNext(segs, i);
  }

  /** Once a prefix of the segments fails, the whole list fails the same way. */
  lemma DictOfErrorPersists(segs: seq<string>, i: nat)
    requires i <= |segs| && DictOf(segs[..i]).Err?
    ensures DictOf(segs) == DictOf(segs[..i])
  {
    ClassifiedAppend(segs[..i], segs[i..]);
    BuildErrorPersists(Classified(segs[..i]), Classified(segs[i..]));
    assert segs[..i] + segs[i..] == segs;
  }

  lemma {:induction false} BuildErrorPersists(a: seq<Segment>, b: seq<Segment>)
    requires Build(a).Err?
    ensures Build(a + b) == Build(a)
  {
    if b != [] {
      BuildErrorPersists(a, b[..|b| - 1]);
      assert (a + b)[..|a + b| - 1] == a + b[..|b| - 1];
    } else {
      assert a + b == a;
    }
  }

  /** A blank segment, such as the one the appended `','` produces, is skipped. */
  lemma DictOfBlankLast(segs: seq<string>, blank: string)
    requires Strip(blank) == []
    ensures DictOf(segs + [blank]) == DictOf(segs)
  {
    assert (segs + [blank])[..|segs|] == segs;
    assert Classified(segs + [blank]) == Classified(segs) + [Blank];
    assert (Classified(segs) + [Blank])[..|segs|] == Classified(segs);
  }

  /** The loop raises exactly when a malformed segment occurs. */
  lemma {:induction false} BuildError(cs: seq<Segment>)
    ensures Build(cs).Err? <==> Bad in cs
  {
    if cs != [] {
      var init := cs[..|cs| - 1];
      BuildError(init);
      assert cs == init + [cs[|cs| - 1]];
    }
  }

  /** A segment that the parser turns into an entry `k = v`. */
  predicate Defines(seg: string, k: string, v: string) {
    Classify(seg) == Pair(k, v)
  }

  /** A segment that assigns some value to `k`. */
  predicate DefinesKey(seg: string, k: string) {
    Classify(seg).Pair? && Classify(seg).key == k
  }

  /** A segment on which `string_to_dict` raises. */
  predicate Malformed(seg: string) {
    Classify(seg) == Bad
  }

  /** `string_to_dict` raises exactly when some segment is malformed. */
  lemma DictOfError(segs: seq<string>)
    ensures DictOf(segs).Err? <==> exists i :: 0 <= i < |segs| && Malformed(segs[i])
  {
    var cs := Classified(segs);
    BuildError(cs);
    ClassifiedAt(segs);
    if Bad in cs {
      var i :| 0 <= i < |cs| && cs[i] == Bad;
      assert Malformed(segs[i]);
    }
  }

  /** The value given to `k` by the last pair for `k`: a reference for the
      dictionary, read from right to left. */
  function LastValue(cs: seq<Segment>, k: string): Option<string> {
    if cs == [] then None
    else if cs[|cs| - 1].Pair? && cs[|cs| - 1].key == k then Some(cs[|cs| - 1].value)
    else LastValue(cs[..|cs| - 1], k)
  }

  /** A successful run of the loop has no key twice, and holds for each key
      its last value. */
  lemma {:induction false} BuildLast(cs: seq<Segment>, k: string)
    requires Build(cs).Ok?
    ensures DistinctKeys(Build(cs).value)
    ensures Lookup(Build(cs).value, k) == LastValue(cs, k)
  {
    if cs != [] {
      var init := cs[..|cs| - 1];
      BuildLast(init, k);
      match cs[|cs| - 1]
      case Blank =>
      case Bad =>
      case Pair(k', v') =>
        AssignSpec(Build(init).value, k', v');
    }
  }

  /** `LastValue` comes from a pair for `k` with no later pair for `k`. */
  lemma {:induction false} LastValueSome(cs: seq<Segment>, k: string)
    requires LastValue(cs, k).Some?
    ensures exists i :: 0 <= i < |cs| && cs[i] == Pair(k, LastValue(cs, k).value)
                        && forall j :: i < j < |cs| ==> !(cs[j].Pair? && cs[j].key == k)
  {
    var n := |cs| - 1;
    if !(cs[n].Pair? && cs[n].key == k) {
      var init := cs[..n];
      LastValueSome(init, k);
      var i :| 0 <= i < |init| && init[i] == Pair(k, LastValue(init, k).value)
               && forall j :: i < j < |init| ==> !(init[j].Pair? && init[j].key == k);
      assert cs[i] == init[i];
      forall j | i < j < |cs| ensures !(cs[j].Pair? && cs[j].key == k) {
        if j < n {
          assert cs[j] == init[j];
        }
      }
    }
  }

  /** A pair for `k` with no later pair for `k` gives the last value. */
  lemma {:induction false} LastValueOf(cs: seq<Segment>, k: string, v: string, i: int)
    requires 0 <= i < |cs| && cs[i] == Pair(k, v)
    requires forall j :: i < j < |cs| ==> !(cs[j].Pair? && cs[j].key == k)
    ensures LastValue(cs, k) == Some(v)
  {
    var n := |cs| - 1;
    if i < n {
      var init := cs[..n];
      assert init[i] == cs[i];
      forall j | i < j < |init| ensures !(init[j].Pair? && init[j].key == k) {
        assert init[j] == cs[j];
      }
      LastValueOf(init, k, v, i);
    }
  }

  /** `LastValue` is `v` exactly when some pair sets `k` to `v` and no later
      pair sets `k`. */
  lemma LastValueIff(cs: seq<Segment>, k: string, v: string)
    ensures LastValue(cs, k) == Some(v) <==>
      exists i :: 0 <= i < |cs| && cs[i] == Pair(k, v) && forall j :: i < j < |cs| ==> !(cs[j].Pair? && cs[j].key == k)
  {
    if LastValue(cs, k) == Some(v) {
      LastValueSome(cs, k);
    }
    if exists i :: 0 <= i < |cs| && cs[i] == Pair(k, v) && forall j :: i < j < |cs| ==> !(cs[j].Pair? && cs[j].key == k) {
      var i :| 0 <= i < |cs| && cs[i] == Pair(k, v) && forall j :: i < j < |cs| ==> !(cs[j].Pair? && cs[j].key == k);
      LastValueOf(cs, k, v, i);
    }
  }

  /** What a successful parse contains: no key twice; key `k` holds `v`
      exactly when the last segment that defines `k` defines it as `v`
      (a later duplicate key overwrites an earlier one). */
  lemma DictOfLookup(segs: seq<string>, k: string, v: string)
    requires DictOf(segs).Ok?
    ensures DistinctKeys(DictOf(segs).value)
    ensures Lookup(DictOf(segs).value, k) == Some(v) <==>
      exists i :: 0 <= i < |segs| && Defines(segs[i], k, v)
               && forall j :: i < j < |segs| ==> !DefinesKey(segs[j], k)
  {
    var cs := Classified(segs);
    BuildLast(cs, k);
    LastValueIff(cs, k, v);
    ClassifiedAt(segs);
    assert forall i :: 0 <= i < |segs| ==> (Defines(segs[i], k, v) <==> cs[i] == Pair(k, v));
    assert forall j :: 0 <= j < |segs| ==> (DefinesKey(segs[j], k) <==> cs[j].Pair? && cs[j].key == k);
  }

  /** A dictionary entry that `string_to_dict` can read back from `k=v`. */
  predicate Writable(k: string, v: string) {
    && '=' !in k && ',' !in k && ',' !in v
    && !IsSpace((k + "=" + v)[0]) && !IsSpace((k + "=" + v)[|k + "=" + v| - 1])
  }

  /** The `k=v` segments of a dictionary. */
  function Assignments(e: Entries<string, string>): (segs: seq<string>)
    ensures |segs| == |e|
  {
    seq(|e|, i requires 0 <= i < |e| => e[i].0 + "=" + e[i].1)
  }

  lemma {:induction false} DictOfAssignments(e: Entries<string, string>)
    requires DistinctKeys(e)
    requires forall i :: 0 <= i < |e| ==> Writable(e[i].0, e[i].1)
    ensures DictOf(Assignments(e)) == Ok(e)
  {
    if e != [] {
      var init := e[..|e| - 1];
      var x := e[|e| - 1];
      assert e == init + [x];
      AppendEntry(init, x);
      DictOfAssignments(init);
      assert Assignments(e)[..|e| - 1] == Assignments(init);
      var seg := x.0 + "=" + x.1;
      StripUnchanged(seg);
      SplitAssignmentFirst(x.0, x.1);
      AssignNew(init, x.0, x.1);
    }
  }

  /** A text without `,` is one segment, followed by the empty segment that
      the appended `','` produces. */
  lemma SegmentsOfOne(x: string)
    requires ',' !in x
    ensures Segments(x) == [x, []]
  {
    SplitTrailingSeparator(x, ',');
    SplitWithoutSeparator(x, ',');
  }

  /** Two or more parts without `,`, joined by `,`, give back the parts. */
  lemma SegmentsOfJoin(xs: seq<string>)
    requires |xs| > 1
    requires forall i :: 0 <= i < |xs| ==> ',' !in xs[i]
    ensures ',' in Join(",", xs) && Segments(Join(",", xs)) == xs
  {
    SplitJoin(xs, ',');
    assert ',' in Join(",", xs) by {
      if ',' !in Join(",", xs) {
        SplitWithoutSeparator(Join(",", xs), ',');
      }
    }
  }

  /** Round trip: a dictionary whose keys and values hold no `,`, whose keys
      hold no `=` and whose `k=v` texts have no surrounding whitespace is
      parsed back from its comma-joined `k=v` text, in the same order. */
  lemma ParseDictJoin(e: Entries<string, string>)
    requires DistinctKeys(e)
    requires forall i :: 0 <= i < |e| ==> Writable(e[i].0, e[i].1)
    ensures ParseDict(Some(Join(",", Assignments(e)))) == Ok(e)
  {
    DictOfAssignments(e);
    var segs := Assignments(e);
    if |e| == 1 {
      ParseOneSegment(segs);
    } else if |e| > 1 {
      forall i | 0 <= i < |segs| ensures ',' !in segs[i] {
        assert segs[i] == e[i].0 + "=" + e[i].1;
      }
      SegmentsOfJoin(segs);
    }
  }

  /** A single non-empty segment without `,` parses as that segment alone. */
  lemma ParseOneSegment(segs: seq<string>)
    requires |segs| == 1 && segs[0] != [] && ',' !in segs[0]
    ensures ParseDict(Some(Join(",", segs))) == DictOf(segs)
  {
    assert Join(",", segs) == segs[0];
    SegmentsOfOne(segs[0]);
    assert [segs[0], []] == segs + [[]];
    DictOfBlankLast(segs, []);
  }

  /** The items `string_to_list` can read back: non-blank, without `,` and
      without surrounding whitespace. */
  predicate ListItem(x: string) {
    x != [] && ',' !in x && !IsSpace(x[0]) && !IsSpace(x[|x| - 1])
  }

  lemma {:induction false} ListOfItems(xs: seq<string>)
    requires forall i :: 0 <= i < |xs| ==> ListItem(xs[i])
    ensures ListOf(xs) == xs
  {
    if xs != [] {
      ListOfItems(xs[..|xs| - 1]);
      StripUnchanged(xs[|xs| - 1]);
    }
  }

  /** A single item is read back through the blank segment after it. */
  lemma ListOfOne(x: string)
    requires ListItem(x)
    ensures ListOf(Segments(x)) == [x]
  {
    SegmentsOfOne(x);
    StripUnchanged(x);
    assert [x][..0] == [];
    assert ListOf([x]) == [x];
    assert [x, []][..1] == [x];
    assert Strip([]) == [];
  }

  /** Round trip: `string_to_list` of the comma-joined items gives the items,
      in order. */
  lemma {:induction false} ParseListJoin(xs: seq<string>)
    requires forall i :: 0 <= i < |xs| ==> ListItem(xs[i])
    ensures ParseList(Some(Join(",", xs))) == xs
  {
    if |xs| == 1 {
      assert Join(",", xs) == xs[0] != [];
      ListOfOne(xs[0]);
    } else if |xs| > 1 {
      ListOfItems(xs);
      SegmentsOfJoin(xs);
    }
  }

  // ---------------------------------------------------------------------------
  // get_query_string and query_helper

  /** A dictionary of query parameters that is edited in place. */
  class ParamDict {
    var entries: Entries<string, string>

    ghost predicate Valid()
      reads this
    {
      DistinctKeys(entries)
    }

    constructor (e: Entries<string, string>)
      requires DistinctKeys(e)
      ensures Valid() && entries == e
    {
      entries := e;
    }

    /** `k in p` */
    function Has(k: string): bool
      reads this
    {
      HasKey(entries, k)
    }

    /** `del p[k]` */
    method Delete(k: string)
      requires Valid() && Has(k)
      modifies this
      ensures Valid() && entries == Remove(old(entries), k)
    {
      RemoveSpec(entries, k);
      entries := Remove(entries, k);
    }

    /** `p[k] = v` */
    method Put(k: string, v: string)
      requires Valid()
      modifies this
      ensures Valid() && entries == Assign(old(entries), k, v)
    {
      AssignSpec(entries, k, v);
      entries := Assign(entries, k, v);
    }

    /** `p.copy()` */
    method Copy() returns (c: ParamDict)
      requires Valid()
      ensures fresh(c) && c.Valid() && c.entries == entries
    {
      c := new ParamDict(entries);
    }
  }

  /** The parameters after `for r in remove: if r in p: del p[r]`. */
  function RemoveAll(e: Entries<string, string>, rs: seq<string>): Entries<string, string> {
    if rs == [] then e
    else
      var before := RemoveAll(e, rs[..|rs| - 1]);
      var r := rs[|rs| - 1];
      if HasKey(before, r) then Remove(before, r) else before
  }

  /** The parameters after the loop over `new_params.items()`: a `None`
      value deletes a present key, any other value is assigned. */
  function ApplyAll(e: Entries<string, string>, ns: Entries<string, Option<string>>): Entries<string, string> {
    if ns == [] then e
    else
      var (k, v) := ns[|ns| - 1];
      ApplyOne(ApplyAll(e, ns[..|ns| - 1]), k, v)
  }

  /** One pass of that loop. */
  function ApplyOne(e: Entries<string, string>, k: string, v: Option<string>): Entries<string, string> {
    if HasKey(e, k) && v.None? then Remove(e, k)
    else if v.Some? then Assign(e, k, v.value)
    else e
  }

  /** The parameters `get_query_string` leaves in `p`. */
  function Updated(e: Entries<string, string>, newParams: Option<Entries<string, Option<string>>>,
                   remove: Option<seq<string>>): Entries<string, string> {
    ApplyAll(RemoveAll(e, remove.GetOr([])), newParams.GetOr([]))
  }

  /** The `k=v` pairs of the query string, keys and values passed through `quote`. */
  function Pairs(e: Entries<string, string>, quote: string -> string): (ps: seq<string>)
    ensures |ps| == |e|
  {
    seq(|e|, i requires 0 <= i < |e| => quote(e[i].0) + "=" + quote(e[i].1))
  }

  /** `'?' + '&'.join(...)` over the items of `p`. */
  function QueryString(e: Entries<string, string>, quote: string -> string): string {
    "?" + Join("&", Pairs(e, quote))
  }

  /** Python's `get_query_string(p, new_params, remove)`, with `urlquote`
      as the parameter `quote`. */
  method GetQueryString(p: ParamDict, newParams: Option<Entries<string, Option<string>>>,
                        remove: Option<seq<string>>, quote: string -> string) returns (s: string)
    requires p.Valid()
    modifies p
    ensures p.Valid() && p.entries == Updated(old(p.entries), newParams, remove)
    ensures s == QueryString(p.entries, quote)
  {
    var ns := newParams.GetOr([]);
    var rs := remove.GetOr([]);
    ghost var start := p.entries;
    var i := 0;
    while i < |rs|
      invariant 0 <= i <= |rs|
      invariant p.Valid() && p.entries == RemoveAll(start, rs[..i])
    {
      RemoveAllNext(start, rs, i);
      if p.Has(rs[i]) {
        p.Delete(rs[i]);
      }
      i := i + 1;
    }
    assert rs[..i] == rs;
    ghost var removed := p.entries;
    var j := 0;
    while j < |ns|
      invariant 0 <= j <= |ns|
      invariant p.Valid() && p.entries == ApplyAll(removed, ns[..j])
    {
      ApplyAllNext(removed, ns, j);
      var (k, v) := ns[j];
      if p.Has(k) && v.None? {
        p.Delete(k);
      } else if v.Some? {
        p.Put(k, v.value);
      }
      j := j + 1;
    }
    assert ns[..j] == ns;
    s := "?" + Join("&", Pairs(p.entries, quote));
  }

  /** One more removed key: one more pass of the first loop. */
  lemma RemoveAllNext(e: Entries<string, string>, rs: seq<string>, i: nat)
    requires i < |rs|
    ensures RemoveAll(e, rs[..i + 1]) ==
      var before := RemoveAll(e, rs[..i]);
      if HasKey(before, rs[i]) then Remove(before, rs[i]) else before
  {
    assert rs[..i + 1][..i] == rs[..i];
  }

  /** One more new parameter: one more pass of the second loop. */
  lemma ApplyAllNext(e: Entries<string, string>, ns: Entries<string, Option<string>>, j: nat)
    requires j < |ns|
    ensures ApplyAll(e, ns[..j + 1]) == ApplyOne(ApplyAll(e, ns[..j]), ns[j].0, ns[j].1)
  {
    assert ns[..j + 1][..j] == ns[..j];
  }

  /** Removing keys: each removed key is absent, the others keep their values. */
  lemma {:induction false} RemoveAllSpec(e: Entries<string, string>, rs: seq<string>)
    requires DistinctKeys(e)
    ensures DistinctKeys(RemoveAll(e, rs))
    ensures forall k :: Lookup(RemoveAll(e, rs), k) == if k in rs then None else Lookup(e, k)
  {
    if rs != [] {
      var init := rs[..|rs| - 1];
      RemoveAllSpec(e, init);
      var before := RemoveAll(e, init);
      var r := rs[|rs| - 1];
      assert forall k :: k in rs <==> k in init || k == r;
      if HasKey(before, r) {
        RemoveSpec(before, r);
      }
    }
  }

  /** One pass gives the key its new value, or takes it out for `None`, and
      leaves the other keys as they were. */
  lemma ApplyOneSpec(e: Entries<string, string>, k: string, v: Option<string>)
    requires DistinctKeys(e)
    ensures DistinctKeys(ApplyOne(e, k, v))
    ensures forall j :: Lookup(ApplyOne(e, k, v), j) == if j == k then v else Lookup(e, j)
  {
    if HasKey(e, k) && v.None? {
      RemoveSpec(e, k);
    } else if v.Some? {
      AssignSpec(e, k, v.value);
    }
  }

  /** Applying the new parameters: a key of `ns` with a value holds it, a key
      of `ns` with `None` is absent, every other key keeps its value. */
  lemma {:induction false} ApplyAllSpec(e: Entries<string, string>, ns: Entries<string, Option<string>>)
    requires DistinctKeys(e) && DistinctKeys(ns)
    ensures DistinctKeys(ApplyAll(e, ns))
    ensures forall k :: Lookup(ApplyAll(e, ns), k) == if HasKey(ns, k) then Lookup(ns, k).value else Lookup(e, k)
  {
    if ns != [] {
      var init := ns[..|ns| - 1];
      var x := ns[|ns| - 1];
      assert ns == init + [x];
      AppendEntry(init, x);
      ApplyAllSpec(e, init);
      ApplyOneSpec(ApplyAll(e, init), x.0, x.1);
    }
  }

  /** What `get_query_string` leaves in `p`: a key given a value in
      `new_params` holds it; a key given `None` is absent; a removed key that
      `new_params` does not mention is absent; every other key keeps its
      value; and no key appears twice. */
  lemma UpdatedSpec(e: Entries<string, string>, newParams: Option<Entries<string, Option<string>>>,
                    remove: Option<seq<string>>, k: string)
    requires DistinctKeys(e)
    requires newParams.Some? ==> DistinctKeys(newParams.value)
    ensures DistinctKeys(Updated(e, newParams, remove))
    ensures Lookup(Updated(e, newParams, remove), k) ==
      if newParams.Some? && HasKey(newParams.value, k) then Lookup(newParams.value, k).value
      else if remove.Some? && k in remove.value then None
      else Lookup(e, k)
  {
    RemoveAllSpec(e, remove.GetOr([]));
    ApplyAllSpec(RemoveAll(e, remove.GetOr([])), newParams.GetOr([]));
  }

  /** The query string starts with `?`; an empty dictionary gives exactly `?`. */
  lemma QueryStringEmpty(e: Entries<string, string>, quote: string -> string)
    ensures QueryString(e, quote)[0] == '?'
    ensures e == [] <==> QueryString(e, quote) == "?"
  {
  }

  /** When `quote` never yields `&` (percent-encoding escapes it), the part
      after `?` splits back into exactly one `k=v` pair per key, in order. */
  lemma QueryStringPairs(e: Entries<string, string>, quote: string -> string)
    requires e != []
    requires forall x :: '&' !in quote(x)
    ensures Split(QueryString(e, quote)[1..], '&') == Pairs(e, quote)
  {
    var ps := Pairs(e, quote);
    forall i | 0 <= i < |ps| ensures '&' !in ps[i] {
      assert ps[i] == quote(e[i].0) + "=" + quote(e[i].1);
    }
    SplitJoin(ps, '&');
    assert QueryString(e, quote)[1..] == Join("&", ps);
  }

  /** Python's `query_helper(query, add, remove)`: parses the two arguments,
      then edits and serialises a copy of `query`, so the caller's query is
      left as it was. */
  method QueryHelper(query: ParamDict, add: Option<string>, remove: Option<string>,
                     quote: string -> string) returns (r: Result<string, TagError>)
    requires query.Valid()
    ensures unchanged(query)
    ensures ParseDict(add).Err? ==> r == Err(ParseDict(add).error)
    ensures ParseDict(add).Ok? ==>
      r == Ok(QueryString(Updated(query.entries, Some(AsNewParams(ParseDict(add).value)),
                                  Some(ParseList(remove))), quote))
  {
    var added := StringToDict(add);
    if added.Err? {
      return Err(added.error);
    }
    var removed := StringToList(remove);
    var params := query.Copy();
    var s := GetQueryString(params, Some(AsNewParams(added.value)), Some(removed), quote);
    return Ok(s);
  }

  /** The parsed `add` dictionary as `new_params`: the same keys in the same
      order, each holding its value, never `None`. */
  function AsNewParams(d: Entries<string, string>): (ns: Entries<string, Option<string>>)
    ensures Keys(ns) == Keys(d)
    ensures DistinctKeys(d) ==> DistinctKeys(ns)
    ensures forall k :: Lookup(ns, k) == if HasKey(d, k) then Some(Lookup(d, k)) else None
  {
    if d == [] then []
    else
      var rest := AsNewParams(d[1..]);
      assert ([(d[0].0, Some(d[0].1))] + rest)[1..] == rest;
      [(d[0].0, Some(d[0].1))] + rest
  }

  /** What `query_helper` leaves in the copy it serialises: a key of the
      parsed `add` holds its value from there; otherwise a key named in
      `remove` is absent; every other key keeps its value; no key appears
      twice. Together with `QueryHelper` this is the key-level promise of
      the helper. */
  lemma QueryHelperLookup(e: Entries<string, string>, add: Option<string>, remove: Option<string>, k: string)
    requires DistinctKeys(e) && ParseDict(add).Ok?
    ensures var u := Updated(e, Some(AsNewParams(ParseDict(add).value)), Some(ParseList(remove)));
      && DistinctKeys(u)
      && Lookup(u, k) ==
           if HasKey(ParseDict(add).value, k) then Lookup(ParseDict(add).value, k)
           else if k in ParseList(remove) then None
           else Lookup(e, k)
  {
    var d := ParseDict(add).value;
    if add.Some? && add.value != [] {
      DictOfLookup(Segments(add.value), k, []);
    }
    UpdatedSpec(e, Some(AsNewParams(d)), Some(ParseList(remove)), k);
  }

  // ---------------------------------------------------------------------------
  // the selectable tag

  /** A value held by a template context. */
  datatype Value = Str(s: string) | Bool(b: bool)

  /** Python truthiness of a context value. */
  predicate Truthy(v: Value) {
    match v
    case Str(s) => s != []
    case Bool(b) => b
  }

  /** Python's `value in formats` on a list of strings. */
  predicate Listed(v: Value, formats: seq<string>) {
    v.Str? && v.s in formats
  }

  /** A template context: a dictionary the tag writes `selectable` into. */
  class Context {
    var vars: map<string, Value>

    constructor (vars: map<string, Value>)
      ensures this.vars == vars
    {
      this.vars := vars;
    }

    /** `template.Variable(name).resolve(context)`, with `''` for a missing variable. */
    function Resolve(name: string): Value
      reads this
    {
      if name in vars then vars[name] else Str("")
    }
  }

  /** The value `SelectableNode.render` stores under `selectable`, given the
      resolved file type and format; `selectFormats` is the `SELECT_FORMATS`
      setting. */
  function Selectability(filetype: Value, format: Value, selectFormats: map<string, seq<string>>): (r: Result<bool, TagError>)
    ensures r == Ok(false) <==>
      Truthy(filetype) && Truthy(format) && format.Str? && format.s in selectFormats
      && !Listed(filetype, selectFormats[format.s])
    ensures r.Err? <==> Truthy(filetype) && Truthy(format) && !(format.Str? && format.s in selectFormats)
    ensures r.Err? ==> r.error == KeyError
  {
    if Truthy(filetype) && Truthy(format) then
      if format.Str? && format.s in selectFormats then
        Ok(Listed(filetype, selectFormats[format.s]))
      else Err(KeyError)
    else Ok(true)
  }

  /** The node the `selectable` tag compiles to: the names of the two
      template variables it reads. */
  datatype SelectableNode = SelectableNode(filetype: string, format: string) {

    /** `SelectableNode.render(context)`: stores the decision under
        `selectable` and renders as the empty string. */
    method Render(context: Context, selectFormats: map<string, seq<string>>) returns (r: Result<string, TagError>)
      modifies context
      ensures var decision := Selectability(old(context.Resolve(filetype)), old(context.Resolve(format)), selectFormats);
        && (decision.Ok? ==> r == Ok("") && context.vars == old(context.vars)["selectable" := Bool(decision.value)])
        && (decision.Err? ==> r == Err(decision.error) && context.vars == old(context.vars))
    {
      var ft := context.Resolve(filetype);
      var fm := context.Resolve(format);
      var selectable: bool;
      if Truthy(ft) && Truthy(fm) {
        if !(fm.Str? && fm.s in selectFormats) {
          return Err(KeyError);
        }
        selectable := Listed(ft, selectFormats[fm.s]);
      } else {
        selectable := true;
      }
      context.vars := context.vars["selectable" := Bool(selectable)];
      return Ok("");
    }
  }

  /** Python's `selectable(parser, token)`: the tag must have exactly two
      arguments after its name. */
  function CompileSelectable(contents: string): (r: Result<SelectableNode, TagError>)
    ensures r.Ok? <==> |Words(contents)| == 3
    ensures r.Err? && Words(contents) != [] ==>
      r.error == TemplateSyntaxError(Words(contents)[0] + " tag requires 2 arguments")
  {
    var words := Words(contents);
    if |words| == 3 then Ok(SelectableNode(words[1], words[2]))
    else if words == [] then Err(IndexError)
    else Err(TemplateSyntaxError(words[0] + " tag requires 2 arguments"))
  }

  /** A tag written `name filetype format` compiles to a node that reads
      `filetype` and `format`. */
  lemma CompileSelectableWords(name: string, filetype: string, format: string)
    requires name != [] && filetype != [] && format != []
    requires NoSpace(name) && NoSpace(filetype) && NoSpace(format)
    ensures CompileSelectable(name + " " + filetype + " " + format) == Ok(SelectableNode(filetype, format))
  {
    WordsOfThree(name, filetype, format);
  }
}
