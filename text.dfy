/**
  * The operations on Python `str` values that the template tags, the form
  * field and the compatibility scripts rely on: substring tests (`in`),
  * `split` on one separator character, `join`, `strip`, `lower`, the
  * argument-less `split()` and `rfind`.
  */
module Text {

  /** Python's `str.isspace()`: the characters that `strip()`, `split()` and
      the regular-expression class `\s` treat as whitespace. */
  predicate IsSpace(c: char) {
    || ('\t' <= c <= '\r')
    || ('\U{1C}' <= c <= ' ')
    || c == '\U{85}' || c == '\U{A0}' || c == '\U{1680}'
    || ('\U{2000}' <= c <= '\U{200A}')
    || c == '\U{2028}' || c == '\U{2029}' || c == '\U{202F}' || c == '\U{205F}' || c == '\U{3000}'
  }

  /** `pat` occurs in `s` starting at index `i`. */
  predicate OccursAt(s: string, pat: string, i: int) {
    0 <= i && i + |pat| <= |s| && s[i..i + |pat|] == pat
  }

  /** Python's `pat in s` on two strings. */
  predicate Contains(s: string, pat: string) {
    exists i :: 0 <= i <= |s| - |pat| && OccursAt(s, pat, i)
  }

  /** Python's `s.endswith(suffix)`. */
  predicate EndsWith(s: string, suffix: string) {
    |suffix| <= |s| && s[|s| - |suffix|..] == suffix
  }

  lemma ContainsInfix(a: string, s: string, b: string, pat: string)
    requires Contains(s, pat)
    ensures Contains(a + s + b, pat)
  {
    var i :| 0 <= i <= |s| - |pat| && OccursAt(s, pat, i);
    assert (a + s + b)[|a| + i..|a| + i + |pat|] == s[i..i + |pat|];
    assert OccursAt(a + s + b, pat, |a| + i);
  }

  lemma ContainsPrepend(a: string, s: string, pat: string)
    requires Contains(s, pat)
    ensures Contains(a + s, pat)
  {
    ContainsInfix(a, s, [], pat);
    assert a + s + [] == a + s;
  }

  /** Containment is transitive: an occurrence of an occurrence is an occurrence. */
  lemma ContainsTransitive(s: string, t: string, pat: string)
    requires Contains(s, t) && Contains(t, pat)
    ensures Contains(s, pat)
  {
    var i :| 0 <= i <= |s| - |t| && OccursAt(s, t, i);
    var j :| 0 <= j <= |t| - |pat| && OccursAt(t, pat, j);
    forall k | 0 <= k < |pat|
      ensures s[i + j + k] == pat[k]
    {
      assert s[i..i + |t|][j + k] == t[j + k];
      assert t[j..j + |pat|][k] == t[j + k];
    }
    assert s[i + j..i + j + |pat|] == pat;
    assert OccursAt(s, pat, i + j);
  }

  /** A string that contains `pre + post` contains `pre`. */
  lemma ContainsPrefixOfPattern(s: string, pre: string, post: string)
    requires Contains(s, pre + post)
    ensures Contains(s, pre)
  {
    var i :| 0 <= i <= |s| - |pre + post| && OccursAt(s, pre + post, i);
    assert s[i..i + |pre|] == (pre + post)[..|pre|] == pre;
    assert OccursAt(s, pre, i);
  }

  /** The prefix `s[..j]` of a string: containment in it implies containment in `s`. */
  lemma ContainsSlice(s: string, i: nat, j: nat, pat: string)
    requires i <= j <= |s| && Contains(s[i..j], pat)
    ensures Contains(s, pat)
  {
    assert s == s[..i] + s[i..j] + s[j..];
    ContainsInfix(s[..i], s[i..j], s[j..], pat);
  }

  /** An occurrence agrees with the pattern at every offset. */
  lemma OccursAtChar(s: string, pat: string, i: int, j: int)
    requires OccursAt(s, pat, i) && 0 <= j < |pat|
    ensures s[i + j] == pat[j]
  {
    assert s[i + j] == s[i..i + |pat|][j];
  }

  // ---------------------------------------------------------------------------
  // split and join

  /** Python's `s.split(c)` for a one-character separator: the pieces between
      separators, empty ones included, so there is always at least one. */
  function Split(s: string, c: char): (pieces: seq<string>)
    ensures |pieces| >= 1
    ensures pieces[0] <= s
    ensures forall i :: 0 <= i < |pieces| ==> c !in pieces[i]
  {
    if s == [] then [[]]
    else
      var rest := Split(s[1..], c);
      if s[0] == c then [[]] + rest else [[s[0]] + rest[0]] + rest[1..]
  }

  /** Python's `sep.join(xs)`. */
  function Join(sep: string, xs: seq<string>): string {
    if |xs| == 0 then []
    else if |xs| == 1 then xs[0]
    else xs[0] + sep + Join(sep, xs[1..])
  }

  /** Joining the pieces with the separator gives the string back. */
  lemma {:induction false} JoinSplit(s: string, c: char)
    ensures Join([c], Split(s, c)) == s
  {
    if s != [] {
      var rest := Split(s[1..], c);
      JoinSplit(s[1..], c);
      if s[0] == c {
        assert Split(s, c) == [[]] + rest;
        assert Join([c], [[]] + rest) == [] + [c] + Join([c], rest) by {
          assert ([[]] + rest)[1..] == rest;
        }
        assert [c] + s[1..] == s;
      } else {
        var xs := Split(s, c);
        assert xs == [[s[0]] + rest[0]] + rest[1..];
        if |rest| == 1 {
          assert [s[0]] + rest[0] == s;
        } else {
          assert xs[1..] == rest[1..];
          assert Join([c], rest) == rest[0] + [c] + Join([c], rest[1..]);
          assert Join([c], xs) == [s[0]] + rest[0] + [c] + Join([c], rest[1..]);
          assert [s[0]] + s[1..] == s;
        }
      }
    }
  }

  /** A string without the separator is a single piece. */
  lemma {:induction false} SplitWithoutSeparator(s: string, c: char)
    requires c !in s
    ensures Split(s, c) == [s]
  {
    if s != [] {
      SplitWithoutSeparator(s[1..], c);
      assert [s[0]] + s[1..] == s;
    }
  }

  /** Splitting `a + [c] + b` with `c` not in `a` gives `a` first. */
  lemma {:induction false} SplitAtSeparator(a: string, c: char, b: string)
    requires c !in a
    ensures Split(a + [c] + b, c) == [a] + Split(b, c)
  {
    if a == [] {
      assert [] + [c] + b == [c] + b;
      assert ([c] + b)[1..] == b;
    } else {
      SplitAtSeparator(a[1..], c, b);
      assert (a + [c] + b)[1..] == a[1..] + [c] + b;
      assert [a[0]] + a[1..] == a;
    }
  }

  /** Splitting a join gives the parts back when no part holds the separator. */
  lemma {:induction false} SplitJoin(xs: seq<string>, c: char)
    requires |xs| >= 1
    requires forall i :: 0 <= i < |xs| ==> c !in xs[i]
    ensures Split(Join([c], xs), c) == xs
  {
    if |xs| == 1 {
      SplitWithoutSeparator(xs[0], c);
    } else {
      SplitJoin(xs[1..], c);
      SplitAtSeparator(xs[0], c, Join([c], xs[1..]));
      assert [xs[0]] + xs[1..] == xs;
    }
  }

  /** A trailing separator adds one empty piece and changes no other. */
  lemma {:induction false} SplitTrailingSeparator(s: string, c: char)
    ensures Split(s + [c], c) == Split(s, c) + [[]]
  {
    if s == [] {
      assert [] + [c] == [c];
    } else {
      SplitTrailingSeparator(s[1..], c);
      assert (s + [c])[1..] == s[1..] + [c];
    }
  }

  /** Every piece of a split occurs in the string that was split. */
  lemma {:induction false} SplitPieceContained(s: string, c: char, i: nat)
    requires i < |Split(s, c)|
    ensures Contains(s, Split(s, c)[i])
  {
    var pieces := Split(s, c);
    if i == 0 {
      assert s[0..|pieces[0]|] == pieces[0];
      assert OccursAt(s, pieces[0], 0);
    } else {
      var rest := Split(s[1..], c);
      if s[0] == c {
        SplitPieceContained(s[1..], c, i - 1);
        assert pieces[i] == rest[i - 1];
      } else {
        SplitPieceContained(s[1..], c, i);
        assert pieces[i] == rest[i];
      }
      ContainsPrepend([s[0]], s[1..], pieces[i]);
      assert [s[0]] + s[1..] == s;
    }
  }

  // ---------------------------------------------------------------------------
  // first and last index of a character

  /** Index of the first `c` in `s` (`s.index(c)`). */
  function FirstIndex(s: string, c: char): (i: nat)
    requires c in s
    ensures i < |s| && s[i] == c && c !in s[..i]
  {
    if s[0] == c then 0
    else
      var j := FirstIndex(s[1..], c);
      assert s[..j + 1] == [s[0]] + s[1..][..j];
      j + 1
  }

  /** Python's `s.rfind(c)`: the index of the last `c`, or -1. */
  function LastIndex(s: string, c: char): (i: int)
    ensures -1 <= i < |s|
    ensures 0 <= i ==> s[i] == c
    ensures forall k :: i < k < |s| ==> s[k] != c
  {
    if s == [] then -1
    else if s[|s| - 1] == c then |s| - 1
    else LastIndex(s[..|s| - 1], c)
  }

  // ---------------------------------------------------------------------------
  // strip and lower

  /** Python's `s.lstrip()`. */
  function TrimLeft(s: string): (r: string)
    ensures |r| <= |s|
    ensures r != [] ==> !IsSpace(r[0])
  {
    if s != [] && IsSpace(s[0]) then TrimLeft(s[1..]) else s
  }

  /** Python's `s.rstrip()`. */
  function TrimRight(s: string): (r: string)
    ensures |r| <= |s|
    ensures r != [] ==> !IsSpace(r[|r| - 1])
  {
    if s != [] && IsSpace(s[|s| - 1]) then TrimRight(s[..|s| - 1]) else s
  }

  /** Python's `s.strip()`. */
  function Strip(s: string): string {
    TrimRight(TrimLeft(s))
  }

  /** `lstrip()` removes only whitespace, from the front. */
  lemma {:induction false} TrimLeftSpec(s: string)
    ensures TrimLeft(s) == s[|s| - |TrimLeft(s)|..]
    ensures forall i :: 0 <= i < |s| - |TrimLeft(s)| ==> IsSpace(s[i])
  {
    if s != [] && IsSpace(s[0]) {
      TrimLeftSpec(s[1..]);
      assert s[1..][|s| - 1 - |TrimLeft(s)|..] == s[|s| - |TrimLeft(s)|..];
      forall i | 0 <= i < |s| - |TrimLeft(s)| ensures IsSpace(s[i]) {
        if i > 0 {
          assert s[i] == s[1..][i - 1];
        }
      }
    }
  }

  /** `rstrip()` removes only whitespace, from the end. */
  lemma {:induction false} TrimRightSpec(s: string)
    ensures TrimRight(s) == s[..|TrimRight(s)|]
    ensures forall i :: |TrimRight(s)| <= i < |s| ==> IsSpace(s[i])
  {
    if s != [] && IsSpace(s[|s| - 1]) {
      TrimRightSpec(s[..|s| - 1]);
      assert s[..|s| - 1][..|TrimRight(s)|] == s[..|TrimRight(s)|];
      forall i | |TrimRight(s)| <= i < |s| ensures IsSpace(s[i]) {
        if i < |s| - 1 {
          assert s[i] == s[..|s| - 1][i];
        }
      }
    }
  }

  /** `strip()` removes the leading and trailing whitespace and nothing else:
      the result is empty exactly when `s` is all whitespace, otherwise it
      starts and ends with a non-whitespace character, and it is the part of
      `s` between a whitespace prefix and a whitespace suffix. */
  lemma StripSpec(s: string)
    ensures Strip(s) == [] <==> forall i :: 0 <= i < |s| ==> IsSpace(s[i])
    ensures Strip(s) != [] ==> !IsSpace(Strip(s)[0]) && !IsSpace(Strip(s)[|Strip(s)| - 1])
    ensures exists k :: 0 <= k <= |s| - |Strip(s)| && OccursAt(s, Strip(s), k)
                        && (forall i :: 0 <= i < k ==> IsSpace(s[i]))
                        && (forall i :: k + |Strip(s)| <= i < |s| ==> IsSpace(s[i]))
  {
    var t := TrimLeft(s);
    var r := TrimRight(t);
    var k := |s| - |t|;
    TrimLeftSpec(s);
    TrimRightSpec(t);
    assert s[k..k + |r|] == r;
    assert OccursAt(s, r, k);
    forall i | k + |r| <= i < |s| ensures IsSpace(s[i]) {
      assert s[i] == t[i - k];
    }
    if r != [] {
      assert r[0] == s[k];
    }
  }

  /** A string without whitespace at either end is its own strip. */
  lemma StripUnchanged(s: string)
    requires s == [] || (!IsSpace(s[0]) && !IsSpace(s[|s| - 1]))
    ensures Strip(s) == s
  {
    assert TrimLeft(s) == s;
  }

  /** Python's `c.lower()` on one character, for the ASCII letters. */
  function LowerChar(c: char): char {
    if 'A' <= c <= 'Z' then (c as int + 32) as char else c
  }

  /** Python's `s.lower()`, for the ASCII letters. */
  function Lower(s: string): (r: string)
    ensures |r| == |s|
    ensures forall i :: 0 <= i < |s| ==> r[i] == LowerChar(s[i])
  {
    seq(|s|, i requires 0 <= i < |s| => LowerChar(s[i]))
  }

  /** Lower-casing twice is lower-casing once. */
  lemma LowerIdempotent(s: string)
    ensures Lower(Lower(s)) == Lower(s)
  {
    forall i | 0 <= i < |s| ensures Lower(Lower(s))[i] == Lower(s)[i] {
      assert Lower(Lower(s))[i] == LowerChar(LowerChar(s[i]));
    }
  }

  /** Lower-casing commutes with taking a slice. */
  lemma LowerSlice(s: string, i: nat, j: nat)
    requires i <= j <= |s|
    ensures Lower(s)[i..j] == Lower(s[i..j])
  {
  }

  /** Lower-casing changes no character that is not an ASCII capital and
      makes no new one: `rfind` of such a character is the same before and
      after. */
  lemma LastIndexLower(s: string, c: char)
    requires !('A' <= c <= 'Z') && !('a' <= c <= 'z')
    ensures LastIndex(Lower(s), c) == LastIndex(s, c)
  {
    assert forall k :: 0 <= k < |s| ==> (Lower(s)[k] == c <==> s[k] == c);
  }

  // ---------------------------------------------------------------------------
  // split() without a separator

  /** Length of the run of non-whitespace characters at the start of `s`. */
  function WordLength(s: string): (n: nat)
    ensures n <= |s|
  {
    if s != [] && !IsSpace(s[0]) then 1 + WordLength(s[1..]) else 0
  }

  /** No character of `w` is whitespace. */
  predicate NoSpace(w: string) {
    forall k :: 0 <= k < |w| ==> !IsSpace(w[k])
  }

  /** Python's `s.split()`: the maximal runs of non-whitespace characters, in order. */
  function Words(s: string): seq<string>
    decreases |s|
  {
    var t := TrimLeft(s);
    if t == [] then []
    else
      var n := WordLength(t);
      [t[..n]] + Words(t[n..])
  }

  /** Leading whitespace does not change the words. */
  lemma WordsAfterSpace(c: char, s: string)
    requires IsSpace(c)
    ensures Words([c] + s) == Words(s)
  {
    assert ([c] + s)[1..] == s;
    assert TrimLeft([c] + s) == TrimLeft(s);
  }

  /** The first run of non-whitespace ends where whitespace or the string does. */
  lemma {:induction false} WordLengthAt(w: string, rest: string)
    requires NoSpace(w)
    requires rest == [] || IsSpace(rest[0])
    ensures WordLength(w + rest) == |w|
  {
    if w != [] {
      WordLengthAt(w[1..], rest);
      assert (w + rest)[1..] == w[1..] + rest;
    } else {
      assert w + rest == rest;
    }
  }

  /** A word followed by whitespace or by nothing is the first word. */
  lemma WordsCons(w: string, rest: string)
    requires w != [] && NoSpace(w)
    requires rest == [] || IsSpace(rest[0])
    ensures Words(w + rest) == [w] + Words(rest)
  {
    var s := w + rest;
    assert !IsSpace(s[0]);
    assert TrimLeft(s) == s;
    var n := WordLength(s);
    WordLengthAt(w, rest);
    assert s[..n] == w && s[n..] == rest;
  }

  /** A word, a space and more text: the word comes first. */
  lemma WordsSpaceCons(w: string, rest: string)
    requires w != [] && NoSpace(w)
    ensures Words(w + ([' '] + rest)) == [w] + Words(rest)
  {
    WordsCons(w, [' '] + rest);
    WordsAfterSpace(' ', rest);
  }

  /** A single word is split into itself. */
  lemma WordsOne(w: string)
    requires w != [] && NoSpace(w)
    ensures Words(w) == [w]
  {
    WordsCons(w, []);
    assert w + [] == w;
  }

  /** Two space-separated words are split into exactly those two. */
  lemma WordsTwo(a: string, b: string)
    requires a != [] && b != [] && NoSpace(a) && NoSpace(b)
    ensures Words(a + ([' '] + b)) == [a, b]
  {
    WordsSpaceCons(a, b);
    WordsOne(b);
  }

  /** Three words, each followed by one space except the last. */
  lemma WordsThree(a: string, b: string, c: string)
    requires a != [] && b != [] && c != []
    requires NoSpace(a) && NoSpace(b) && NoSpace(c)
    ensures Words(a + ([' '] + (b + ([' '] + c)))) == [a, b, c]
  {
    WordsSpaceCons(a, b + ([' '] + c));
    WordsTwo(b, c);
  }

  lemma SpacedThree(a: string, b: string, c: string)
    ensures a + " " + b + " " + c == a + ([' '] + (b + ([' '] + c)))
  {
  }

  /** Three space-separated words are split into exactly those three. */
  lemma WordsOfThree(a: string, b: string, c: string)
    requires a != [] && b != [] && c != []
    requires NoSpace(a) && NoSpace(b) && NoSpace(c)
    ensures Words(a + " " + b + " " + c) == [a, b, c]
  {
    WordsThree(a, b, c);
    SpacedThree(a, b, c);
  }
}
