/** The JavaScript string operations the snippet loader relies on, over
    `string` (a sequence of characters):
    - `String.prototype.split` with a one-character separator (`Split`),
    - `Array.prototype.join` (`Join`),
    - `split(c).pop()`, the text after the last separator (`AfterLast`),
    - `!s.trim()`, whether nothing is left after trimming (`IsBlank`),
    - `startsWith`, `includes` and `replace` with a plain string pattern. */
module Text {
  import opened Optional

  predicate StartsWith(s: string, prefix: string) {
    |prefix| <= |s| && s[..|prefix|] == prefix
  }

  /** Index of the first `c` in `s`, if any. */
  function IndexOf(s: string, c: char): (r: Option<nat>)
    ensures r.None? <==> c !in s
    ensures r.Some? ==> r.value < |s| && s[r.value] == c && c !in s[..r.value]
  {
    if |s| == 0 then None
    else if s[0] == c then Some(0)
    else
      match IndexOf(s[1..], c)
      case None => None
      case Some(i) =>
        assert s[..i + 1] == [s[0]] + s[1..][..i];
        Some(i + 1)
  }

  /** The first occurrence is the only index that has `c` with no `c` before it. */
  lemma IndexOfUnique(s: string, c: char, k: nat)
    requires k < |s| && s[k] == c && c !in s[..k]
    ensures IndexOf(s, c) == Some(k)
  {
    assert s[k] in s;
  }

  /** `parts.join(sep)`. */
  function Join(parts: seq<string>, sep: string): string {
    if |parts| == 0 then ""
    else if |parts| == 1 then parts[0]
    else parts[0] + sep + Join(parts[1..], sep)
  }

  /** Joining peels off the last part as well as the first. */
  lemma {:induction false} JoinLast(parts: seq<string>, sep: string)
    requires |parts| >= 2
    ensures Join(parts, sep) == Join(parts[..|parts| - 1], sep) + sep + parts[|parts| - 1]
    decreases |parts|
  {
    var n := |parts|;
    if n == 2 {
      assert parts[..1] == [parts[0]];
      assert parts[1..] == [parts[1]];
    } else {
      JoinLast(parts[1..], sep);
      assert parts[1..][..n - 2] == parts[..n - 1][1..];
    }
  }

  /** `s.split(c)`: the maximal runs of non-`c` characters, in order, including
      the empty runs before a leading, after a trailing and between adjacent
      separators. */
  function Split(s: string, c: char): (parts: seq<string>)
    ensures |parts| >= 1
    ensures forall i :: 0 <= i < |parts| ==> c !in parts[i]
    ensures |parts| == 1 <==> c !in s
    decreases |s|
  {
    match IndexOf(s, c)
    case None => [s]
    case Some(i) =>
      assert s[i] in s;
      [s[..i]] + Split(s[i + 1..], c)
  }

  /** Round trip: joining the parts with the separator gives back the string,
      so the separators are exactly what `Split` removed. */
  lemma {:induction false} JoinSplit(s: string, c: char)
    ensures Join(Split(s, c), [c]) == s
    decreases |s|
  {
    match IndexOf(s, c)
    case None =>
    case Some(i) =>
      var rest := Split(s[i + 1..], c);
      SplitAt(s, c, i);
      JoinSplit(s[i + 1..], c);
      JoinCons(s[..i], rest, [c]);
      CutAt(s, i);
  }

  lemma CutAt(s: string, i: nat)
    requires i < |s|
    ensures s == s[..i] + [s[i]] + s[i + 1..]
  {
  }

  /** Joining a part in front of a non-empty list puts one separator between. */
  lemma JoinCons(part: string, rest: seq<string>, sep: string)
    requires |rest| >= 1
    ensures Join([part] + rest, sep) == part + sep + Join(rest, sep)
  {
    assert ([part] + rest)[1..] == rest;
  }

  /** Splitting distributes over a separator: the separator between `x` and `y`
      is a cut point of the split. */
  lemma {:induction false} SplitConcat(x: string, y: string, c: char)
    ensures Split(x + [c] + y, c) == Split(x, c) + Split(y, c)
    decreases |x|
  {
    var s := x + [c] + y;
    if c !in x {
      SplitConcatFirst(x, y, c);
    } else {
      var i := IndexOf(x, c).value;
      var x' := x[i + 1..];
      CutBeforeSeparator(x, y, c, i);
      SplitAt(s, c, i);
      SplitAt(x, c, i);
      SplitConcat(x', y, c);
      assert Split(s, c) == [x[..i]] + Split(x' + [c] + y, c);
      assert Split(x, c) == [x[..i]] + Split(x', c);
      ConcatAssoc([x[..i]], Split(x', c), Split(y, c));
    }
  }

  lemma ConcatAssoc<T>(a: seq<T>, b: seq<T>, c: seq<T>)
    ensures a + (b + c) == (a + b) + c
  {
  }

  /** A separator inside `x` is still the first one of `x + c + y`. */
  lemma CutBeforeSeparator(x: string, y: string, c: char, i: nat)
    requires IndexOf(x, c) == Some(i)
    ensures IndexOf(x + [c] + y, c) == Some(i)
    ensures (x + [c] + y)[..i] == x[..i]
    ensures (x + [c] + y)[i + 1..] == x[i + 1..] + [c] + y
  {
    var s := x + [c] + y;
    assert s[..i] == x[..i];
    IndexOfUnique(s, c, i);
  }

  /** The base case of `SplitConcat`: `x` has no separator. */
  lemma SplitConcatFirst(x: string, y: string, c: char)
    requires c !in x
    ensures Split(x + [c] + y, c) == [x] + Split(y, c)
  {
    var s := x + [c] + y;
    assert s[..|x|] == x;
    IndexOfUnique(s, c, |x|);
    assert s[|x| + 1..] == y;
    SplitAt(s, c, |x|);
  }

  /** One step of `Split`: cut at the first separator. */
  lemma SplitAt(s: string, c: char, i: nat)
    requires IndexOf(s, c) == Some(i)
    ensures Split(s, c) == [s[..i]] + Split(s[i + 1..], c)
  {
  }

  /** A string without the separator is its own single part. */
  lemma SplitSingle(s: string, c: char)
    requires c !in s
    ensures Split(s, c) == [s]
  {
  }

  /** Splitting after a separator-free first part: that part comes first and
      the rest splits on its own. */
  lemma SplitCons(a: string, rest: string, c: char)
    requires c !in a
    ensures |Split(a + [c] + rest, c)| >= 2
    ensures Split(a + [c] + rest, c)[0] == a
    ensures Split(a + [c] + rest, c)[1..] == Split(rest, c)
  {
    SplitConcatFirst(a, rest, c);
  }

  /** Round trip: splitting what was joined gives the parts back, provided no
      part contains the separator. */
  lemma {:induction false} SplitJoin(parts: seq<string>, c: char)
    requires |parts| >= 1
    requires forall i :: 0 <= i < |parts| ==> c !in parts[i]
    ensures Split(Join(parts, [c]), c) == parts
    decreases |parts|
  {
    if |parts| > 1 {
      var rest := parts[1..];
      forall i | 0 <= i < |rest|
        ensures c !in rest[i]
      {
        assert rest[i] == parts[i + 1];
      }
      SplitJoin(rest, c);
      assert Join(parts, [c]) == parts[0] + [c] + Join(rest, [c]);
      SplitConcat(parts[0], Join(rest, [c]), c);
      assert c !in parts[0];
      SplitSingle(parts[0], c);
      assert parts == [parts[0]] + rest;
    } else {
      SplitSingle(parts[0], c);
    }
  }

  /** `t` is the text after the last `c` of `s`: a suffix of `s` without `c`
      that is either all of `s` or preceded by a `c`. */
  ghost predicate IsTextAfterLast(s: string, c: char, t: string) {
    && |t| <= |s|
    && s[|s| - |t|..] == t
    && c !in t
    && (|t| == |s| || s[|s| - |t| - 1] == c)
  }

  /** `s.split(c).pop()`. */
  function AfterLast(s: string, c: char): (t: string)
    ensures IsTextAfterLast(s, c, t)
  {
    var parts := Split(s, c);
    var n := |parts|;
    JoinSplit(s, c);
    if n == 1 then parts[0]
    else
      JoinLast(parts, [c]);
      var head := Join(parts[..n - 1], [c]);
      assert s == head + [c] + parts[n - 1];
      assert s[|s| - |parts[n - 1]|..] == parts[n - 1];
      parts[n - 1]
  }

  /** The text after the last `c` and the rest of `s` before that `c`, in
      terms of the parts of `s`. */
  lemma AfterLastParts(s: string, c: char)
    ensures var parts := Split(s, c);
            && AfterLast(s, c) == parts[|parts| - 1]
            && Join(parts, [c]) == s
            && (|parts| >= 2 ==> s == Join(parts[..|parts| - 1], [c]) + [c] + parts[|parts| - 1])
  {
    var parts := Split(s, c);
    JoinSplit(s, c);
    if |parts| >= 2 {
      JoinLast(parts, [c]);
    }
  }

  lemma TextAfterLastUnique(s: string, c: char, t1: string, t2: string)
    requires IsTextAfterLast(s, c, t1) && IsTextAfterLast(s, c, t2)
    ensures t1 == t2
  {
  }

  /** The text after the last `c` of `p + c + t` is `t` whenever `t` has no `c`. */
  lemma AfterLastOf(p: string, t: string, c: char)
    requires c !in t
    ensures AfterLast(p + [c] + t, c) == t
  {
    var s := p + [c] + t;
    assert s[|s| - |t|..] == t;
    assert s[|s| - |t| - 1] == c;
    TextAfterLastUnique(s, c, t, AfterLast(s, c));
  }

  /** The characters `String.prototype.trim` removes: ECMAScript WhiteSpace
      (tab, vertical tab, form feed, no-break space, byte order mark and every
      Unicode space separator) and LineTerminator (line feed, carriage return,
      line separator, paragraph separator). */
  predicate IsJsWhitespace(ch: char) {
    || ch == '\t' || ch == '\n' || ch == '\U{B}' || ch == '\U{C}' || ch == '\r'
    || ch == ' ' || ch == '\U{A0}' || ch == '\U{1680}'
    || ('\U{2000}' <= ch <= '\U{200A}')
    || ch == '\U{2028}' || ch == '\U{2029}' || ch == '\U{202F}' || ch == '\U{205F}'
    || ch == '\U{3000}' || ch == '\U{FEFF}'
  }

  /** `!s.trim()`: nothing is left once whitespace is trimmed. */
  predicate IsBlank(s: string) {
    forall i :: 0 <= i < |s| ==> IsJsWhitespace(s[i])
  }

  predicate MatchesAt(s: string, pat: string, j: int) {
    0 <= j && j + |pat| <= |s| && s[j..j + |pat|] == pat
  }

  /** `pat` occurs at `i` and nowhere before. */
  predicate FirstMatchAt(s: string, pat: string, i: int) {
    MatchesAt(s, pat, i) && forall j :: 0 <= j < i ==> !MatchesAt(s, pat, j)
  }

  /** Position of the first occurrence of `pat` at or after `k`. */
  function FindFrom(s: string, pat: string, k: nat): (r: Option<nat>)
    ensures r.Some? ==> k <= r.value && MatchesAt(s, pat, r.value)
    ensures r.Some? ==> forall j :: k <= j < r.value ==> !MatchesAt(s, pat, j)
    ensures r.None? ==> forall j :: k <= j ==> !MatchesAt(s, pat, j)
    decreases |s| - k
  {
    if k + |pat| > |s| then None
    else if s[k..k + |pat|] == pat then Some(k)
    else FindFrom(s, pat, k + 1)
  }

  /** `s.includes(pat)`. */
  function Contains(s: string, pat: string): (b: bool)
    ensures b <==> exists j :: MatchesAt(s, pat, j)
  {
    FindFrom(s, pat, 0).Some?
  }

  /** `s.replace(pat, rep)` with a string pattern (and a replacement without
      `$` patterns): only the first occurrence is replaced. */
  function ReplaceFirst(s: string, pat: string, rep: string): (r: string)
    ensures (forall j :: !MatchesAt(s, pat, j)) ==> r == s
    ensures forall i :: FirstMatchAt(s, pat, i) ==> r == s[..i] + rep + s[i + |pat|..]
  {
    match FindFrom(s, pat, 0)
    case None => s
    case Some(i) => s[..i] + rep + s[i + |pat|..]
  }

  /** The longest prefix of `s` with no character from `stops`. */
  function TakeUntil(s: string, stops: set<char>): (t: string)
    ensures |t| <= |s| && t == s[..|t|]
    ensures forall i :: 0 <= i < |t| ==> t[i] !in stops
    ensures |t| < |s| ==> s[|t|] in stops
  {
    if |s| == 0 || s[0] in stops then ""
    else [s[0]] + TakeUntil(s[1..], stops)
  }

  lemma {:induction false} TakeUntilConcat(x: string, y: string, stops: set<char>)
    requires forall i :: 0 <= i < |x| ==> x[i] !in stops
    ensures TakeUntil(x + y, stops) == x + TakeUntil(y, stops)
    decreases |x|
  {
    if |x| == 0 {
      assert x + y == y;
    } else {
      assert (x + y)[1..] == x[1..] + y;
      TakeUntilConcat(x[1..], y, stops);
      assert x == [x[0]] + x[1..];
    }
  }
}
