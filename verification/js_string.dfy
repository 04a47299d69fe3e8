/** The JavaScript `String` built-ins the report pipeline relies on, on
    strings of characters: `includes`, `indexOf`, `split` with a string
    separator, `Array.prototype.join` over strings, `trim` and `endsWith`.
    Every call site in the pipeline passes a non-empty ASCII literal as the
    separator, so splitting by Unicode scalar values (as here) and by UTF-16
    code units (as JavaScript does) give the same pieces. */
module JsString {
  import opened Wrappers

  /** `t` occurs in `s` starting at index `i`. */
  predicate OccursAt(s: string, t: string, i: int) {
    0 <= i && i + |t| <= |s| && s[i..i + |t|] == t
  }

  /** `s.includes(t)`: some occurrence of `t` in `s`. */
  predicate Contains(s: string, t: string) {
    exists i :: 0 <= i <= |s| - |t| && OccursAt(s, t, i)
  }

  /** `s.indexOf(t)`, with `None` for JavaScript's `-1`: the least index at
      which `t` occurs in `s`. */
  function IndexOf(s: string, t: string): (r: Option<nat>)
    ensures r.Some? ==> OccursAt(s, t, r.value)
    ensures r.Some? ==> forall j :: 0 <= j < r.value ==> !OccursAt(s, t, j)
    ensures r.None? <==> !Contains(s, t)
  {
    IndexFrom(s, t, 0)
  }

  /** `s.indexOf(t, k)`: the least index at or after `k` at which `t`
      occurs in `s`. */
  function IndexFrom(s: string, t: string, k: nat): (r: Option<nat>)
    ensures r.Some? ==> k <= r.value && OccursAt(s, t, r.value)
    ensures r.Some? ==> forall j :: k <= j < r.value ==> !OccursAt(s, t, j)
    ensures r.None? ==> forall j :: k <= j ==> !OccursAt(s, t, j)
    decreases |s| - k
  {
    if |s| < k + |t| then
      None
    else if OccursAt(s, t, k) then
      Some(k)
    else
      IndexFrom(s, t, k + 1)
  }

  /** An occurrence with no earlier one is the one `indexOf` reports. */
  lemma IndexOfIsFirst(s: string, t: string, i: nat)
    requires OccursAt(s, t, i)
    requires forall j :: 0 <= j < i ==> !OccursAt(s, t, j)
    ensures IndexOf(s, t) == Some(i)
  {
  }

  /** The number of non-overlapping occurrences of `t` in `s`, found left to
      right the way `split` consumes them. */
  function Count(s: string, t: string): nat
    requires |t| > 0
    decreases |s|
  {
    match IndexOf(s, t)
    case None => 0
    case Some(i) => 1 + Count(s[i + |t|..], t)
  }

  /** One step of the count: the first occurrence, then the rest after it. */
  lemma CountStep(s: string, t: string, i: nat)
    requires |t| > 0
    requires IndexOf(s, t) == Some(i)
    ensures Count(s, t) == 1 + Count(s[i + |t|..], t)
  {
    CountUnfold(s, t);
  }

  /** The definition of `Count`, one step at a time. */
  lemma CountUnfold(s: string, t: string)
    requires |t| > 0
    ensures IndexOf(s, t).None? ==> Count(s, t) == 0
    ensures IndexOf(s, t).Some? ==> Count(s, t) == 1 + Count(s[IndexOf(s, t).value + |t|..], t)
  {
  }

  /** No occurrence, nothing counted. */
  lemma CountNone(s: string, t: string)
    requires |t| > 0
    requires IndexOf(s, t).None?
    ensures Count(s, t) == 0
  {
    CountUnfold(s, t);
  }

  /** `s.split(sep)` for a non-empty string separator: scan left to right,
      cut at each occurrence of `sep`, resume right after it. */
  function Split(s: string, sep: string): (pieces: seq<string>)
    requires |sep| > 0
    ensures |pieces| >= 1
    decreases |s|
  {
    match IndexOf(s, sep)
    case None => [s]
    case Some(i) => [s[..i]] + Split(s[i + |sep|..], sep)
  }

  /** `xs.join(sep)` over an array of strings. */
  function Join(xs: seq<string>, sep: string): string {
    if |xs| == 0 then ""
    else if |xs| == 1 then xs[0]
    else xs[0] + sep + Join(xs[1..], sep)
  }

  /** Being an infix is transitive. */
  lemma InfixTransitive(s: string, x: string, w: string)
    requires Contains(s, x) && Contains(x, w)
    ensures Contains(s, w)
  {
    var i :| 0 <= i <= |s| - |x| && OccursAt(s, x, i);
    var j :| 0 <= j <= |x| - |w| && OccursAt(x, w, j);
    forall k | 0 <= k < |w|
      ensures s[i + j + k] == w[k]
    {
      assert x[j..j + |w|][k] == w[k];
      assert s[i..i + |x|][j + k] == x[j + k];
    }
    assert s[i + j..i + j + |w|] == w;
    assert OccursAt(s, w, i + j);
  }

  /** Occurrences that end inside a prefix are the prefix's own. */
  lemma OccursInPrefix(s: string, n: nat, t: string, j: int)
    requires 0 <= j && j + |t| <= n <= |s|
    ensures OccursAt(s[..n], t, j) <==> OccursAt(s, t, j)
  {
    assert s[..n][j..j + |t|] == s[j..j + |t|];
  }

  /** A piece is an infix free of the separator. */
  lemma SplitPiece(s: string, sep: string, k: nat)
    requires |sep| > 0 && k < |Split(s, sep)|
    ensures Contains(s, Split(s, sep)[k])
    ensures !Contains(Split(s, sep)[k], sep)
  {
    SplitPiecesAreInfixes(s, sep);
    SplitPiecesAvoidSeparator(s, sep);
  }

  /** An infix of a string free of `w` is free of `w`. */
  lemma InfixAvoids(s: string, x: string, w: string)
    requires Contains(s, x) && !Contains(s, w)
    ensures !Contains(x, w)
  {
    if Contains(x, w) {
      InfixTransitive(s, x, w);
    }
  }

  /** Every slice of `s` is an infix of `s`. */
  lemma SliceIsInfix(s: string, lo: nat, hi: nat)
    requires lo <= hi <= |s|
    ensures Contains(s, s[lo..hi])
  {
    assert OccursAt(s, s[lo..hi], lo);
  }

  /** Splitting yields one more piece than there are non-overlapping
      occurrences of the separator; so there are at least two pieces exactly
      when the separator occurs. */
  lemma {:induction false} SplitLength(s: string, sep: string)
    requires |sep| > 0
    ensures |Split(s, sep)| == Count(s, sep) + 1
    ensures |Split(s, sep)| >= 2 <==> Contains(s, sep)
    decreases |s|
  {
    match IndexOf(s, sep)
    case None =>
      CountNone(s, sep);
      assert Split(s, sep) == [s];
    case Some(i) =>
      var rest := s[i + |sep|..];
      SplitLength(rest, sep);
      CountStep(s, sep, i);
      assert Split(s, sep) == [s[..i]] + Split(rest, sep);
  }

  /** Joining the pieces back with the separator gives the input back. */
  lemma {:induction false} SplitJoin(s: string, sep: string)
    requires |sep| > 0
    ensures Join(Split(s, sep), sep) == s
    decreases |s|
  {
    match IndexOf(s, sep)
    case None =>
    case Some(i) =>
      var rest := Split(s[i + |sep|..], sep);
      SplitJoin(s[i + |sep|..], sep);
      assert ([s[..i]] + rest)[1..] == rest;
      assert s == s[..i] + sep + s[i + |sep|..];
  }

  /** No piece contains the separator. */
  lemma {:induction false} SplitPiecesAvoidSeparator(s: string, sep: string)
    requires |sep| > 0
    ensures forall k :: 0 <= k < |Split(s, sep)| ==> !Contains(Split(s, sep)[k], sep)
    decreases |s|
  {
    SplitUnfold(s, sep);
    if IndexOf(s, sep).Some? {
      var i := IndexOf(s, sep).value;
      var rest := s[i + |sep|..];
      SplitPiecesAvoidSeparator(rest, sep);
      TextBeforeFirstAvoids(s, sep, i);
      SplitCons(s[..i], Split(rest, sep), Split(s, sep));
    }
  }

  /** The text before the first occurrence does not contain the pattern. */
  lemma TextBeforeFirstAvoids(s: string, t: string, i: nat)
    requires |t| > 0 && IndexOf(s, t) == Some(i)
    ensures !Contains(s[..i], t)
  {
    forall j | 0 <= j <= i - |t|
      ensures !OccursAt(s[..i], t, j)
    {
      OccursInPrefix(s, i, t, j);
    }
  }

  /** The elements of `[x] + xs`. */
  lemma SplitCons(x: string, xs: seq<string>, ys: seq<string>)
    requires ys == [x] + xs
    ensures |ys| == |xs| + 1 && ys[0] == x
    ensures forall k :: 1 <= k < |ys| ==> ys[k] == xs[k - 1]
  {
  }

  /** Every piece is an infix of the input. */
  lemma {:induction false} SplitPiecesAreInfixes(s: string, sep: string)
    requires |sep| > 0
    ensures forall k :: 0 <= k < |Split(s, sep)| ==> Contains(s, Split(s, sep)[k])
    decreases |s|
  {
    SplitUnfold(s, sep);
    if IndexOf(s, sep).None? {
      SliceIsInfix(s, 0, |s|);
      assert s[0..|s|] == s;
    } else {
      var i := IndexOf(s, sep).value;
      var tail := s[i + |sep|..];
      SplitPiecesAreInfixes(tail, sep);
      SliceIsInfix(s, 0, i);
      assert s[0..i] == s[..i];
      SliceIsInfix(s, i + |sep|, |s|);
      assert s[i + |sep|..|s|] == tail;
      forall k | 0 <= k < |Split(tail, sep)|
        ensures Contains(s, Split(tail, sep)[k])
      {
        InfixTransitive(s, tail, Split(tail, sep)[k]);
      }
      SplitCons(s[..i], Split(tail, sep), Split(s, sep));
    }
  }

  /** The first piece is the longest prefix of `s` before the first
      occurrence of the separator: a prefix free of `sep`, which is either
      all of `s` or is followed by `sep`. */
  lemma SplitFirstPiece(s: string, sep: string)
    requires |sep| > 0
    ensures var p := Split(s, sep)[0];
      && p == s[..|p|]
      && !Contains(p, sep)
      && (forall j :: 0 <= j < |p| ==> !OccursAt(s, sep, j))
      && (p == s || OccursAt(s, sep, |p|))
      && (p == s <==> !Contains(s, sep))
  {
    SplitPiecesAvoidSeparator(s, sep);
  }

  /** An occurrence of `t` starting inside the first piece of a split on a
      separator `t` shares no character with lies inside that piece. */
  lemma OccursInFirstPiece(s: string, sep: string, t: string, j: int)
    requires |sep| > 0 && |t| > 0
    requires forall c :: c in sep ==> c !in t
    requires 0 <= j < |Split(s, sep)[0]|
    ensures OccursAt(s, t, j) ==> OccursAt(Split(s, sep)[0], t, j)
  {
    var a := Split(s, sep)[0];
    SplitFirstPiece(s, sep);
    if j + |t| <= |a| {
      OccursInPrefix(s, |a|, t, j);
    } else if a != s {
      assert s == a + sep + s[|a| + |sep|..];
      NoStraddle(a, sep, s[|a| + |sep|..], t, j);
    }
  }

  /** The second piece, when there is one, is the text after the first
      occurrence of the separator up to the next one (or the end). */
  lemma SplitSecondPiece(s: string, sep: string)
    requires |sep| > 0
    requires Contains(s, sep)
    ensures var i := IndexOf(s, sep).value;
      && |Split(s, sep)| >= 2
      && Split(s, sep)[1] == Split(s[i + |sep|..], sep)[0]
  {
    SplitUnfold(s, sep);
  }

  /** One step of `split`: the text before the first occurrence, then the
      pieces of the rest. */
  lemma SplitUnfold(s: string, sep: string)
    requires |sep| > 0
    ensures IndexOf(s, sep).None? ==> Split(s, sep) == [s]
    ensures IndexOf(s, sep).Some? ==>
      var i := IndexOf(s, sep).value;
      Split(s, sep) == [s[..i]] + Split(s[i + |sep|..], sep)
  {
  }

  /** `t` cannot occur across a block `d` none of whose characters it uses. */
  lemma NoStraddle(a: string, d: string, b: string, t: string, j: int)
    requires |d| > 0 && |t| > 0
    requires forall c :: c in d ==> c !in t
    requires 0 <= j < |a| + |d| && j + |t| > |a|
    ensures !OccursAt(a + d + b, t, j)
  {
    var s := a + d + b;
    var p := if j < |a| then |a| else j;
    if j + |t| <= |s| {
      var c := s[j..j + |t|][p - j];
      assert c == d[p - |a|];
      assert c !in t;
      assert c in s[j..j + |t|];
    }
  }

  /** Occurrences in `x + b` at or past `|x|` are the occurrences in `b`. */
  lemma OccursAfterPrefix(x: string, b: string, t: string, k: int)
    requires 0 <= k
    ensures OccursAt(x + b, t, |x| + k) <==> OccursAt(b, t, k)
  {
    if 0 <= k && k + |t| <= |b| {
      assert (x + b)[|x| + k..|x| + k + |t|] == b[k..k + |t|];
    }
  }

  /** With no occurrence starting inside `x`, the first occurrence in
      `x + b` is the first occurrence in `b`, shifted by `|x|`. */
  lemma IndexOfAfterPrefix(x: string, b: string, t: string)
    requires forall j :: 0 <= j < |x| ==> !OccursAt(x + b, t, j)
    ensures IndexOf(b, t).None? ==> IndexOf(x + b, t).None?
    ensures IndexOf(b, t).Some? ==> IndexOf(x + b, t) == Some(|x| + IndexOf(b, t).value)
  {
    var s := x + b;
    var r := IndexOf(b, t);
    if r.None? {
      forall j | 0 <= j <= |s| - |t|
        ensures !OccursAt(s, t, j)
      {
        if j >= |x| {
          OccursAfterPrefix(x, b, t, j - |x|);
        }
      }
    } else {
      var k := r.value;
      OccursAfterPrefix(x, b, t, k);
      forall j | 0 <= j < |x| + k
        ensures !OccursAt(s, t, j)
      {
        if j >= |x| {
          OccursAfterPrefix(x, b, t, j - |x|);
        }
      }
      IndexOfIsFirst(s, t, |x| + k);
    }
  }

  /** A prefix holding no occurrence start does not change the count. */
  lemma {:induction false} CountSkip(x: string, b: string, t: string)
    requires |t| > 0
    requires forall j :: 0 <= j < |x| ==> !OccursAt(x + b, t, j)
    ensures Count(x + b, t) == Count(b, t)
  {
    IndexOfAfterPrefix(x, b, t);
    if IndexOf(b, t).None? {
      CountNone(x + b, t);
      CountNone(b, t);
    } else {
      var k := IndexOf(b, t).value;
      CountSame(x + b, |x| + k, b, k, t);
    }
  }

  /** Two strings whose first occurrences are followed by the same text
      count the same. */
  lemma CountSame(s: string, i: nat, b: string, k: nat, t: string)
    requires |t| > 0
    requires IndexOf(s, t) == Some(i) && IndexOf(b, t) == Some(k)
    requires s[i + |t|..] == b[k + |t|..]
    ensures Count(s, t) == Count(b, t)
  {
    CountStep(s, t, i);
    CountStep(b, t, k);
  }

  /** Counting `t` over `a + d + b`, where `t` shares no character with the
      non-empty block `d`, counts `a` and `b` separately. */
  lemma {:induction false} CountAcrossBlock(a: string, d: string, b: string, t: string)
    requires |d| > 0 && |t| > 0
    requires forall c :: c in d ==> c !in t
    ensures Count(a + d + b, t) == Count(a, t) + Count(b, t)
    decreases |a|
  {
    var s := a + d + b;
    match IndexOf(a, t)
    case Some(i) =>
      assert s[i..i + |t|] == a[i..i + |t|];
      forall j | 0 <= j < i
        ensures !OccursAt(s, t, j)
      {
        if j + |t| <= |a| {
          assert s[j..j + |t|] == a[j..j + |t|];
          assert !OccursAt(a, t, j);
        } else {
          NoStraddle(a, d, b, t, j);
        }
      }
      IndexOfIsFirst(s, t, i);
      assert s[i + |t|..] == a[i + |t|..] + d + b;
      CountAcrossBlock(a[i + |t|..], d, b, t);
      CountStep(s, t, i);
      CountStep(a, t, i);
    case None =>
      forall j | 0 <= j < |a + d|
        ensures !OccursAt((a + d) + b, t, j)
      {
        assert (a + d) + b == s;
        if j + |t| <= |a| {
          assert s[j..j + |t|] == a[j..j + |t|];
          assert OccursAt(s, t, j) ==> OccursAt(a, t, j);
        } else {
          NoStraddle(a, d, b, t, j);
        }
      }
      CountSkip(a + d, b, t);
      assert (a + d) + b == s;
  }

  /** `t` cannot occur in `a + d + b` without occurring in `a` or in `b` when
      it shares no character with the non-empty block `d`. */
  lemma ContainsAcrossBlock(a: string, d: string, b: string, t: string)
    requires |d| > 0 && |t| > 0
    requires forall c :: c in d ==> c !in t
    requires !Contains(a, t) && !Contains(b, t)
    ensures !Contains(a + d + b, t)
  {
    var s := a + d + b;
    forall j | 0 <= j <= |s| - |t|
      ensures !OccursAt(s, t, j)
    {
      if j + |t| <= |a| {
        assert s[j..j + |t|] == a[j..j + |t|];
        assert !OccursAt(a, t, j);
      } else if j < |a| + |d| {
        NoStraddle(a, d, b, t, j);
      } else {
        OccursAfterPrefix(a + d, b, t, j - |a + d|);
        assert (a + d) + b == s;
        assert !OccursAt(b, t, j - |a + d|);
      }
    }
  }

  /** Joining strings free of `t` with a separator sharing no character with
      `t` produces a string free of `t`. */
  lemma {:induction false} JoinAvoids(xs: seq<string>, sep: string, t: string)
    requires |sep| > 0 && |t| > 0
    requires forall c :: c in sep ==> c !in t
    requires forall k :: 0 <= k < |xs| ==> !Contains(xs[k], t)
    ensures !Contains(Join(xs, sep), t)
    decreases |xs|
  {
    if |xs| == 0 {
      assert !OccursAt("", t, 0);
    } else if |xs| > 1 {
      JoinAvoids(xs[1..], sep, t);
      ContainsAcrossBlock(xs[0], sep, Join(xs[1..], sep), t);
    }
  }

  /** A one-character string occurs exactly when the character does. */
  lemma ContainsChar(s: string, c: char)
    ensures Contains(s, [c]) <==> c in s
  {
    if c in s {
      var j :| 0 <= j < |s| && s[j] == c;
      assert OccursAt(s, [c], j);
    }
    if Contains(s, [c]) {
      var j :| 0 <= j <= |s| - 1 && OccursAt(s, [c], j);
      assert s[j..j + 1][0] == s[j];
    }
  }

  /** Splitting strings joined by a one-character separator they do not
      contain gives the strings back: the converse of `SplitJoin`. */
  lemma {:induction false} JoinSplit(xs: seq<string>, c: char)
    requires |xs| >= 1
    requires forall k :: 0 <= k < |xs| ==> c !in xs[k]
    ensures Split(Join(xs, [c]), [c]) == xs
    decreases |xs|
  {
    if |xs| == 1 {
      ContainsChar(xs[0], c);
      SplitUnfold(xs[0], [c]);
    } else {
      JoinSplitStep(xs[0], Join(xs[1..], [c]), c);
      JoinSplit(xs[1..], c);
      assert xs == [xs[0]] + xs[1..];
    }
  }

  /** Splitting `x + [c] + rest` on `c`, for an `x` free of `c`, cuts off
      exactly `x`. */
  lemma JoinSplitStep(x: string, rest: string, c: char)
    requires c !in x
    ensures Split(x + [c] + rest, [c]) == [x] + Split(rest, [c])
  {
    var s := x + [c] + rest;
    var n := |x|;
    assert OccursAt(s, [c], n) by {
      assert s[n..n + 1] == [c];
    }
    forall j | 0 <= j < n
      ensures !OccursAt(s, [c], j)
    {
      assert s[j..j + 1][0] == x[j];
    }
    IndexOfIsFirst(s, [c], n);
    SplitUnfold(s, [c]);
    assert s[..n] == x;
    assert s[n + 1..] == rest;
  }

  /** `s.endsWith(suffix)`. */
  predicate EndsWith(s: string, suffix: string) {
    |suffix| <= |s| && s[|s| - |suffix|..] == suffix
  }

  /** The characters `String.prototype.trim` removes: ECMAScript WhiteSpace
      (tab, vertical tab, form feed, the byte-order mark and every space
      separator) and LineTerminator (LF, CR, LS, PS). */
  predicate IsWhitespace(c: char) {
    || c == '\t' || c == '\n' || c == '\U{000B}' || c == '\U{000C}' || c == '\r'
    || c == ' ' || c == '\U{00A0}' || c == '\U{1680}'
    || ('\U{2000}' <= c <= '\U{200A}')
    || c == '\U{2028}' || c == '\U{2029}' || c == '\U{202F}' || c == '\U{205F}'
    || c == '\U{3000}' || c == '\U{FEFF}'
  }

  /** The end of the whitespace run that starts at `i`. */
  function WhitespaceRunFrom(s: string, i: nat): (j: nat)
    requires i <= |s|
    ensures i <= j <= |s|
    ensures forall k :: i <= k < j ==> IsWhitespace(s[k])
    ensures j < |s| ==> !IsWhitespace(s[j])
    decreases |s| - i
  {
    if i < |s| && IsWhitespace(s[i]) then WhitespaceRunFrom(s, i + 1) else i
  }

  /** The start of the whitespace run that ends at `j`, looking no further
      back than `lo`. */
  function WhitespaceRunBefore(s: string, lo: nat, j: nat): (i: nat)
    requires lo <= j <= |s|
    ensures lo <= i <= j
    ensures forall k :: i <= k < j ==> IsWhitespace(s[k])
    ensures lo < i ==> !IsWhitespace(s[i - 1])
    decreases j - lo
  {
    if lo < j && IsWhitespace(s[j - 1]) then WhitespaceRunBefore(s, lo, j - 1) else j
  }

  /** The number of leading characters `trim` removes. */
  function LeadingWhitespace(s: string): (n: nat)
    ensures n <= |s|
    ensures forall k :: 0 <= k < n ==> IsWhitespace(s[k])
    ensures n < |s| ==> !IsWhitespace(s[n])
  {
    WhitespaceRunFrom(s, 0)
  }

  /** `s.trim()`: `s` with its whitespace ends removed. The result occurs in
      `s` right after the leading whitespace, only whitespace follows it, and
      it is either empty or starts and ends with a non-whitespace
      character. */
  function Trim(s: string): (r: string)
    ensures OccursAt(s, r, LeadingWhitespace(s))
    ensures Contains(s, r)
    ensures forall k :: LeadingWhitespace(s) + |r| <= k < |s| ==> IsWhitespace(s[k])
    ensures r == [] || (!IsWhitespace(r[0]) && !IsWhitespace(r[|r| - 1]))
  {
    var lo := LeadingWhitespace(s);
    var hi := WhitespaceRunBefore(s, lo, |s|);
    assert s[lo..lo + (hi - lo)] == s[lo..hi];
    assert OccursAt(s, s[lo..hi], lo);
    s[lo..hi]
  }

  /** Trimming twice is trimming once. */
  lemma TrimIdempotent(s: string)
    ensures Trim(Trim(s)) == Trim(s)
  {
    var r := Trim(s);
    assert LeadingWhitespace(r) == 0;
    assert WhitespaceRunBefore(r, 0, |r|) == |r|;
    assert r[0..|r|] == r;
  }
}
