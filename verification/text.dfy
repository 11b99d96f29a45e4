/**
  String operations with JavaScript semantics: `String.prototype.split` on a
  single-character separator, `Array.prototype.join`, and the `<` order on
  strings. Strings are sequences of characters.
 */
module Text {

  /** The separator of the segments of node ids and endpoint labels. */
  const Tab: char := '\t'

  /**
    `s.split(sep)`: the maximal separator-free pieces of `s`, in order. There
    is always at least one piece (`"".split(sep)` is `[""]`), and exactly one
    when `s` has no separator.
   */
  function Split(s: string, sep: char): (r: seq<string>)
    ensures |r| >= 1
    ensures forall i :: 0 <= i < |r| ==> sep !in r[i]
    ensures |r| == 1 <==> sep !in s
    decreases |s|
  {
    if |s| == 0 then [""]
    else
      var rest := Split(s[1..], sep);
      assert sep in s <==> s[0] == sep || sep in s[1..] by {
        assert s == [s[0]] + s[1..];
      }
      if s[0] == sep then [""] + rest
      else [[s[0]] + rest[0]] + rest[1..]
  }

  /** `parts.join(sep)`: the parts with one separator between neighbours; `[].join(sep)` is `""`. */
  function Join(parts: seq<string>, sep: char): string
    decreases |parts|
  {
    if |parts| == 0 then ""
    else if |parts| == 1 then parts[0]
    else parts[0] + [sep] + Join(parts[1..], sep)
  }

  /** Splitting and joining back with the same separator gives the original string. */
  lemma {:induction false} JoinSplit(s: string, sep: char)
    ensures Join(Split(s, sep), sep) == s
    decreases |s|
  {
    if |s| > 0 {
      var rest := Split(s[1..], sep);
      JoinSplit(s[1..], sep);
      if s[0] == sep {
        assert ([""] + rest)[1..] == rest;
      } else {
        JoinPrependChar(rest, s[0], sep);
      }
    }
  }

  lemma JoinPrependChar(parts: seq<string>, c: char, sep: char)
    requires |parts| >= 1
    ensures Join([[c] + parts[0]] + parts[1..], sep) == [c] + Join(parts, sep)
  {
    var q := [[c] + parts[0]] + parts[1..];
    if |parts| > 1 {
      assert q[1..] == parts[1..];
    }
  }

  /** Splitting at a separator splits the two sides independently. */
  lemma {:induction false} SplitConcat(a: string, b: string, sep: char)
    ensures Split(a + [sep] + b, sep) == Split(a, sep) + Split(b, sep)
    decreases |a|
  {
    if |a| == 0 {
      assert a + [sep] + b == [sep] + b;
      SplitCons(sep, b, sep);
    } else {
      SplitConcat(a[1..], b, sep);
      SplitConcatStep(a, b, sep);
    }
  }

  /** The inductive step of `SplitConcat`: peel off the first character of `a`. */
  lemma SplitConcatStep(a: string, b: string, sep: char)
    requires |a| > 0
    requires Split(a[1..] + [sep] + b, sep) == Split(a[1..], sep) + Split(b, sep)
    ensures Split(a + [sep] + b, sep) == Split(a, sep) + Split(b, sep)
  {
    var c, t := a[0], a[1..];
    var u := t + [sep] + b;
    assert a + [sep] + b == [c] + u;
    assert a == [c] + t;
    if c == sep {
      SplitConcatSeparatorFirst(t, u, b, sep);
    } else {
      SplitConcatOtherFirst(c, t, u, b, sep);
    }
  }

  lemma SplitConcatSeparatorFirst(t: string, u: string, b: string, sep: char)
    requires Split(u, sep) == Split(t, sep) + Split(b, sep)
    ensures Split([sep] + u, sep) == Split([sep] + t, sep) + Split(b, sep)
  {
    SplitCons(sep, u, sep);
    SplitCons(sep, t, sep);
  }

  lemma SplitConcatOtherFirst(c: char, t: string, u: string, b: string, sep: char)
    requires c != sep
    requires Split(u, sep) == Split(t, sep) + Split(b, sep)
    ensures Split([c] + u, sep) == Split([c] + t, sep) + Split(b, sep)
  {
    SplitCons(c, u, sep);
    SplitCons(c, t, sep);
    PrependToFirst(c, Split(u, sep), Split(t, sep), Split(b, sep));
  }

  /** Extending the first piece of a concatenation extends the first piece of its left part. */
  lemma PrependToFirst(c: char, whole: seq<string>, left: seq<string>, right: seq<string>)
    requires |left| >= 1 && whole == left + right
    ensures [[c] + whole[0]] + whole[1..] == [[c] + left[0]] + left[1..] + right
  {
    assert whole[1..] == left[1..] + right;
  }

  /** How splitting sees the first character. */
  lemma SplitCons(c: char, t: string, sep: char)
    ensures Split([c] + t, sep) ==
      if c == sep then [""] + Split(t, sep) else [[c] + Split(t, sep)[0]] + Split(t, sep)[1..]
  {
    assert ([c] + t)[1..] == t;
  }

  /** A separator-free string splits into itself. */
  lemma SplitNoSeparator(s: string, sep: char)
    requires sep !in s
    ensures Split(s, sep) == [s]
  {
    JoinSplit(s, sep);
  }

  /** Joining separator-free parts and splitting again gives back the parts. */
  lemma {:induction false} SplitJoin(parts: seq<string>, sep: char)
    requires |parts| >= 1
    requires forall i :: 0 <= i < |parts| ==> sep !in parts[i]
    ensures Split(Join(parts, sep), sep) == parts
    decreases |parts|
  {
    SplitNoSeparator(parts[0], sep);
    if |parts| > 1 {
      SplitJoin(parts[1..], sep);
      SplitConcat(parts[0], Join(parts[1..], sep), sep);
      assert [parts[0]] + parts[1..] == parts;
    }
  }

  /**
    A string with a separator splits into at least two pieces; the first two,
    rejoined with the separator, begin the string, are followed by a separator
    whenever anything follows them, and are all of it when no further
    separator follows.
   */
  lemma SplitFirstTwo(s: string, sep: char)
    requires sep in s
    ensures |Split(s, sep)| >= 2
    ensures Split(s, sep)[0] + [sep] + Split(s, sep)[1] <= s
    ensures var n := |Split(s, sep)[0] + [sep] + Split(s, sep)[1]|;
      sep !in s[n..] ==> Split(s, sep)[0] + [sep] + Split(s, sep)[1] == s
    ensures var n := |Split(s, sep)[0] + [sep] + Split(s, sep)[1]|;
      n < |s| ==> s[n] == sep
  {
    var parts := Split(s, sep);
    var head := parts[0] + [sep] + parts[1];
    var rest := Join(parts[1..], sep);
    JoinSplit(s, sep);
    assert s == parts[0] + [sep] + rest;
    JoinPrefix(parts[1..], 1, sep);
    assert parts[1..][..1] == [parts[1]];
    assert parts[1] <= rest;
    if |parts| > 2 {
      assert parts[1..][1..] == parts[2..];
      assert rest == parts[1] + [sep] + Join(parts[2..], sep);
      assert s[|head|] == sep;
    }
  }

  /** Joining a non-empty prefix of the parts gives a prefix of the whole join. */
  lemma {:induction false} JoinPrefix(parts: seq<string>, k: nat, sep: char)
    requires 1 <= k <= |parts|
    ensures Join(parts[..k], sep) <= Join(parts, sep)
    decreases k
  {
    if k > 1 {
      assert parts[..k][1..] == parts[1..][..k - 1];
      JoinPrefix(parts[1..], k - 1, sep);
    } else if |parts| > 1 {
      assert parts[..k] == [parts[0]];
    }
  }

  /** A join of several parts ends with a separator followed by the last part. */
  lemma {:induction false} JoinLast(parts: seq<string>, sep: char)
    requires |parts| >= 2
    ensures Join(parts, sep) == Join(parts[..|parts| - 1], sep) + [sep] + parts[|parts| - 1]
    decreases |parts|
  {
    if |parts| > 2 {
      JoinLast(parts[1..], sep);
      assert parts[1..][..|parts| - 2] == parts[..|parts| - 1][1..];
    }
  }

  /**
    The last `sep`-separated segment of `s` (`split[split.length - 1]`): the
    longest separator-free suffix of `s`.
   */
  function LastSegment(s: string, sep: char): (r: string)
    ensures sep !in r
    ensures |r| <= |s| && s[|s| - |r|..] == r
    ensures |r| < |s| ==> s[|s| - |r| - 1] == sep
    ensures sep !in s ==> r == s
  {
    var parts := Split(s, sep);
    JoinSplit(s, sep);
    if |parts| >= 2 then
      JoinLast(parts, sep);
      parts[|parts| - 1]
    else
      parts[0]
  }

  /**
    The first `k` segments of `s`, joined back with the separator
    (`s.split(sep).slice(0, k).join(sep)`).
   */
  function TakeSegments(s: string, sep: char, k: nat): (r: string)
    requires k >= 1
    ensures r <= s
    ensures |Split(r, sep)| <= k
    ensures |Split(r, sep)| <= |Split(s, sep)| && Split(r, sep) == Split(s, sep)[..|Split(r, sep)|]
    ensures |Split(s, sep)| <= k ==> r == s
    ensures |Split(s, sep)| > k ==> |Split(r, sep)| == k
  {
    var parts := Split(s, sep);
    var n := if k < |parts| then k else |parts|;
    JoinSplit(s, sep);
    JoinPrefix(parts, n, sep);
    SplitJoin(parts[..n], sep);
    assert parts[..|parts|] == parts;
    Join(parts[..n], sep)
  }

  /** JavaScript's `a < b` on strings: lexicographic comparison of characters. */
  predicate LexLess(a: string, b: string)
    decreases |a|
  {
    if |a| == 0 then |b| > 0
    else if |b| == 0 then false
    else if a[0] != b[0] then a[0] < b[0]
    else LexLess(a[1..], b[1..])
  }

  /** `<` on strings is a strict total order. */
  lemma {:induction false} LexLessIrreflexive(a: string)
    ensures !LexLess(a, a)
    decreases |a|
  {
    if |a| > 0 {
      LexLessIrreflexive(a[1..]);
    }
  }

  lemma {:induction false} LexLessAsymmetric(a: string, b: string)
    requires LexLess(a, b)
    ensures !LexLess(b, a)
    decreases |a|
  {
    if |a| > 0 && |b| > 0 && a[0] == b[0] {
      LexLessAsymmetric(a[1..], b[1..]);
    }
  }

  lemma {:induction false} LexLessTotal(a: string, b: string)
    requires a != b
    ensures LexLess(a, b) || LexLess(b, a)
    decreases |a|
  {
    if |a| > 0 && |b| > 0 && a[0] == b[0] {
      assert a == [a[0]] + a[1..] && b == [b[0]] + b[1..];
      LexLessTotal(a[1..], b[1..]);
    }
  }

  lemma {:induction false} LexLessTransitive(a: string, b: string, c: string)
    requires LexLess(a, b) && LexLess(b, c)
    ensures LexLess(a, c)
    decreases |a|
  {
    if |a| > 0 && a[0] == b[0] && b[0] == c[0] {
      LexLessTransitive(a[1..], b[1..], c[1..]);
    }
  }
}
