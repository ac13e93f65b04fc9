/** Rust's `str::split` with a non-empty string pattern, as the command parser
    uses it (`message.split(". ")`, `tags.split(", ")`): the text is cut at the
    leftmost non-overlapping occurrences of the separator, scanning left to
    right, and every piece, empty ones included, is kept. `Join` is the
    reference partner (`[..].join(sep)`) the round-trip lemmas are stated with. */
module Splitting {
  import opened Options

  /** `sep` occurs in `s` starting at index `j`. */
  predicate OccursAt(s: string, sep: string, j: int) {
    0 <= j && j + |sep| <= |s| && s[j..j + |sep|] == sep
  }

  predicate Contains(s: string, sep: string) {
    exists j | 0 <= j <= |s| :: OccursAt(s, sep, j)
  }

  /** A separator with no proper prefix that is also a suffix: two of its
      occurrences can never overlap, nor can one straddle a join point. */
  predicate Unbordered(sep: string) {
    forall k :: 0 < k < |sep| ==> sep[..k] != sep[|sep| - k..]
  }

  /** The leftmost occurrence of `sep` in `s` at or after index `i`. */
  function FindFrom(s: string, sep: string, i: nat): (r: Option<nat>)
    requires |sep| > 0
    decreases |s| - i
    ensures r.Some? ==> i <= r.value && OccursAt(s, sep, r.value)
    ensures r.Some? ==> forall j :: i <= j < r.value ==> !OccursAt(s, sep, j)
    ensures r.None? ==> forall j :: i <= j ==> !OccursAt(s, sep, j)
  {
    if i + |sep| > |s| then None
    else if s[i..i + |sep|] == sep then Some(i)
    else FindFrom(s, sep, i + 1)
  }

  /** The leftmost occurrence of `sep` in `s`, if any. */
  function Find(s: string, sep: string): (r: Option<nat>)
    requires |sep| > 0
    ensures r.None? <==> !Contains(s, sep)
    ensures r.Some? ==> OccursAt(s, sep, r.value)
    ensures r.Some? ==> forall j :: 0 <= j < r.value ==> !OccursAt(s, sep, j)
  {
    FindFrom(s, sep, 0)
  }

  /** `s.split(sep).collect::<Vec<_>>()`. */
  function Split(s: string, sep: string): (r: seq<string>)
    requires |sep| > 0
    decreases |s|
    ensures |r| >= 1
    ensures |r| == 1 <==> !Contains(s, sep)
    ensures |r| == 1 ==> r[0] == s
  {
    match Find(s, sep)
    case None => [s]
    case Some(i) => [s[..i]] + Split(s[i + |sep|..], sep)
  }

  /** `parts.join(sep)`. */
  function Join(parts: seq<string>, sep: string): string {
    if |parts| == 0 then ""
    else if |parts| == 1 then parts[0]
    else parts[0] + sep + Join(parts[1..], sep)
  }

  /** One step of `Split`: the piece before the leftmost separator, then the
      split of the text after it. */
  lemma SplitStep(s: string, sep: string, i: nat)
    requires |sep| > 0 && Find(s, sep) == Some(i)
    ensures i + |sep| <= |s|
    ensures s == s[..i] + sep + s[i + |sep|..]
    ensures Split(s, sep) == [s[..i]] + Split(s[i + |sep|..], sep)
  {
    assert s[i..i + |sep|] == sep;
  }

  /** `Join` of a piece followed by at least one more. */
  lemma JoinCons(x: string, t: seq<string>, sep: string)
    requires |t| >= 1
    ensures Join([x] + t, sep) == x + sep + Join(t, sep)
  {
    assert ([x] + t)[1..] == t;
  }

  /** Joining the pieces back with the separator gives the original text:
      nothing is trimmed or dropped by the split. */
  lemma {:induction false} JoinSplit(s: string, sep: string)
    requires |sep| > 0
    ensures Join(Split(s, sep), sep) == s
    decreases |s|
  {
    var f := Find(s, sep);
    if f.Some? {
      var i := f.value;
      var rest := s[i + |sep|..];
      SplitStep(s, sep, i);
      JoinCons(s[..i], Split(rest, sep), sep);
      JoinSplit(rest, sep);
    }
  }

  /** An occurrence that ends within the first `n` characters of `s` is an
      occurrence in `s[..n]`, and conversely. */
  lemma OccursInPrefix(s: string, sep: string, n: nat, j: int)
    requires n <= |s| && 0 <= j && j + |sep| <= n
    ensures OccursAt(s, sep, j) <==> OccursAt(s[..n], sep, j)
  {
    assert s[..n][j..j + |sep|] == s[j..j + |sep|];
  }

  /** No piece of a split contains the separator. */
  lemma {:induction false} SplitPiecesSeparatorFree(s: string, sep: string)
    requires |sep| > 0
    ensures forall k :: 0 <= k < |Split(s, sep)| ==> !Contains(Split(s, sep)[k], sep)
    decreases |s|
  {
    var f := Find(s, sep);
    if f.Some? {
      var i := f.value;
      var rest := s[i + |sep|..];
      SplitStep(s, sep, i);
      SplitPiecesSeparatorFree(rest, sep);
      forall j | 0 <= j <= i
        ensures !OccursAt(s[..i], sep, j)
      {
        if j + |sep| <= i {
          OccursInPrefix(s, sep, i, j);
        }
      }
    }
  }

  /** An occurrence at `i` with none before it is what `Find` returns. */
  lemma FindIsLeftmost(s: string, sep: string, i: nat)
    requires |sep| > 0 && OccursAt(s, sep, i)
    requires forall j :: 0 <= j < i ==> !OccursAt(s, sep, j)
    ensures Find(s, sep) == Some(i)
  {
    var r := Find(s, sep);
    assert r.Some?;
    assert !(r.value < i);
    assert !(i < r.value);
  }

  /** Appending text does not move the leftmost occurrence of the separator. */
  lemma FindExtends(a: string, x: string, sep: string)
    requires |sep| > 0 && Find(a, sep).Some?
    ensures Find(a + x, sep) == Find(a, sep)
  {
    var i := Find(a, sep).value;
    assert (a + x)[i..i + |sep|] == a[i..i + |sep|];
    forall j | 0 <= j < i
      ensures !OccursAt(a + x, sep, j)
    {
      OccursInPrefix(a + x, sep, |a|, j);
      assert (a + x)[..|a|] == a;
    }
    FindIsLeftmost(a + x, sep, i);
  }

  /** An occurrence that starts inside `a` and ends inside the separator
      written after it makes a proper prefix of the separator equal to a
      suffix of it. */
  lemma StraddleIsBorder(a: string, sep: string, b: string, j: nat)
    requires OccursAt(a + sep + b, sep, j) && j < |a| < j + |sep|
    ensures var m := |sep| - (|a| - j); 0 < m < |sep| && sep[..m] == sep[|sep| - m..]
  {
    var s := a + sep + b;
    var k := |a| - j;
    var m := |sep| - k;
    forall t | 0 <= t < m
      ensures sep[..m][t] == sep[|sep| - m..][t]
    {
      assert s[j..j + |sep|][k + t] == s[|a| + t];
    }
  }

  /** With an unbordered separator, an occurrence of it cannot start inside a
      separator-free `a`, whether it would end inside `a` or run into the
      separator written after `a`. */
  lemma NoStraddle(a: string, sep: string, b: string, j: nat)
    requires |sep| > 0 && Unbordered(sep) && !Contains(a, sep)
    requires j < |a|
    ensures !OccursAt(a + sep + b, sep, j)
  {
    var s := a + sep + b;
    if j + |sep| <= |a| {
      OccursInPrefix(s, sep, |a|, j);
      assert s[..|a|] == a;
      assert !OccursAt(a, sep, j);
    } else if OccursAt(s, sep, j) {
      StraddleIsBorder(a, sep, b, j);
    }
  }

  /** After a separator-free `a`, the first occurrence is the separator that
      follows it. */
  lemma FindAfterFree(a: string, sep: string, b: string)
    requires |sep| > 0 && Unbordered(sep) && !Contains(a, sep)
    ensures Find(a + sep + b, sep) == Some(|a|)
  {
    var s := a + sep + b;
    assert s[|a|..|a| + |sep|] == sep;
    forall j | 0 <= j < |a|
      ensures !OccursAt(s, sep, j)
    {
      NoStraddle(a, sep, b, j);
    }
    FindIsLeftmost(s, sep, |a|);
  }

  /** A separator-free `a` followed by the separator is cut off as one piece. */
  lemma SplitAfterFree(a: string, sep: string, b: string)
    requires |sep| > 0 && Unbordered(sep) && !Contains(a, sep)
    ensures Split(a + sep + b, sep) == [a] + Split(b, sep)
  {
    var s := a + sep + b;
    FindAfterFree(a, sep, b);
    SplitStep(s, sep, |a|);
    assert s[..|a|] == a;
    assert s[|a| + |sep|..] == b;
  }

  /** Cutting `a + sep + b` at a separator that lies inside `a`. */
  lemma ConcatSlices(a: string, sep: string, b: string, i: nat)
    requires i + |sep| <= |a|
    ensures (a + sep + b)[..i] == a[..i]
    ensures (a + sep + b)[i + |sep|..] == a[i + |sep|..] + sep + b
  {
  }

  /** When `a` holds the separator, `a + sep + b` is cut where `a` is, and
      what remains is the rest of `a`, the separator and `b`. */
  lemma SplitBeforeJoinPoint(a: string, sep: string, b: string, i: nat)
    requires |sep| > 0 && Find(a, sep) == Some(i)
    ensures i + |sep| <= |a|
    ensures Split(a + sep + b, sep) == [a[..i]] + Split(a[i + |sep|..] + sep + b, sep)
  {
    FindExtends(a, sep, sep);
    FindExtends(a + sep, b, sep);
    ConcatSlices(a, sep, b, i);
    SplitStep(a + sep + b, sep, i);
  }

  lemma ConsAppend(x: string, p: seq<string>, q: seq<string>)
    ensures [x] + (p + q) == [x] + p + q
  {
  }

  /** With an unbordered separator, splitting distributes over a join point. */
  lemma {:induction false} SplitConcat(a: string, sep: string, b: string)
    requires |sep| > 0 && Unbordered(sep)
    ensures Split(a + sep + b, sep) == Split(a, sep) + Split(b, sep)
    decreases |a|
  {
    var f := Find(a, sep);
    if f.None? {
      SplitAfterFree(a, sep, b);
    } else {
      var i := f.value;
      var rest := a[i + |sep|..];
      SplitStep(a, sep, i);
      SplitBeforeJoinPoint(a, sep, b, i);
      SplitConcat(rest, sep, b);
      ConsAppend(a[..i], Split(rest, sep), Split(b, sep));
    }
  }

  /** With an unbordered separator, splitting a join of separator-free pieces
      gives those pieces back. */
  lemma {:induction false} SplitJoin(parts: seq<string>, sep: string)
    requires |sep| > 0 && Unbordered(sep) && |parts| >= 1
    requires forall k :: 0 <= k < |parts| ==> !Contains(parts[k], sep)
    ensures Split(Join(parts, sep), sep) == parts
  {
    if |parts| > 1 {
      SplitJoin(parts[1..], sep);
      SplitConcat(parts[0], sep, Join(parts[1..], sep));
    }
  }

  /** With an unbordered separator, two separator-free texts joined by it
      split back into those two texts. */
  lemma SplitTwo(x: string, sep: string, y: string)
    requires |sep| > 0 && Unbordered(sep)
    requires !Contains(x, sep) && !Contains(y, sep)
    ensures Split(x + sep + y, sep) == [x, y]
  {
    SplitAfterFree(x, sep, y);
  }

  /** A text in which the separator's first two characters never appear side
      by side where an occurrence could start does not contain it. */
  lemma ContainsNeedsFirstTwoChars(s: string, sep: string)
    requires |sep| >= 2
    requires forall k :: 0 <= k && k + |sep| <= |s| ==> s[k] != sep[0] || s[k + 1] != sep[1]
    ensures !Contains(s, sep)
  {
    forall j | 0 <= j <= |s|
      ensures !OccursAt(s, sep, j)
    {
      if j + |sep| <= |s| {
        assert s[j..j + |sep|][0] == s[j];
        assert s[j..j + |sep|][1] == s[j + 1];
      }
    }
  }
}
