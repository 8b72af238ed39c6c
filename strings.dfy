/**
 * String helpers shared by the commit-graph model: Python's ordering of
 * `str` values (lexicographic by code point), `sorted`, `str.join` and
 * splitting text into lines.
 */
module Strings {

  /** Python's `a <= b` on two strings: lexicographic by character. */
  predicate LexLe(a: string, b: string)
    decreases |a|
  {
    |a| == 0 || (|b| > 0 && (a[0] < b[0] || (a[0] == b[0] && LexLe(a[1..], b[1..]))))
  }

  lemma {:induction false} LexLeTotal(a: string, b: string)
    ensures LexLe(a, b) || LexLe(b, a)
    decreases |a|
  {
    if |a| > 0 && |b| > 0 && a[0] == b[0] {
      LexLeTotal(a[1..], b[1..]);
    }
  }

  lemma {:induction false} LexLeAntisymmetric(a: string, b: string)
    requires LexLe(a, b) && LexLe(b, a)
    ensures a == b
    decreases |a|
  {
    if |a| > 0 {
      LexLeAntisymmetric(a[1..], b[1..]);
      assert a == [a[0]] + a[1..] && b == [b[0]] + b[1..];
    }
  }

  lemma {:induction false} LexLeTransitive(a: string, b: string, c: string)
    requires LexLe(a, b) && LexLe(b, c)
    ensures LexLe(a, c)
    decreases |a|
  {
    if |a| > 0 && a[0] == b[0] && b[0] == c[0] {
      LexLeTransitive(a[1..], b[1..], c[1..]);
    }
  }

  /** Every element is at most every later one. */
  predicate Sorted(s: seq<string>)
  {
    forall i, j :: 0 <= i < j < |s| ==> LexLe(s[i], s[j])
  }

  /** No value occurs twice. */
  predicate NoDup<T(==)>(s: seq<T>)
  {
    forall i, j :: 0 <= i < j < |s| ==> s[i] != s[j]
  }

  /** Concatenation regroups freely. */
  lemma Associative<T>(a: seq<T>, b: seq<T>, c: seq<T>)
    ensures a + b + c == a + (b + c)
  {
  }

  /** The empty sequence is the unit of concatenation. */
  lemma EmptyUnit<T>(s: seq<T>)
    ensures [] + s == s && s + [] == s
  {
  }

  lemma {:induction false} NoDupByMultiset<T>(s: seq<T>, t: seq<T>)
    requires NoDup(s) && multiset(s) == multiset(t)
    ensures NoDup(t)
  {
    forall i, j | 0 <= i < j < |t| ensures t[i] != t[j] {
      if t[i] == t[j] {
        var x := t[i];
        assert multiset(t[..i+1])[x] >= 1;
        assert t == t[..i+1] + t[i+1..];
        assert t[i+1..][j - i - 1] == x;
        assert multiset(t[i+1..])[x] >= 1;
        assert multiset(t)[x] >= 2;
        NoDupCountsAtMostOne(s, x);
        assert false;
      }
    }
  }

  lemma {:induction false} NoDupCountsAtMostOne<T>(s: seq<T>, x: T)
    requires NoDup(s)
    ensures multiset(s)[x] <= 1
    decreases |s|
  {
    if |s| > 0 {
      assert s == [s[0]] + s[1..];
      assert NoDup(s[1..]);
      NoDupCountsAtMostOne(s[1..], x);
      if s[0] == x {
        assert x !in s[1..];
      }
    }
  }

  /** A string no greater than every element of a sorted sequence can go in front of it. */
  lemma SortedCons(a: string, t: seq<string>)
    requires Sorted(t) && forall k :: 0 <= k < |t| ==> LexLe(a, t[k])
    ensures Sorted([a] + t)
  {
  }

  /** A string no greater than the first element of a sorted sequence is no greater than any. */
  lemma BelowFirst(s: seq<string>, x: string)
    requires Sorted(s) && s != [] && LexLe(x, s[0])
    ensures forall k :: 0 <= k < |s| ==> LexLe(x, s[k])
  {
    forall k | 0 <= k < |s| ensures LexLe(x, s[k]) {
      if k > 0 { LexLeTransitive(x, s[0], s[k]); }
    }
  }

  /** The first element of a sorted sequence bounds the rest of it with `x` added, when it bounds `x`. */
  lemma FirstBelowRest(s: seq<string>, x: string, rest: seq<string>)
    requires Sorted(s) && s != [] && LexLe(s[0], x)
    requires multiset(rest) == multiset(s[1..]) + multiset{x}
    ensures forall k :: 0 <= k < |rest| ==> LexLe(s[0], rest[k])
  {
    forall k | 0 <= k < |rest| ensures LexLe(s[0], rest[k]) {
      assert rest[k] in multiset(rest);
      if rest[k] != x {
        assert rest[k] in multiset(s[1..]);
        var m :| 0 <= m < |s[1..]| && s[1..][m] == rest[k];
        assert s[m + 1] == rest[k];
      }
    }
  }

  /** Inserts `x` into a sorted sequence, before the first element it does not exceed. */
  function Insert(s: seq<string>, x: string): (r: seq<string>)
    requires Sorted(s)
    ensures Sorted(r) && multiset(r) == multiset(s) + multiset{x}
    ensures |r| == |s| + 1
  {
    if s == [] then [x]
    else if LexLe(x, s[0]) then
      BelowFirst(s, x);
      SortedCons(x, s);
      [x] + s
    else
      var rest := Insert(s[1..], x);
      LexLeTotal(x, s[0]);
      assert s == [s[0]] + s[1..];
      FirstBelowRest(s, x, rest);
      SortedCons(s[0], rest);
      [s[0]] + rest
  }

  /** Python's `sorted` on a list of strings. */
  function SortStrings(s: seq<string>): (r: seq<string>)
    ensures Sorted(r) && multiset(r) == multiset(s)
    ensures |r| == |s|
  {
    if s == [] then []
    else
      assert s == [s[0]] + s[1..];
      Insert(SortStrings(s[1..]), s[0])
  }

  /** Python's `sep.join(xs)`. */
  function Join(xs: seq<string>, sep: string): string
  {
    if |xs| == 0 then ""
    else if |xs| == 1 then xs[0]
    else xs[0] + sep + Join(xs[1..], sep)
  }

  /** Index of the first `c` in `s`, or `|s|` when there is none. */
  function IndexOf(s: string, c: char): (i: nat)
    ensures i <= |s|
    ensures i < |s| ==> s[i] == c
    ensures forall k :: 0 <= k < i ==> s[k] != c
  {
    if s == [] then 0
    else if s[0] == c then 0
    else 1 + IndexOf(s[1..], c)
  }

  /** Splits `s` at every newline, like Python's `s.split("\n")`. */
  function SplitLines(s: string): (lines: seq<string>)
    ensures |lines| >= 1
    decreases |s|
  {
    var i := IndexOf(s, '\n');
    if i == |s| then [s] else [s[..i]] + SplitLines(s[i + 1..])
  }

  /** Splitting the newline-joined lines recovers the lines, when no line holds a newline. */
  lemma {:induction false} SplitJoin(lines: seq<string>)
    requires |lines| >= 1
    requires forall k :: 0 <= k < |lines| ==> '\n' !in lines[k]
    ensures SplitLines(Join(lines, "\n")) == lines
    decreases |lines|
  {
    var first := lines[0];
    if |lines| == 1 {
      assert IndexOf(first, '\n') == |first|;
    } else {
      var rest := Join(lines[1..], "\n");
      var text := first + "\n" + rest;
      assert Join(lines, "\n") == text;
      IndexOfConcat(first, rest);
      assert text[..|first|] == first;
      assert text[|first| + 1..] == rest;
      assert SplitLines(text) == [first] + SplitLines(rest);
      SplitJoin(lines[1..]);
      assert lines == [first] + lines[1..];
    }
  }

  lemma IndexOfConcat(a: string, b: string)
    requires '\n' !in a
    ensures IndexOf(a + "\n" + b, '\n') == |a|
  {
    assert (a + "\n" + b)[|a|] == '\n';
  }

  /** Joining groups and then joining the results equals joining their concatenation. */
  function Flatten(groups: seq<seq<string>>): seq<string>
  {
    if groups == [] then [] else groups[0] + Flatten(groups[1..])
  }

  lemma {:induction false} JoinConcat(xs: seq<string>, ys: seq<string>, sep: string)
    requires |xs| >= 1 && |ys| >= 1
    ensures Join(xs + ys, sep) == Join(xs, sep) + sep + Join(ys, sep)
    decreases |xs|
  {
    if |xs| == 1 {
      assert (xs + ys)[1..] == ys;
    } else {
      assert (xs + ys)[1..] == xs[1..] + ys;
      JoinConcat(xs[1..], ys, sep);
    }
  }
}
