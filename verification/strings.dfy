/** The .NET string operations the client relies on: ordinal `String.Replace` and
    `String.Join`, with the lemmas the path and parameter builders need. */
module Strings {
  import opened Wrappers

  /** `string.IsNullOrEmpty`. */
  predicate IsNullOrEmpty(s: Option<string>) {
    s.None? || s.value == ""
  }

  /** Ordinal `s.Replace(p, r)`: every non-overlapping occurrence of `p`, scanning left to
      right, is replaced by `r`. .NET rejects an empty `p`. */
  function Replace(s: string, p: string, r: string): (t: string)
    requires |p| > 0
    ensures |r| == |p| ==> |t| == |s|
    ensures r == p ==> t == s
    decreases |s|
  {
    if |s| < |p| then s
    else if s[..|p|] == p then r + Replace(s[|p|..], p, r)
    else [s[0]] + Replace(s[1..], p, r)
  }

  /** Replacing a pattern whose first character does not occur in `s` changes nothing. */
  lemma {:induction false} ReplaceAbsent(s: string, p: string, r: string)
    requires |p| > 0 && p[0] !in s
    ensures Replace(s, p, r) == s
  {
    if |s| >= |p| {
      assert s[..|p|][0] == s[0];
      ReplaceAbsent(s[1..], p, r);
    }
  }

  /** `p` starts at position `i` of `s`. */
  predicate OccursAt(s: string, p: string, i: int) {
    0 <= i && i + |p| <= |s| && s[i..i + |p|] == p
  }

  /** A text in which `p` never occurs is left unchanged. */
  lemma {:induction false} ReplaceNoOccurrence(s: string, p: string, r: string)
    requires |p| > 0
    requires forall i :: 0 <= i < |s| ==> !OccursAt(s, p, i)
    ensures Replace(s, p, r) == s
  {
    if |s| >= |p| {
      assert !OccursAt(s, p, 0);
      assert s[..|p|] == s[0..|p|];
      forall i | 0 <= i < |s[1..]| ensures !OccursAt(s[1..], p, i) {
        assert !OccursAt(s, p, i + 1);
        if i + |p| <= |s[1..]| {
          assert s[1..][i..i + |p|] == s[i + 1..i + 1 + |p|];
        }
      }
      ReplaceNoOccurrence(s[1..], p, r);
    }
  }

  /** A prefix that cannot start an occurrence is copied unchanged. */
  lemma {:induction false} ReplaceSkipsPrefix(a: string, s: string, p: string, r: string)
    requires |p| > 0 && p[0] !in a
    ensures Replace(a + s, p, r) == a + Replace(s, p, r)
  {
    if |a| > 0 {
      var t := a + s;
      assert t[1..] == a[1..] + s;
      ReplaceSkipsPrefix(a[1..], s, p, r);
      if |t| >= |p| {
        assert t[..|p|][0] == a[0];
        assert Replace(t, p, r) == [a[0]] + Replace(t[1..], p, r);
        assert [a[0]] + (a[1..] + Replace(s, p, r)) == a + Replace(s, p, r);
      } else {
        assert Replace(t, p, r) == t;
        assert Replace(s, p, r) == s;
      }
    } else {
      assert a + s == s;
    }
  }

  /** An occurrence at the front is replaced and scanning resumes after it. */
  lemma ReplaceAtFront(s: string, p: string, r: string)
    requires |p| > 0
    ensures Replace(p + s, p, r) == r + Replace(s, p, r)
  {
    var t := p + s;
    assert t[..|p|] == p;
    assert t[|p|..] == s;
  }

  /** A prefix that starts with the pattern's first character but differs from the pattern
      at position `k`, and holds no other such character, is copied unchanged. */
  lemma ReplaceSkipsMismatch(q: string, s: string, p: string, r: string, k: nat)
    requires 0 < k < |q| && k < |p| && q[k] != p[k] && p[0] !in q[1..]
    ensures Replace(q + s, p, r) == q + Replace(s, p, r)
  {
    var t := q + s;
    assert t[1..] == q[1..] + s;
    ReplaceSkipsPrefix(q[1..], s, p, r);
    if |t| >= |p| {
      assert t[..|p|][k] != p[k];
      assert [q[0]] + (q[1..] + Replace(s, p, r)) == q + Replace(s, p, r);
    } else {
      assert Replace(s, p, r) == s;
    }
  }

  /** A text that starts like the pattern but differs from it at position `k`, and holds
      no other occurrence of its first character, is left unchanged. */
  lemma ReplaceMismatchWhole(q: string, p: string, r: string, k: nat)
    requires 0 < k < |q| && k < |p| && q[k] != p[k] && p[0] !in q[1..]
    ensures Replace(q, p, r) == q
  {
    ReplaceSkipsMismatch(q, "", p, r, k);
    assert q + "" == q;
  }

  /** The first occurrence of a pattern, after a prefix and before a separator that hold
      none of its first character, is the one replaced; the rest is left as it is when it
      has no occurrence of its own. */
  lemma ReplaceSlot(pre: string, p: string, mid: string, rest: string, r: string)
    requires |p| > 0 && p[0] !in pre && p[0] !in mid && Replace(rest, p, r) == rest
    ensures Replace(pre + p + mid + rest, p, r) == pre + r + mid + rest
  {
    assert pre + p + mid + rest == pre + (p + (mid + rest));
    ReplaceSkipsPrefix(pre, p + (mid + rest), p, r);
    ReplaceAtFront(mid + rest, p, r);
    ReplaceSkipsPrefix(mid, rest, p, r);
    assert pre + (r + (mid + rest)) == pre + r + mid + rest;
  }

  /** Two texts of the form `a + [sep] + b` whose first parts hold no `sep` agree part by part. */
  lemma SeparatedPartsUnique(a: string, b: string, c: string, d: string, sep: char)
    requires sep !in a && sep !in c
    requires a + [sep] + b == c + [sep] + d
    ensures a == c && b == d
  {
    var t := a + [sep] + b;
    assert t[|a|] == sep && t[|c|] == sep;
    assert a == t[..|a|];
    assert b == t[|a| + 1..];
  }

  /** `String.Join(",", xs)`. */
  function Join(xs: seq<string>): (s: string)
    ensures |xs| == 0 ==> s == ""
    ensures |xs| > 0 ==> |xs[0]| <= |s| && s[..|xs[0]|] == xs[0]
    ensures |xs| > 1 ==> |xs[0]| < |s| && s[|xs[0]|] == ','
    ensures |xs| > 0 ==> var last := xs[|xs| - 1]; |last| <= |s| && s[|s| - |last|..] == last
  {
    if |xs| == 0 then ""
    else if |xs| == 1 then xs[0]
    else xs[0] + "," + Join(xs[1..])
  }

  /** Splits at every ',' (the inverse of `Join` on comma-free elements). */
  function Split(s: string): (parts: seq<string>)
    ensures |parts| > 0
  {
    if |s| == 0 then [""]
    else if s[0] == ',' then [""] + Split(s[1..])
    else
      var rest := Split(s[1..]);
      [[s[0]] + rest[0]] + rest[1..]
  }

  lemma {:induction false} SplitNoComma(x: string)
    requires ',' !in x
    ensures Split(x) == [x]
  {
    if |x| > 0 {
      assert x[0] != ',';
      SplitNoComma(x[1..]);
      assert [x[0]] + x[1..] == x;
    }
  }

  lemma {:induction false} SplitAfterField(x: string, t: string)
    requires ',' !in x
    ensures Split(x + "," + t) == [x] + Split(t)
  {
    var s := x + "," + t;
    if |x| == 0 {
      assert s == "," + t;
      assert s[1..] == t;
    } else {
      assert s[0] == x[0] != ',';
      assert s[1..] == x[1..] + "," + t;
      SplitAfterField(x[1..], t);
      assert [x[0]] + x[1..] == x;
    }
  }

  /** Joining comma-free fields and splitting again gives the fields back. The empty list
      is excluded because `Join([]) == Join([""]) == ""`. */
  lemma {:induction false} SplitJoin(xs: seq<string>)
    requires |xs| > 0
    requires forall i :: 0 <= i < |xs| ==> ',' !in xs[i]
    ensures Split(Join(xs)) == xs
  {
    if |xs| == 1 {
      SplitNoComma(xs[0]);
    } else {
      SplitAfterField(xs[0], Join(xs[1..]));
      SplitJoin(xs[1..]);
    }
  }

  /** The joined text is as long as its fields plus one separator between each pair. */
  function TotalLength(xs: seq<string>): nat {
    if |xs| == 0 then 0 else |xs[0]| + TotalLength(xs[1..])
  }

  lemma {:induction false} JoinLength(xs: seq<string>)
    requires |xs| > 0
    ensures |Join(xs)| == TotalLength(xs) + |xs| - 1
  {
    if |xs| > 1 {
      JoinLength(xs[1..]);
    }
  }

  predicate EndsWith(s: string, c: char) {
    |s| > 0 && s[|s| - 1] == c
  }

  /** Equal strings with a common prefix agree after it. */
  lemma PrefixCancel(p: string, x: string, y: string)
    requires p + x == p + y
    ensures x == y
  {
    assert x == (p + x)[|p|..];
    assert y == (p + y)[|p|..];
  }
}
