/** The string operations the endpoint relies on: `str.endswith`, ASCII
    `str.lower`, the substring test `w in s`, `sep.join(parts)`, its inverse
    `s.split(sep)`, and `str(n)` for integers. */
module Text {
  import opened Seqs

  predicate EndsWith(s: string, suffix: string) {
    |suffix| <= |s| && s[|s| - |suffix|..] == suffix
  }

  /** Lower-cases the ASCII letters and leaves every other character alone. */
  function LowerChar(c: char): char {
    if 'A' <= c <= 'Z' then (c as int + 32) as char else c
  }

  function Lower(s: string): (r: string)
    ensures |r| == |s|
    ensures forall i | 0 <= i < |s| :: r[i] == LowerChar(s[i])
  {
    if |s| == 0 then "" else [LowerChar(s[0])] + Lower(s[1..])
  }

  /** A suffix that lower-casing leaves unchanged survives lower-casing of the whole string. */
  lemma EndsWithLower(s: string, suffix: string)
    requires EndsWith(s, suffix)
    requires Lower(suffix) == suffix
    ensures EndsWith(Lower(s), suffix)
  {
    var k := |s| - |suffix|;
    forall i | 0 <= i < |suffix|
      ensures Lower(s)[k + i] == suffix[i]
    {
      assert s[k + i] == suffix[i];
      assert Lower(suffix)[i] == LowerChar(suffix[i]);
    }
    assert Lower(s)[k..] == suffix;
  }

  // ---------------------------------------------------------------------------
  // Substring test

  predicate OccursAt(s: string, w: string, i: int) {
    0 <= i && i + |w| <= |s| && s[i..i + |w|] == w
  }

  /** Python's `w in s` for strings: `w` occurs at some position of `s`. */
  predicate Contains(s: string, w: string) {
    exists i | 0 <= i <= |s| - |w| :: OccursAt(s, w, i)
  }

  /** A word found in the right-hand part is found in the concatenation. */
  lemma ContainsInSuffix(a: string, b: string, w: string)
    requires Contains(b, w)
    ensures Contains(a + b, w)
  {
    var i :| 0 <= i <= |b| - |w| && OccursAt(b, w, i);
    assert (a + b)[|a| + i..|a| + i + |w|] == b[i..i + |w|];
    assert OccursAt(a + b, w, |a| + i);
  }

  /** A word found in the left-hand part is found in the concatenation. */
  lemma ContainsInPrefix(a: string, b: string, w: string)
    requires Contains(a, w)
    ensures Contains(a + b, w)
  {
    var i :| 0 <= i <= |a| - |w| && OccursAt(a, w, i);
    assert (a + b)[i..i + |w|] == a[i..i + |w|];
    assert OccursAt(a + b, w, i);
  }

  /** An occurrence that starts in `a` and ends in `b` covers `b`'s first character. */
  lemma StraddleChar(a: string, b: string, w: string, i: int)
    requires OccursAt(a + b, w, i) && i < |a| < i + |w|
    ensures b[0] in w
  {
    assert w[|a| - i] == (a + b)[i..i + |w|][|a| - i] == b[0];
  }

  /** An occurrence in `a + b` that cannot straddle the seam lies wholly in `a` or wholly in `b`. */
  lemma OccursSplit(a: string, b: string, w: string, i: int)
    requires |b| > 0 && b[0] !in w
    ensures OccursAt(a + b, w, i) ==> OccursAt(a, w, i) || OccursAt(b, w, i - |a|)
  {
    if OccursAt(a + b, w, i) {
      if i + |w| <= |a| {
        assert (a + b)[i..i + |w|] == a[i..i + |w|];
      } else if i >= |a| {
        assert (a + b)[i..i + |w|] == b[i - |a|..i - |a| + |w|];
      } else {
        StraddleChar(a, b, w, i);
      }
    }
  }

  /** A word found in neither part, and unable to straddle the seam because
      it lacks the right part's first character, is not in the concatenation. */
  lemma NotContainsConcat(a: string, b: string, w: string)
    requires !Contains(a, w) && !Contains(b, w)
    requires |b| > 0 && b[0] !in w
    ensures !Contains(a + b, w)
  {
    forall i | 0 <= i <= |a| + |b| - |w|
      ensures OccursAt(a + b, w, i) ==> OccursAt(a, w, i) || OccursAt(b, w, i - |a|)
    {
      OccursSplit(a, b, w, i);
    }
  }

  // ---------------------------------------------------------------------------
  // Join and split

  /** Python's `sep.join(parts)`. */
  function Join(parts: seq<string>, sep: string): string {
    if |parts| == 0 then ""
    else if |parts| == 1 then parts[0]
    else parts[0] + sep + Join(parts[1..], sep)
  }

  function SumLengths(parts: seq<string>): nat {
    if |parts| == 0 then 0 else |parts[0]| + SumLengths(parts[1..])
  }

  /** Joining without a separator keeps exactly the characters of the parts. */
  lemma {:induction false} JoinEmptyLength(parts: seq<string>)
    ensures |Join(parts, "")| == SumLengths(parts)
  {
    if |parts| > 1 {
      JoinEmptyLength(parts[1..]);
    }
  }

  /** The parts written one after another, as a right fold. */
  function Concat(parts: seq<string>): string {
    if |parts| == 0 then "" else parts[0] + Concat(parts[1..])
  }

  /** Joining without a separator is plain concatenation. */
  lemma {:induction false} JoinEmptyIsConcat(parts: seq<string>)
    ensures Join(parts, "") == Concat(parts)
  {
    if |parts| == 1 {
      assert Concat(parts[1..]) == "";
      EmptyBack(parts[0]);
    } else if |parts| > 1 {
      JoinEmptyIsConcat(parts[1..]);
      EmptyBack(parts[0]);
    }
  }

  lemma {:induction false} ConcatLength(parts: seq<string>)
    ensures |Concat(parts)| == SumLengths(parts)
  {
    if |parts| > 0 {
      ConcatLength(parts[1..]);
    }
  }

  /** Part `i` of a concatenation sits right after the parts before it. */
  lemma {:induction false} ConcatSlices(parts: seq<string>, i: nat)
    requires i < |parts|
    ensures SumLengths(parts[..i]) + |parts[i]| == SumLengths(parts[..i + 1]) <= |Concat(parts)|
    ensures Concat(parts)[SumLengths(parts[..i])..SumLengths(parts[..i + 1])] == parts[i]
  {
    var p, q := parts[0], parts[1..];
    ConcatLength(parts);
    ConcatLength(q);
    PrefixSum(parts, i + 1);
    if i == 0 {
      assert parts[..0] == [];
      assert parts[..1][1..] == [];
      assert (p + Concat(q))[..|p|] == p;
    } else {
      assert parts[..i][1..] == q[..i - 1];
      assert parts[..i + 1][1..] == q[..i];
      ConcatSlices(q, i - 1);
      SliceAfter(p, Concat(q), SumLengths(q[..i - 1]), SumLengths(q[..i]));
    }
  }

  /** A prefix's lengths add up to no more than the whole's. */
  lemma {:induction false} PrefixSum(parts: seq<string>, n: nat)
    requires n <= |parts|
    ensures SumLengths(parts[..n]) <= SumLengths(parts)
  {
    if n > 0 {
      assert parts[..n][1..] == parts[1..][..n - 1];
      PrefixSum(parts[1..], n - 1);
    }
  }

  /** Joining n >= 1 parts with a one-character separator adds n - 1 characters. */
  lemma {:induction false} JoinCharLength(parts: seq<string>, sep: char)
    requires |parts| >= 1
    ensures |Join(parts, [sep])| == SumLengths(parts) + |parts| - 1
  {
    if |parts| > 1 {
      JoinCharLength(parts[1..], sep);
    }
  }

  /** The first position of `c` in `s`. */
  function IndexOf(s: string, c: char): (i: nat)
    requires c in s
    ensures i < |s| && s[i] == c && c !in s[..i]
  {
    if s[0] == c then 0
    else
      var j := IndexOf(s[1..], c);
      assert s[..j + 1] == [s[0]] + s[1..][..j];
      j + 1
  }

  /** Python's `s.split(sep)` for a one-character separator. */
  function Split(s: string, sep: char): (parts: seq<string>)
    ensures |parts| >= 1
    decreases |s|
  {
    if sep !in s then [s]
    else
      var i := IndexOf(s, sep);
      [s[..i]] + Split(s[i + 1..], sep)
  }

  lemma SplitCons(p: string, sep: char, rest: string)
    requires sep !in p
    ensures Split(p + [sep] + rest, sep) == [p] + Split(rest, sep)
  {
    var s := p + [sep] + rest;
    assert s[|p|] == sep;
    var i := IndexOf(s, sep);
    assert forall j | 0 <= j < |p| :: s[j] == p[j];
    assert i >= |p|;
    assert i <= |p| by {
      assert forall j | 0 <= j < i :: s[..i][j] == s[j];
    }
    assert s[..i] == p;
    assert s[i + 1..] == rest;
  }

  /** Splitting undoes joining when no part contains the separator. */
  lemma {:induction false} SplitJoin(parts: seq<string>, sep: char)
    requires |parts| >= 1
    requires forall i | 0 <= i < |parts| :: sep !in parts[i]
    ensures Split(Join(parts, [sep]), sep) == parts
  {
    if |parts| > 1 {
      SplitJoin(parts[1..], sep);
      SplitCons(parts[0], sep, Join(parts[1..], [sep]));
      assert parts == [parts[0]] + parts[1..];
    }
  }

  // ---------------------------------------------------------------------------
  // Integers as text

  function DigitChar(d: int): char
    requires 0 <= d < 10
  {
    "0123456789"[d]
  }

  /** `str(n)` for a natural number: its decimal digits, most significant first. */
  function NatToString(n: nat): (r: string)
    ensures |r| >= 1
    ensures forall i | 0 <= i < |r| :: '0' <= r[i] <= '9'
  {
    if n < 10 then [DigitChar(n)] else NatToString(n / 10) + [DigitChar(n % 10)]
  }

  /** `str(i)` for any integer: a minus sign before the digits of a negative one. */
  function IntToString(i: int): string {
    if i < 0 then "-" + NatToString(-i) else NatToString(i)
  }
}
