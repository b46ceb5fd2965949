/** The handful of Python `str` operations the pipeline relies on:
    `sep.join(parts)`, `s.split(c)` with an explicit one-character separator,
    `s.strip()` and the substring test `p in s`. */
module Strings {

  /** `sep.join(parts)`. */
  function Join(parts: seq<string>, sep: string): string
  {
    if |parts| == 0 then ""
    else if |parts| == 1 then parts[0]
    else parts[0] + sep + Join(parts[1..], sep)
  }

  /** `s.split(c)`: the pieces between occurrences of `c`. Python always
      yields at least one piece, none of them holds the separator, and
      joining them back with it gives `s` again. */
  function Split(s: string, c: char): (parts: seq<string>)
    ensures |parts| >= 1
    ensures forall k :: 0 <= k < |parts| ==> c !in parts[k]
    ensures Join(parts, [c]) == s
  {
    if |s| == 0 then [""]
    else
      var rest := Split(s[1..], c);
      if s[0] == c then
        assert s == [c] + s[1..];
        [""] + rest
      else
        assert s == [s[0]] + s[1..];
        [[s[0]] + rest[0]] + rest[1..]
  }

  lemma {:induction false} SplitWithout(s: string, c: char)
    requires c !in s
    ensures Split(s, c) == [s]
  {
    if |s| > 0 {
      SplitWithout(s[1..], c);
      assert [s[0]] + s[1..] == s;
    }
  }

  /** Splitting at the first separator: the first piece is what precedes it. */
  lemma {:induction false} SplitAtFirst(a: string, c: char, b: string)
    requires c !in a
    ensures Split(a + [c] + b, c) == [a] + Split(b, c)
    decreases |a|
  {
    var s := a + [c] + b;
    if |a| == 0 {
      assert s[1..] == b;
    } else {
      assert s[1..] == a[1..] + [c] + b;
      SplitAtFirst(a[1..], c, b);
      assert [a[0]] + a[1..] == a;
    }
  }

  lemma {:induction false} JoinAppend(parts: seq<string>, sep: string, p: string)
    requires |parts| >= 1
    ensures Join(parts + [p], sep) == Join(parts, sep) + sep + p
    decreases |parts|
  {
    if |parts| == 1 {
      assert (parts + [p])[1..] == [p];
    } else {
      assert (parts + [p])[1..] == parts[1..] + [p];
      JoinAppend(parts[1..], sep, p);
    }
  }

  /** The round trip in the other direction: splitting a join gives back the
      parts, provided none of them holds the separator. */
  lemma {:induction false} SplitJoin(parts: seq<string>, c: char)
    requires |parts| >= 1
    requires forall k :: 0 <= k < |parts| ==> c !in parts[k]
    ensures Split(Join(parts, [c]), c) == parts
    decreases |parts|
  {
    if |parts| == 1 {
      SplitWithout(parts[0], c);
    } else {
      SplitJoin(parts[1..], c);
      SplitAtFirst(parts[0], c, Join(parts[1..], [c]));
      assert [parts[0]] + parts[1..] == parts;
    }
  }

  /** The pieces of every part, one part after the other. */
  function SplitEach(parts: seq<string>, c: char): seq<string>
  {
    if |parts| == 0 then [] else Split(parts[0], c) + SplitEach(parts[1..], c)
  }

  /** Splitting around one separator splits each side on its own. */
  lemma {:induction false} SplitAround(a: string, c: char, b: string)
    ensures Split(a + [c] + b, c) == Split(a, c) + Split(b, c)
    decreases |a|
  {
    if |a| == 0 {
      var s := a + [c] + b;
      assert s == [c] + b && s[1..] == b;
      SplitStep(s, c);
    } else {
      SplitAround(a[1..], c, b);
      SplitAroundStep(a, c, b);
    }
  }

  /** The step of `SplitAround` for a non-empty left side. */
  lemma SplitAroundStep(a: string, c: char, b: string)
    requires |a| > 0
    requires Split(a[1..] + [c] + b, c) == Split(a[1..], c) + Split(b, c)
    ensures Split(a + [c] + b, c) == Split(a, c) + Split(b, c)
  {
    var s := a + [c] + b;
    assert s[0] == a[0] && s[1..] == a[1..] + [c] + b;
    SplitStep(s, c);
    SplitStep(a, c);
    var ra, rb := Split(a[1..], c), Split(b, c);
    var rs := Split(s[1..], c);
    assert rs == ra + rb;
    if a[0] == c {
      assert Split(s, c) == [""] + rs;
      assert Split(a, c) == [""] + ra;
      Assoc([""], ra, rb);
    } else {
      assert Split(s, c) == [[a[0]] + rs[0]] + rs[1..];
      assert Split(a, c) == [[a[0]] + ra[0]] + ra[1..];
      HeadOfAppend(ra, rb);
      Assoc([[a[0]] + ra[0]], ra[1..], rb);
    }
  }

  lemma HeadOfAppend<T>(x: seq<T>, y: seq<T>)
    requires |x| > 0
    ensures (x + y)[0] == x[0] && (x + y)[1..] == x[1..] + y
  {
  }

  lemma Assoc<T>(x: seq<T>, y: seq<T>, z: seq<T>)
    ensures x + (y + z) == (x + y) + z
  {
  }

  /** One step of `Split`. */
  lemma SplitStep(s: string, c: char)
    requires |s| > 0
    ensures Split(s, c) == if s[0] == c then [""] + Split(s[1..], c)
                           else [[s[0]] + Split(s[1..], c)[0]] + Split(s[1..], c)[1..]
  {
  }

  /** Splitting a join gives the pieces of every part, in order, whatever
      the parts hold. */
  lemma {:induction false} SplitOfJoin(parts: seq<string>, c: char)
    requires |parts| >= 1
    ensures Split(Join(parts, [c]), c) == SplitEach(parts, c)
    decreases |parts|
  {
    if |parts| == 1 {
      assert parts[1..] == [];
      assert Split(parts[0], c) + [] == Split(parts[0], c);
    } else {
      SplitOfJoin(parts[1..], c);
      SplitAround(parts[0], c, Join(parts[1..], [c]));
    }
  }

  /** Parts without the separator are their own pieces. */
  lemma {:induction false} SplitEachWithout(parts: seq<string>, c: char)
    requires forall k :: 0 <= k < |parts| ==> c !in parts[k]
    ensures SplitEach(parts, c) == parts
    decreases |parts|
  {
    if |parts| > 0 {
      SplitWithout(parts[0], c);
      SplitEachWithout(parts[1..], c);
      assert [parts[0]] + parts[1..] == parts;
    }
  }

  /** The last piece of a split is what follows the last separator. */
  lemma SplitLast(a: string, c: char, b: string)
    requires c !in b
    ensures var parts := Split(a + [c] + b, c); parts[|parts| - 1] == b
  {
    var pa := Split(a, c);
    JoinAppend(pa, [c], b);
    assert Join(pa + [b], [c]) == a + [c] + b;
    forall k | 0 <= k < |pa + [b]|
      ensures c !in (pa + [b])[k]
    {
      if k < |pa| { assert (pa + [b])[k] == pa[k]; }
    }
    SplitJoin(pa + [b], c);
  }

  /** Characters for which Python's `str.isspace` holds. */
  predicate IsSpace(ch: char)
  {
    || ('\t' <= ch <= '\r')              // tab, line feed, vertical tab, form feed, carriage return
    || ('\U{1C}' <= ch <= '\U{1F}')       // file, group, record and unit separators
    || ch == ' ' || ch == '\U{85}' || ch == '\U{A0}' || ch == '\U{1680}'
    || ('\U{2000}' <= ch <= '\U{200A}')   // en quad .. hair space
    || ch == '\U{2028}' || ch == '\U{2029}' || ch == '\U{202F}' || ch == '\U{205F}'
    || ch == '\U{3000}'
  }

  /** Every character of `s[lo..hi]` is whitespace. */
  predicate SpacesBetween(s: string, lo: int, hi: int)
  {
    forall k :: lo <= k < hi && 0 <= k < |s| ==> IsSpace(s[k])
  }

  predicate AllSpace(s: string)
  {
    SpacesBetween(s, 0, |s|)
  }

  /** Index of the first non-space character (or |s|). */
  function LeadingSpaces(s: string): (n: nat)
    ensures n <= |s|
    ensures SpacesBetween(s, 0, n)
    ensures n < |s| ==> !IsSpace(s[n])
  {
    if |s| == 0 || !IsSpace(s[0]) then 0
    else
      var n := 1 + LeadingSpaces(s[1..]);
      assert forall k :: 1 <= k < |s| ==> s[k] == s[1..][k - 1];
      n
  }

  /** Index just past the last non-space character (or 0). */
  function TrailingEnd(s: string): (m: nat)
    ensures m <= |s|
    ensures SpacesBetween(s, m, |s|)
    ensures m > 0 ==> !IsSpace(s[m - 1])
  {
    if |s| == 0 || !IsSpace(s[|s| - 1]) then |s|
    else
      var m := TrailingEnd(s[..|s| - 1]);
      assert forall k :: 0 <= k < |s| - 1 ==> s[k] == s[..|s| - 1][k];
      m
  }

  /** `s.strip()`: `s` without its leading and trailing whitespace. The
      result is a slice of `s`, everything cut off on either side is
      whitespace, and the result neither starts nor ends with whitespace. */
  function Strip(s: string): (r: string)
    ensures LeadingSpaces(s) + |r| <= |s|
    ensures r == s[LeadingSpaces(s)..LeadingSpaces(s) + |r|]
    ensures SpacesBetween(s, 0, LeadingSpaces(s))
    ensures SpacesBetween(s, LeadingSpaces(s) + |r|, |s|)
    ensures |r| > 0 ==> !IsSpace(r[0]) && !IsSpace(r[|r| - 1])
  {
    var i := LeadingSpaces(s);
    var m := TrailingEnd(s);
    if m <= i then
      assert i == |s|;
      ""
    else
      s[i..m]
  }

  /** `s.strip()` is empty exactly when `s` is all whitespace. */
  lemma StripEmptyIff(s: string)
    ensures Strip(s) == "" <==> AllSpace(s)
  {
    var i := LeadingSpaces(s);
    if AllSpace(s) {
      assert i == |s|;
    }
  }

  /** Text that neither starts nor ends with whitespace is left as it is. */
  lemma StripUntouched(s: string)
    requires |s| > 0 && !IsSpace(s[0]) && !IsSpace(s[|s| - 1])
    ensures Strip(s) == s
  {
    assert LeadingSpaces(s) == 0;
    assert |Strip(s)| == |s|;
    assert s[0..|s|] == s;
  }

  /** Stripping twice changes nothing. */
  lemma StripIdempotent(s: string)
    ensures Strip(Strip(s)) == Strip(s)
  {
    var r := Strip(s);
    if |r| > 0 {
      assert LeadingSpaces(r) == 0;
      assert TrailingEnd(r) == |r|;
      assert r[0..|r|] == r;
    }
  }

  /** `p` occurs in `s` starting at position `i`. */
  predicate OccursAt(s: string, p: string, i: int)
  {
    0 <= i && i + |p| <= |s| && s[i..i + |p|] == p
  }

  /** Python's `p in s`. */
  predicate Contains(s: string, p: string)
    decreases |s|
  {
    |p| <= |s| && (s[..|p|] == p || Contains(s[1..], p))
  }

  lemma {:induction false} ContainsIff(s: string, p: string)
    ensures Contains(s, p) <==> exists i :: OccursAt(s, p, i)
    decreases |s|
  {
    if |p| <= |s| && s[..|p|] == p {
      assert OccursAt(s, p, 0);
    } else if |p| <= |s| {
      ContainsIff(s[1..], p);
      if Contains(s[1..], p) {
        var i :| OccursAt(s[1..], p, i);
        assert s[1..][i..i + |p|] == s[i + 1..i + 1 + |p|];
        assert OccursAt(s, p, i + 1);
      }
      if i :| OccursAt(s, p, i) {
        if i > 0 {
          assert s[1..][i - 1..i - 1 + |p|] == s[i..i + |p|];
          assert OccursAt(s[1..], p, i - 1);
        }
      }
    } else {
      if i :| OccursAt(s, p, i) { assert false; }
    }
  }

  /** Text without `c` occurs in `a + [c] + b` exactly when it occurs in
      `a` or in `b`: no occurrence can straddle the separator. */
  lemma ContainsAround(a: string, c: char, b: string, p: string)
    requires c !in p
    ensures Contains(a + [c] + b, p) <==> Contains(a, p) || Contains(b, p)
  {
    var s := a + [c] + b;
    ContainsIff(s, p);
    ContainsIff(a, p);
    ContainsIff(b, p);
    if i :| OccursAt(s, p, i) {
      OccursOnOneSide(a, c, b, p, i);
    }
    if i :| OccursAt(a, p, i) {
      OccursLeft(a, c, b, p, i);
    }
    if i :| OccursAt(b, p, i) {
      OccursRight(a, c, b, p, i);
    }
  }

  lemma OccursLeft(a: string, c: char, b: string, p: string, i: int)
    requires OccursAt(a, p, i)
    ensures OccursAt(a + [c] + b, p, i)
  {
    assert (a + [c] + b)[i..i + |p|] == a[i..i + |p|];
  }

  lemma OccursRight(a: string, c: char, b: string, p: string, i: int)
    requires OccursAt(b, p, i)
    ensures OccursAt(a + [c] + b, p, i + |a| + 1)
  {
    var j := i + |a| + 1;
    assert (a + [c] + b)[j..j + |p|] == b[i..i + |p|];
  }

  /** Every character an occurrence covers belongs to the text. */
  lemma InsideOccurrence(s: string, p: string, i: int, k: int)
    requires OccursAt(s, p, i) && i <= k < i + |p|
    ensures s[k] in p
  {
    assert s[i..i + |p|][k - i] == s[k];
  }

  lemma OccursOnOneSide(a: string, c: char, b: string, p: string, i: int)
    requires c !in p && OccursAt(a + [c] + b, p, i)
    ensures OccursAt(a, p, i) || OccursAt(b, p, i - |a| - 1)
  {
    var s := a + [c] + b;
    if i + |p| <= |a| {
      assert s[i..i + |p|] == a[i..i + |p|];
    } else {
      if i <= |a| {
        InsideOccurrence(s, p, i, |a|);
      }
      assert s[i..i + |p|] == b[i - |a| - 1..i - |a| - 1 + |p|];
    }
  }

  /** Text without the separator occurs in a join exactly when it occurs in
      one of the parts. */
  lemma {:induction false} ContainsInJoin(parts: seq<string>, c: char, p: string)
    requires |parts| >= 1 && c !in p
    ensures Contains(Join(parts, [c]), p) <==> exists k :: 0 <= k < |parts| && Contains(parts[k], p)
    decreases |parts|
  {
    if |parts| > 1 {
      var rest := parts[1..];
      ContainsInJoin(rest, c, p);
      ContainsAround(parts[0], c, Join(rest, [c]), p);
      assert forall k :: 1 <= k < |parts| ==> parts[k] == rest[k - 1];
      if k :| 0 <= k < |rest| && Contains(rest[k], p) {
        assert Contains(parts[k + 1], p);
      }
    }
  }
}
