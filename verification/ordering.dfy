/** Python's ordering of strings (code point by code point, a proper prefix
    first) and `sorted` on lists of strings. */
module Ordering {

  /** `a < b` on Python strings. */
  predicate LexLess(a: string, b: string)
    decreases |a|
  {
    if |a| == 0 then |b| > 0
    else if |b| == 0 then false
    else if a[0] != b[0] then a[0] < b[0]
    else LexLess(a[1..], b[1..])
  }

  lemma {:induction false} LexIrreflexive(a: string)
    ensures !LexLess(a, a)
    decreases |a|
  {
    if |a| > 0 { LexIrreflexive(a[1..]); }
  }

  lemma {:induction false} LexTransitive(a: string, b: string, c: string)
    requires LexLess(a, b) && LexLess(b, c)
    ensures LexLess(a, c)
    decreases |a|
  {
    if |a| > 0 && a[0] == b[0] && b[0] == c[0] {
      LexTransitive(a[1..], b[1..], c[1..]);
    }
  }

  /** Any two distinct strings are ordered one way or the other. */
  lemma {:induction false} LexTotal(a: string, b: string)
    ensures a == b || LexLess(a, b) || LexLess(b, a)
    decreases |a|
  {
    if |a| > 0 && |b| > 0 && a[0] == b[0] {
      LexTotal(a[1..], b[1..]);
      if a[1..] == b[1..] {
        assert a == [a[0]] + a[1..] && b == [b[0]] + b[1..];
      }
    }
  }

  lemma LexAsymmetric(a: string, b: string)
    requires LexLess(a, b)
    ensures !LexLess(b, a)
  {
    if LexLess(b, a) {
      LexTransitive(a, b, a);
      LexIrreflexive(a);
    }
  }

  /** A common prefix does not change the comparison. */
  lemma {:induction false} LexCommonPrefix(p: string, a: string, b: string)
    ensures LexLess(p + a, p + b) <==> LexLess(a, b)
    decreases |p|
  {
    if |p| == 0 {
      assert p + a == a && p + b == b;
    } else {
      assert (p + a)[0] == p[0] == (p + b)[0];
      assert (p + a)[1..] == p[1..] + a;
      assert (p + b)[1..] == p[1..] + b;
      LexCommonPrefix(p[1..], a, b);
    }
  }

  /** Between strings of equal length the first difference decides, so
      whatever follows them does not matter. */
  lemma {:induction false} LexEqualLengthExtend(a: string, b: string, x: string, y: string)
    requires |a| == |b| && LexLess(a, b)
    ensures LexLess(a + x, b + y)
    decreases |a|
  {
    if a[0] == b[0] {
      assert (a + x)[1..] == a[1..] + x;
      assert (b + y)[1..] == b[1..] + y;
      LexEqualLengthExtend(a[1..], b[1..], x, y);
    }
  }

  /** Non-decreasing, which is what `sorted` produces. */
  predicate Ordered(s: seq<string>)
  {
    forall i, j :: 0 <= i < j < |s| ==> !LexLess(s[j], s[i])
  }

  /** Strictly increasing: ordered, with no repeats. */
  predicate StrictlyIncreasing(s: seq<string>)
  {
    forall i, j :: 0 <= i < j < |s| ==> LexLess(s[i], s[j])
  }

  lemma StrictlyIncreasingIsOrdered(s: seq<string>)
    requires StrictlyIncreasing(s)
    ensures Ordered(s)
  {
    forall i, j | 0 <= i < j < |s|
      ensures !LexLess(s[j], s[i])
    {
      LexAsymmetric(s[i], s[j]);
    }
  }

  /** Places `x` into an ordered list after every element smaller than it. */
  function Insert(x: string, s: seq<string>): (r: seq<string>)
    requires Ordered(s)
    ensures Ordered(r)
    ensures multiset(r) == multiset(s) + multiset{x}
  {
    if |s| == 0 then [x]
    else if LexLess(s[0], x) then
      var tail := Insert(x, s[1..]);
      OrderedTail(s);
      HeadBeforeInserted(x, s, tail);
      [s[0]] + tail
    else
      InsertedBeforeHead(x, s);
      [x] + s
  }

  /** A tail holding the rest of `s` and `x`, with `x` above the head of
      `s`, can follow that head. */
  lemma HeadBeforeInserted(x: string, s: seq<string>, tail: seq<string>)
    requires Ordered(s) && |s| > 0 && LexLess(s[0], x)
    requires Ordered(tail) && multiset(tail) == multiset(s[1..]) + multiset{x}
    ensures Ordered([s[0]] + tail)
    ensures multiset([s[0]] + tail) == multiset(s) + multiset{x}
  {
    assert s == [s[0]] + s[1..];
    forall k | 0 <= k < |tail| ensures !LexLess(tail[k], s[0]) {
      assert tail[k] in multiset(tail);
      if tail[k] == x {
        LexAsymmetric(s[0], x);
      } else {
        assert tail[k] in multiset(s[1..]);
        var j :| 0 <= j < |s[1..]| && s[1..][j] == tail[k];
        assert s[j + 1] == tail[k];
      }
    }
    var r := [s[0]] + tail;
    forall i, j | 0 <= i < j < |r| ensures !LexLess(r[j], r[i]) {
      if i > 0 {
        assert r[i] == tail[i - 1] && r[j] == tail[j - 1];
      } else {
        assert r[j] == tail[j - 1];
      }
    }
  }

  /** `x` no greater than the head of `s` can go in front of it. */
  lemma InsertedBeforeHead(x: string, s: seq<string>)
    requires Ordered(s) && |s| > 0 && !LexLess(s[0], x)
    ensures Ordered([x] + s)
    ensures multiset([x] + s) == multiset(s) + multiset{x}
  {
    forall k | 0 <= k < |s| ensures !LexLess(s[k], x) {
      if LexLess(s[k], x) {
        LexTotal(s[0], s[k]);
        if s[0] != s[k] { LexTransitive(s[0], s[k], x); }
      }
    }
    var r := [x] + s;
    forall i, j | 0 <= i < j < |r| ensures !LexLess(r[j], r[i]) {
      assert r[j] == s[j - 1];
      if i > 0 { assert r[i] == s[i - 1]; }
    }
  }

  /** Python's `sorted` on a list of strings: an ordered permutation. */
  function Sort(s: seq<string>): (r: seq<string>)
    ensures Ordered(r)
    ensures multiset(r) == multiset(s)
  {
    if |s| == 0 then []
    else
      assert s == [s[0]] + s[1..];
      Insert(s[0], Sort(s[1..]))
  }

  /** The head of an ordered list is no greater than any of its elements. */
  lemma HeadIsLeast(a: seq<string>, x: string)
    requires Ordered(a) && x in multiset(a)
    ensures !LexLess(x, a[0])
  {
    var i :| 0 <= i < |a| && a[i] == x;
    if i == 0 { LexIrreflexive(x); }
  }

  lemma TailMultiset(a: seq<string>)
    requires |a| > 0
    ensures multiset(a[1..]) == multiset(a) - multiset{a[0]}
  {
    assert a == [a[0]] + a[1..];
  }

  /** There is only one ordered arrangement of a multiset of strings, so
      the sorted list does not depend on the order the input came in. */
  lemma {:induction false} OrderedUnique(a: seq<string>, b: seq<string>)
    requires Ordered(a) && Ordered(b) && multiset(a) == multiset(b)
    ensures a == b
    decreases |a|
  {
    assert |a| == |multiset(a)| == |multiset(b)| == |b|;
    if |a| > 0 {
      SameHead(a, b);
      SameTails(a, b);
      OrderedUnique(a[1..], b[1..]);
      assert a == [a[0]] + a[1..] && b == [b[0]] + b[1..];
    }
  }

  /** Two ordered arrangements of one multiset start alike. */
  lemma SameHead(a: seq<string>, b: seq<string>)
    requires Ordered(a) && Ordered(b) && multiset(a) == multiset(b) && |a| > 0 && |b| > 0
    ensures a[0] == b[0]
  {
    assert a[0] in multiset(b) && b[0] in multiset(a) by {
      assert a[0] in multiset(a) && b[0] in multiset(b);
    }
    HeadIsLeast(a, b[0]);
    HeadIsLeast(b, a[0]);
    LexTotal(a[0], b[0]);
  }

  /** ...so what follows the head is again two ordered arrangements of one
      multiset. */
  lemma SameTails(a: seq<string>, b: seq<string>)
    requires Ordered(a) && Ordered(b) && multiset(a) == multiset(b) && |a| > 0 && |b| > 0 && a[0] == b[0]
    ensures Ordered(a[1..]) && Ordered(b[1..]) && multiset(a[1..]) == multiset(b[1..])
  {
    TailMultiset(a);
    TailMultiset(b);
    OrderedTail(a);
    OrderedTail(b);
  }

  lemma OrderedTail(a: seq<string>)
    requires Ordered(a) && |a| > 0
    ensures Ordered(a[1..])
  {
    forall i, j | 0 <= i < j < |a[1..]|
      ensures !LexLess(a[1..][j], a[1..][i])
    {
      assert a[1..][j] == a[j + 1] && a[1..][i] == a[i + 1];
    }
  }

  /** `sorted` of a listing in any order gives the same list. */
  lemma SortIgnoresInputOrder(a: seq<string>, b: seq<string>)
    requires multiset(a) == multiset(b)
    ensures Sort(a) == Sort(b)
  {
    OrderedUnique(Sort(a), Sort(b));
  }

  /** `sorted` leaves an already ordered list as it is. */
  lemma SortOrdered(s: seq<string>)
    requires Ordered(s)
    ensures Sort(s) == s
  {
    OrderedUnique(Sort(s), s);
  }
}
