/**
  * Python's ordering of `str` values (lexicographic by code point) and
  * `sorted()` over a list of strings.
  */
module StringOrder {

  /** `a < b` on Python strings: the first differing character decides, and a
      proper prefix comes first. */
  predicate Less(a: string, b: string)
    decreases |a|
  {
    if a == [] then b != []
    else b != [] && (a[0] < b[0] || (a[0] == b[0] && Less(a[1..], b[1..])))
  }

  predicate LessEq(a: string, b: string) {
    a == b || Less(a, b)
  }

  lemma {:induction false} LessAsymmetric(a: string, b: string)
    ensures !(Less(a, b) && Less(b, a))
  {
    if a != [] && b != [] && a[0] == b[0] {
      LessAsymmetric(a[1..], b[1..]);
    }
  }

  lemma {:induction false} LessTotal(a: string, b: string)
    ensures a == b || Less(a, b) || Less(b, a)
  {
    if a != [] && b != [] && a[0] == b[0] {
      LessTotal(a[1..], b[1..]);
      if a[1..] == b[1..] {
        assert a == [a[0]] + a[1..] && b == [b[0]] + b[1..];
      }
    }
  }

  lemma {:induction false} LessTransitive(a: string, b: string, c: string)
    requires Less(a, b) && Less(b, c)
    ensures Less(a, c)
  {
    if a != [] && a[0] == b[0] && b[0] == c[0] {
      LessTransitive(a[1..], b[1..], c[1..]);
    }
  }

  lemma LessEqTransitive(a: string, b: string, c: string)
    requires LessEq(a, b) && LessEq(b, c)
    ensures LessEq(a, c)
  {
    if a != b && b != c {
      LessTransitive(a, b, c);
    }
  }

  lemma LessEqAntisymmetric(a: string, b: string)
    requires LessEq(a, b) && LessEq(b, a)
    ensures a == b
  {
    LessAsymmetric(a, b);
  }

  /** Ascending order, as `sorted()` leaves a list: no element is followed by a smaller one. */
  predicate Sorted(s: seq<string>) {
    forall i, j :: 0 <= i < j < |s| ==> LessEq(s[i], s[j])
  }

  /** Ascending without repetition. */
  predicate StrictlySorted(s: seq<string>) {
    forall i, j :: 0 <= i < j < |s| ==> Less(s[i], s[j])
  }

  /** No element of `s` is smaller than `y`. */
  predicate AllAtLeast(y: string, s: seq<string>) {
    forall j :: 0 <= j < |s| ==> LessEq(y, s[j])
  }

  /** Putting a lower bound in front of an ascending list keeps it ascending. */
  lemma ConsSorted(y: string, s: seq<string>)
    requires AllAtLeast(y, s) && Sorted(s)
    ensures Sorted([y] + s)
  {
    var r := [y] + s;
    forall i, j | 0 <= i < j < |r| ensures LessEq(r[i], r[j]) {
      if i > 0 {
        assert r[i] == s[i - 1] && r[j] == s[j - 1];
      } else {
        assert r[j] == s[j - 1];
      }
    }
  }

  /** The head of an ascending list is a lower bound of the whole list. */
  lemma HeadIsLowerBound(s: seq<string>)
    requires Sorted(s) && s != []
    ensures AllAtLeast(s[0], s)
  {
    forall j | 0 <= j < |s| ensures LessEq(s[0], s[j]) {
      if j > 0 {
        assert 0 <= 0 < j < |s|;
      }
    }
  }

  /** A bound below the head of an ascending list bounds all of it. */
  lemma BelowHeadBoundsAll(x: string, s: seq<string>)
    requires Sorted(s) && s != [] && LessEq(x, s[0])
    ensures AllAtLeast(x, s)
  {
    HeadIsLowerBound(s);
    forall j | 0 <= j < |s| ensures LessEq(x, s[j]) {
      LessEqTransitive(x, s[0], s[j]);
    }
  }

  /** A lower bound of `s` and of `x` bounds any arrangement of `s` plus `x`. */
  lemma BoundSurvivesInsertion(y: string, x: string, s: seq<string>, t: seq<string>)
    requires AllAtLeast(y, s) && LessEq(y, x)
    requires multiset(t) == multiset(s) + multiset{x}
    ensures AllAtLeast(y, t)
  {
    forall j | 0 <= j < |t| ensures LessEq(y, t[j]) {
      assert t[j] in multiset(t);
      if t[j] != x {
        assert t[j] in multiset(s);
        var k :| 0 <= k < |s| && s[k] == t[j];
      }
    }
  }

  /** Places `x` into an ascending list. */
  function Insert(x: string, s: seq<string>): (r: seq<string>)
    requires Sorted(s)
    ensures Sorted(r)
    ensures multiset(r) == multiset(s) + multiset{x}
  {
    if s == [] then [x]
    else if LessEq(x, s[0]) then
      BelowHeadBoundsAll(x, s);
      ConsSorted(x, s);
      [x] + s
    else
      var rest := Insert(x, s[1..]);
      assert s == [s[0]] + s[1..];
      LessTotal(x, s[0]);
      HeadIsLowerBound(s);
      assert AllAtLeast(s[0], s[1..]);
      BoundSurvivesInsertion(s[0], x, s[1..], rest);
      ConsSorted(s[0], rest);
      [s[0]] + rest
  }

  /** `sorted(s)` for a list of strings: ascending, and a permutation of `s`. */
  function SortStrings(s: seq<string>): (r: seq<string>)
    ensures Sorted(r)
    ensures multiset(r) == multiset(s)
  {
    if s == [] then []
    else
      assert s == [s[0]] + s[1..];
      Insert(s[0], SortStrings(s[1..]))
  }

  /** Two ascending arrangements of one multiset start with the same element. */
  lemma SortedHeadsAgree(a: seq<string>, b: seq<string>)
    requires Sorted(a) && Sorted(b) && a != []
    requires multiset(a) == multiset(b)
    ensures b != [] && a[0] == b[0]
  {
    assert |b| == |multiset(b)| == |a| > 0;
    assert a[0] in multiset(b);
    var k :| 0 <= k < |b| && b[k] == a[0];
    assert b[0] in multiset(a);
    var m :| 0 <= m < |a| && a[m] == b[0];
    HeadIsLowerBound(a);
    HeadIsLowerBound(b);
    assert LessEq(b[0], b[k]) && LessEq(a[0], a[m]);
    LessEqAntisymmetric(a[0], b[0]);
  }

  /** Removing a common head leaves equal multisets. */
  lemma TailsSameMultiset(a: seq<string>, b: seq<string>)
    requires a != [] && b != [] && a[0] == b[0]
    requires multiset(a) == multiset(b)
    ensures multiset(a[1..]) == multiset(b[1..])
  {
    assert a == [a[0]] + a[1..] && b == [b[0]] + b[1..];
    assert multiset(a) == multiset{a[0]} + multiset(a[1..]);
    assert multiset(b) == multiset{a[0]} + multiset(b[1..]);
    assert multiset(a[1..]) == multiset(a) - multiset{a[0]};
    assert multiset(b[1..]) == multiset(b) - multiset{a[0]};
  }

  /** There is only one ascending arrangement of a multiset of strings: so the
      order in which elements were collected never shows after sorting. */
  lemma {:induction false} SortedUnique(a: seq<string>, b: seq<string>)
    requires Sorted(a) && Sorted(b)
    requires multiset(a) == multiset(b)
    ensures a == b
  {
    if a == [] {
      assert |b| == |multiset(b)| == 0;
    } else {
      SortedHeadsAgree(a, b);
      TailsSameMultiset(a, b);
      SortedUnique(a[1..], b[1..]);
      assert a == [a[0]] + a[1..] && b == [b[0]] + b[1..];
    }
  }

  /** In a finite non-empty set of strings some element is at most every other. */
  lemma {:induction false} MinimumExists(S: set<string>)
    requires S != {}
    ensures exists m :: m in S && forall x :: x in S ==> LessEq(m, x)
    decreases S
  {
    var y :| y in S;
    if S != {y} {
      MinimumExists(S - {y});
      var m :| m in S - {y} && forall x :: x in S - {y} ==> LessEq(m, x);
      if LessEq(m, y) {
        assert forall x :: x in S ==> LessEq(m, x);
      } else {
        LessTotal(m, y);
        forall x | x in S ensures LessEq(y, x) {
          if x != y {
            LessEqTransitive(y, m, x);
          }
        }
      }
    }
  }

  /** The elements of a finite set of strings, in ascending order. */
  ghost function Ascending(S: set<string>): (r: seq<string>)
    ensures StrictlySorted(r)
    ensures multiset(r) == multiset(S)
    decreases S
  {
    if S == {} then []
    else
      MinimumExists(S);
      var m :| m in S && forall x :: x in S ==> LessEq(m, x);
      var rest := Ascending(S - {m});
      ConsStrictlySorted(m, S, rest);
      assert multiset(S) == multiset{m} + multiset(S - {m}) by {
        assert S == {m} + (S - {m});
      }
      [m] + rest
  }

  /** The least element of a set, put before an ascending list of the others,
      gives an ascending list. */
  lemma ConsStrictlySorted(m: string, S: set<string>, rest: seq<string>)
    requires m in S && forall x :: x in S ==> LessEq(m, x)
    requires StrictlySorted(rest) && multiset(rest) == multiset(S - {m})
    ensures StrictlySorted([m] + rest)
  {
    var r := [m] + rest;
    forall i, j | 0 <= i < j < |r| ensures Less(r[i], r[j]) {
      assert r[j] == rest[j - 1];
      assert rest[j - 1] in multiset(rest);
      if i > 0 {
        assert r[i] == rest[i - 1];
      }
    }
  }
}
