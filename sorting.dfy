/** Python's ordering of `str` values (code point by code point) and `sorted` on a
    list of strings, written as an insertion sort. */
module Sorting {

  /** `a < b` on Python strings. */
  predicate Below(a: string, b: string) {
    if |a| == 0 then |b| > 0
    else if |b| == 0 then false
    else if a[0] != b[0] then a[0] < b[0]
    else Below(a[1..], b[1..])
  }

  lemma {:induction false} BelowIrreflexive(a: string)
    ensures !Below(a, a)
  {
    if |a| > 0 { BelowIrreflexive(a[1..]); }
  }

  lemma {:induction false} BelowTotal(a: string, b: string)
    ensures a == b || Below(a, b) || Below(b, a)
  {
    if |a| > 0 && |b| > 0 && a[0] == b[0] {
      BelowTotal(a[1..], b[1..]);
      if a[1..] == b[1..] {
        assert a == [a[0]] + a[1..] && b == [b[0]] + b[1..];
      }
    }
  }

  lemma {:induction false} BelowAsymmetric(a: string, b: string)
    ensures !(Below(a, b) && Below(b, a))
  {
    if |a| > 0 && |b| > 0 && a[0] == b[0] { BelowAsymmetric(a[1..], b[1..]); }
  }

  lemma {:induction false} BelowTransitive(a: string, b: string, c: string)
    requires Below(a, b) && Below(b, c)
    ensures Below(a, c)
  {
    if |a| > 0 && |b| > 0 && |c| > 0 && a[0] == b[0] && b[0] == c[0] {
      BelowTransitive(a[1..], b[1..], c[1..]);
    }
  }

  /** Ascending: no element is below an earlier one. */
  predicate Ascending(s: seq<string>) {
    forall i, j :: 0 <= i < j < |s| ==> !Below(s[j], s[i])
  }

  /** Ascending with no repeats. */
  predicate StrictlyAscending(s: seq<string>) {
    forall i, j :: 0 <= i < j < |s| ==> Below(s[i], s[j])
  }

  predicate Distinct<T(==)>(s: seq<T>) {
    forall i, j :: 0 <= i < j < |s| ==> s[i] != s[j]
  }

  /** Putting in front an element that nothing in `s` is below keeps `s` ascending. */
  lemma AscendingCons(x: string, s: seq<string>)
    requires Ascending(s)
    requires forall j :: 0 <= j < |s| ==> !Below(s[j], x)
    ensures Ascending([x] + s)
  {
    forall i, j | 0 <= i < j < |s| + 1 ensures !Below(([x] + s)[j], ([x] + s)[i]) {
      if i > 0 { assert ([x] + s)[i] == s[i - 1]; }
      assert ([x] + s)[j] == s[j - 1];
    }
  }

  /** `x` placed before the first element that is not below it. */
  function Insert(x: string, s: seq<string>): seq<string> {
    if s == [] || !Below(s[0], x) then [x] + s
    else [s[0]] + Insert(x, s[1..])
  }

  lemma {:induction false} InsertMultiset(x: string, s: seq<string>)
    ensures multiset(Insert(x, s)) == multiset(s) + multiset{x}
  {
    if s != [] && Below(s[0], x) {
      InsertMultiset(x, s[1..]);
      assert s == [s[0]] + s[1..];
    }
  }

  lemma {:induction false} InsertAscending(x: string, s: seq<string>)
    requires Ascending(s)
    ensures Ascending(Insert(x, s))
  {
    if s == [] || !Below(s[0], x) {
      forall j | 0 <= j < |s| ensures !Below(s[j], x) {
        if Below(s[j], x) {
          BelowTotal(s[0], s[j]);
          if s[0] != s[j] { BelowTransitive(s[0], s[j], x); }
        }
      }
      AscendingCons(x, s);
    } else {
      var t := Insert(x, s[1..]);
      InsertAscending(x, s[1..]);
      InsertMultiset(x, s[1..]);
      forall j | 0 <= j < |t| ensures !Below(t[j], s[0]) {
        assert t[j] in multiset(t);
        if t[j] == x {
          BelowAsymmetric(s[0], x);
        } else {
          assert t[j] in multiset(s[1..]);
          var k :| 0 <= k < |s[1..]| && s[1..][k] == t[j];
          assert s[k + 1] == t[j];
        }
      }
      AscendingCons(s[0], t);
    }
  }

  /** `sorted(s)`. */
  function Sort(s: seq<string>): (r: seq<string>)
    ensures Ascending(r)
    ensures multiset(r) == multiset(s)
  {
    if s == [] then []
    else
      assert s == [s[0]] + s[1..];
      InsertAscending(s[0], Sort(s[1..]));
      InsertMultiset(s[0], Sort(s[1..]));
      Insert(s[0], Sort(s[1..]))
  }

  /** Sorting distinct strings yields each of them once, strictly ascending. */
  lemma SortDistinct(s: seq<string>)
    requires Distinct(s)
    ensures StrictlyAscending(Sort(s)) && Distinct(Sort(s))
    ensures |Sort(s)| == |s| && forall x :: x in Sort(s) <==> x in s
  {
    var r := Sort(s);
    assert |r| == |multiset(r)| == |multiset(s)| == |s|;
    forall x ensures x in r <==> x in s {
      assert x in r <==> x in multiset(r);
      assert x in s <==> x in multiset(s);
    }
    DistinctMultiset(s);
    forall i, j | 0 <= i < j < |r| ensures r[i] != r[j] {
      if r[i] == r[j] {
        MultiplicityTwo(r, i, j);
        assert false;
      }
    }
    forall i, j | 0 <= i < j < |r| ensures Below(r[i], r[j]) {
      BelowTotal(r[i], r[j]);
    }
  }

  lemma {:induction false} DistinctMultiset(s: seq<string>)
    requires Distinct(s)
    ensures forall x :: multiset(s)[x] <= 1
  {
    if s != [] {
      assert s == [s[0]] + s[1..];
      assert Distinct(s[1..]);
      DistinctMultiset(s[1..]);
      assert s[0] !in s[1..];
    }
  }

  lemma {:induction false} MultiplicityTwo(r: seq<string>, i: int, j: int)
    requires 0 <= i < j < |r| && r[i] == r[j]
    ensures multiset(r)[r[i]] >= 2
  {
    var x := r[i];
    assert r == r[..i] + [x] + r[i + 1..j] + [x] + r[j + 1..];
    assert multiset(r) == multiset(r[..i]) + multiset{x} + multiset(r[i + 1..j]) + multiset{x} + multiset(r[j + 1..]);
  }
}
