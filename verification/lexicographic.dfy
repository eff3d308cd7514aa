/** Strings ordered by code point, as Python's `sorted` orders them, and
    duplicate-free sorted lists standing for the sets of strings the
    scoring code builds and then returns as `sorted(...)`. */
module Lexicographic {
  /** `a < b` on Python strings: the first differing character decides,
      and a proper prefix comes first. */
  predicate Lt(a: string, b: string)
    decreases |a|
  {
    if |a| == 0 then |b| > 0
    else if |b| == 0 then false
    else if a[0] != b[0] then a[0] < b[0]
    else Lt(a[1..], b[1..])
  }

  lemma {:induction false} LtIrreflexive(a: string)
    ensures !Lt(a, a)
    decreases |a|
  {
    if |a| > 0 {
      LtIrreflexive(a[1..]);
    }
  }

  lemma {:induction false} LtTransitive(a: string, b: string, c: string)
    requires Lt(a, b) && Lt(b, c)
    ensures Lt(a, c)
    decreases |a|
  {
    if |a| > 0 && |b| > 0 && |c| > 0 && a[0] == b[0] && b[0] == c[0] {
      LtTransitive(a[1..], b[1..], c[1..]);
    }
  }

  lemma {:induction false} LtTotal(a: string, b: string)
    ensures a == b || Lt(a, b) || Lt(b, a)
    decreases |a|
  {
    if |a| > 0 && |b| > 0 && a[0] == b[0] {
      LtTotal(a[1..], b[1..]);
      if a[1..] == b[1..] {
        assert a == [a[0]] + a[1..] && b == [b[0]] + b[1..];
      }
    }
  }

  lemma LtAsymmetric(a: string, b: string)
    ensures !(Lt(a, b) && Lt(b, a))
  {
    LtIrreflexive(a);
    if Lt(a, b) && Lt(b, a) {
      LtTransitive(a, b, a);
    }
  }

  /** Strictly ascending, so free of duplicates. */
  predicate Sorted(s: seq<string>) {
    forall i, j :: 0 <= i < j < |s| ==> Lt(s[i], s[j])
  }

  /** Adds `x` to a sorted list unless it is already there. */
  function Insert(x: string, s: seq<string>): (r: seq<string>)
    requires Sorted(s)
    ensures Sorted(r)
    ensures forall y :: y in r <==> y == x || y in s
    decreases |s|
  {
    if |s| == 0 then [x]
    else if x == s[0] then s
    else if Lt(x, s[0]) then
      assert forall j :: 0 <= j < |s| ==> Lt(x, s[j]) by {
        forall j | 0 <= j < |s| ensures Lt(x, s[j]) {
          if j > 0 {
            LtTransitive(x, s[0], s[j]);
          }
        }
      }
      [x] + s
    else
      LtTotal(x, s[0]);
      var rest := Insert(x, s[1..]);
      assert forall y :: y in rest ==> Lt(s[0], y) by {
        forall y | y in rest ensures Lt(s[0], y) {
          if y != x {
            var j :| 0 <= j < |s[1..]| && s[1..][j] == y;
            assert s[j + 1] == y;
          }
        }
      }
      [s[0]] + rest
  }

  /** The elements of `s` satisfying `keep`, in order. */
  function Filter(s: seq<string>, keep: string -> bool): (r: seq<string>)
    requires Sorted(s)
    ensures Sorted(r) && |r| <= |s|
    ensures forall y :: y in r <==> y in s && keep(y)
    decreases |s|
  {
    if |s| == 0 then []
    else
      var rest := Filter(s[1..], keep);
      if keep(s[0]) then
        assert forall y :: y in rest ==> Lt(s[0], y) by {
          forall y | y in rest ensures Lt(s[0], y) {
            var j :| 0 <= j < |s[1..]| && s[1..][j] == y;
            assert s[j + 1] == y;
          }
        }
        [s[0]] + rest
      else rest
  }

  /** A filter and its complement split the list: their lengths add up. */
  lemma {:induction false} FilterSplit(s: seq<string>, keep: string -> bool, drop: string -> bool)
    requires Sorted(s)
    requires forall x :: drop(x) == !keep(x)
    ensures |Filter(s, keep)| + |Filter(s, drop)| == |s|
    decreases |s|
  {
    if |s| > 0 {
      FilterSplit(s[1..], keep, drop);
    }
  }

  lemma HeadIsLeast(s: seq<string>, x: string)
    requires Sorted(s) && x in s
    ensures x == s[0] || Lt(s[0], x)
  {
    var j :| 0 <= j < |s| && s[j] == x;
  }

  lemma TailMembers(s: seq<string>, x: string)
    requires Sorted(s) && |s| > 0
    ensures x in s[1..] <==> x in s && x != s[0]
  {
    LtIrreflexive(s[0]);
    assert forall i :: 0 <= i < |s| - 1 ==> s[1..][i] == s[i + 1];
    assert s == [s[0]] + s[1..];
  }

  /** The sorted listing of a set is unique: two sorted lists with the same
      elements are equal. */
  lemma {:induction false} SortedUnique(a: seq<string>, b: seq<string>)
    requires Sorted(a) && Sorted(b)
    requires forall x :: x in a <==> x in b
    ensures a == b
    decreases |a|
  {
    assert forall i :: 0 <= i < |b| ==> b[i] in a;
    assert forall i :: 0 <= i < |a| ==> a[i] in b;
    if |a| > 0 && |b| > 0 {
      HeadIsLeast(a, b[0]);
      HeadIsLeast(b, a[0]);
      LtAsymmetric(a[0], b[0]);
      forall x ensures x in a[1..] <==> x in b[1..] {
        TailMembers(a, x);
        TailMembers(b, x);
      }
      SortedUnique(a[1..], b[1..]);
      assert a == [a[0]] + a[1..] && b == [b[0]] + b[1..];
    }
  }
}
