/** The array built-ins the admin views are made of: `Array.prototype.filter`,
    the spread of a `Set` built from an array (`[...new Set(xs)]`) and
    `Array.prototype.sort()` on strings. */
module Lists {
  import opened JsText

  // ---------------------------------------------------------------------
  // Subsequences

  /** `idx` places every element of `sub` at strictly increasing positions of `s`. */
  ghost predicate Embeds<T>(idx: seq<nat>, sub: seq<T>, s: seq<T>) {
    && |idx| == |sub|
    && (forall k :: 0 <= k < |idx| ==> idx[k] < |s| && s[idx[k]] == sub[k])
    && (forall k, l :: 0 <= k < l < |idx| ==> idx[k] < idx[l])
  }

  /** `sub` is `s` with some elements removed and the rest in their original order. */
  ghost predicate IsSubsequence<T>(sub: seq<T>, s: seq<T>) {
    exists idx: seq<nat> :: Embeds(idx, sub, s)
  }

  lemma SubsequenceCons<T>(x: T, sub: seq<T>, s: seq<T>, keep: bool)
    requires IsSubsequence(sub, s)
    ensures IsSubsequence(if keep then [x] + sub else sub, [x] + s)
  {
    var idx: seq<nat> :| Embeds(idx, sub, s);
    var shifted: seq<nat> := seq(|idx|, k requires 0 <= k < |idx| => idx[k] + 1);
    if keep {
      assert Embeds([0] + shifted, [x] + sub, [x] + s);
    } else {
      assert Embeds(shifted, sub, [x] + s);
    }
  }

  // ---------------------------------------------------------------------
  // filter

  /** `xs.filter(p)`: every element that satisfies `p` is kept as often as it
      occurs, and no other element is kept. */
  function Filter<T(!new)>(p: T -> bool, xs: seq<T>): (r: seq<T>)
    ensures |r| <= |xs|
    ensures forall x :: x in r <==> x in xs && p(x)
    ensures forall x :: multiset(r)[x] == if p(x) then multiset(xs)[x] else 0
  {
    if xs == [] then []
    else
      assert xs == [xs[0]] + xs[1..];
      if p(xs[0]) then [xs[0]] + Filter(p, xs[1..])
      else Filter(p, xs[1..])
  }

  /** The kept elements appear in `xs` in the same relative order. */
  lemma {:induction false} FilterIsSubsequence<T(!new)>(p: T -> bool, xs: seq<T>)
    ensures IsSubsequence(Filter(p, xs), xs)
  {
    if xs == [] {
      assert Embeds([], [], xs);
    } else {
      FilterIsSubsequence(p, xs[1..]);
      SubsequenceCons(xs[0], Filter(p, xs[1..]), xs[1..], p(xs[0]));
      assert [xs[0]] + xs[1..] == xs;
    }
  }

  /** A filter that keeps every element returns its input unchanged. */
  lemma {:induction false} FilterKeepsAll<T(!new)>(p: T -> bool, xs: seq<T>)
    requires forall x :: x in xs ==> p(x)
    ensures Filter(p, xs) == xs
  {
    if xs != [] {
      FilterKeepsAll(p, xs[1..]);
      assert [xs[0]] + xs[1..] == xs;
    }
  }

  /** Two predicates that agree on the elements of `xs` filter it alike. */
  lemma {:induction false} FilterCongruent<T(!new)>(p: T -> bool, q: T -> bool, xs: seq<T>)
    requires forall x :: x in xs ==> p(x) == q(x)
    ensures Filter(p, xs) == Filter(q, xs)
  {
    if xs != [] {
      FilterCongruent(p, q, xs[1..]);
    }
  }

  /** The conjunction of two predicates. */
  function Both<T>(p: T -> bool, q: T -> bool): T -> bool {
    x => p(x) && q(x)
  }

  /** Filtering twice is filtering once by the conjunction. */
  lemma {:induction false} FilterFuse<T(!new)>(p: T -> bool, q: T -> bool, xs: seq<T>)
    ensures Filter(q, Filter(p, xs)) == Filter(Both(p, q), xs)
  {
    if xs != [] {
      FilterFuse(p, q, xs[1..]);
    }
  }

  // ---------------------------------------------------------------------
  // [...new Set(xs)]

  ghost predicate Distinct<T>(s: seq<T>) {
    forall i, j :: 0 <= i < j < |s| ==> s[i] != s[j]
  }

  /** The insertion-ordered contents of `new Set(xs)`: every element is added
      from left to right, and an element already present is not added again. */
  function Dedup<T(==, !new)>(xs: seq<T>): (r: seq<T>)
    ensures Distinct(r)
    ensures forall x :: x in r <==> x in xs
    decreases |xs|
  {
    if xs == [] then []
    else
      var d := Dedup(xs[..|xs| - 1]);
      var x := xs[|xs| - 1];
      assert xs == xs[..|xs| - 1] + [x];
      if x in d then d else d + [x]
  }

  // ---------------------------------------------------------------------
  // sort() on strings

  /** Sorted for the default comparator: no later element sorts before an earlier one. */
  ghost predicate Sorted(s: seq<string>) {
    forall i, j :: 0 <= i < j < |s| ==> !Before(s[j], s[i])
  }

  /** Every earlier element sorts strictly before every later one. */
  ghost predicate StrictlySorted(s: seq<string>) {
    forall i, j :: 0 <= i < j < |s| ==> Before(s[i], s[j])
  }

  /** Prepending an element that no element of a sorted list sorts before
      keeps the list sorted. */
  lemma SortedCons(h: string, t: seq<string>)
    requires Sorted(t)
    requires forall y :: y in t ==> !Before(y, h)
    ensures Sorted([h] + t)
  {
    var r := [h] + t;
    forall i, j | 0 <= i < j < |r| ensures !Before(r[j], r[i]) {
      if i == 0 {
        assert r[j] == t[j - 1];
      } else {
        assert r[i] == t[i - 1] && r[j] == t[j - 1];
      }
    }
  }

  /** Places `x` before the first element that does not sort before it. */
  function Insert(x: string, s: seq<string>): (r: seq<string>)
    ensures multiset(r) == multiset(s) + multiset{x}
    ensures forall y :: y in r <==> y == x || y in s
  {
    if s == [] then [x]
    else if Before(s[0], x) then
      assert s == [s[0]] + s[1..];
      [s[0]] + Insert(x, s[1..])
    else
      [x] + s
  }

  lemma {:induction false} InsertSorted(x: string, s: seq<string>)
    requires Sorted(s)
    ensures Sorted(Insert(x, s))
  {
    if s == [] {
    } else if Before(s[0], x) {
      var t := Insert(x, s[1..]);
      assert Sorted(s[1..]) by {
        forall i, j | 0 <= i < j < |s[1..]| ensures !Before(s[1..][j], s[1..][i]) {
          assert s[1..][j] == s[j + 1] && s[1..][i] == s[i + 1];
        }
      }
      InsertSorted(x, s[1..]);
      forall y | y in t ensures !Before(y, s[0]) {
        if y == x {
          BeforeAsymmetric(s[0], x);
        } else {
          var j :| 0 <= j < |s[1..]| && s[1..][j] == y;
          assert s[j + 1] == y;
        }
      }
      SortedCons(s[0], t);
    } else {
      forall y | y in s ensures !Before(y, x) {
        var j :| 0 <= j < |s| && s[j] == y;
        if Before(y, x) {
          if s[0] != x {
            BeforeTotal(s[0], x);
          }
          if j > 0 {
            assert !Before(s[j], s[0]);
            if s[0] != x {
              BeforeTransitive(y, x, s[0]);
            }
          }
        }
      }
      SortedCons(x, s);
    }
  }

  lemma DistinctTail<T>(s: seq<T>)
    requires s != [] && Distinct(s)
    ensures Distinct(s[1..]) && s[0] !in s[1..]
  {
    forall i, j | 0 <= i < j < |s[1..]| ensures s[1..][i] != s[1..][j] {
      assert s[1..][i] == s[i + 1] && s[1..][j] == s[j + 1];
    }
  }

  lemma DistinctCons<T>(h: T, t: seq<T>)
    requires Distinct(t) && h !in t
    ensures Distinct([h] + t)
  {
    var r := [h] + t;
    forall i, j | 0 <= i < j < |r| ensures r[i] != r[j] {
      assert r[j] == t[j - 1];
      if i > 0 {
        assert r[i] == t[i - 1];
      }
    }
  }

  /** Inserting a new value into a list without duplicates adds none. */
  lemma {:induction false} InsertDistinct(x: string, s: seq<string>)
    requires Distinct(s) && x !in s
    ensures Distinct(Insert(x, s))
  {
    if s != [] && Before(s[0], x) {
      DistinctTail(s);
      InsertDistinct(x, s[1..]);
      DistinctCons(s[0], Insert(x, s[1..]));
    } else {
      DistinctCons(x, s);
    }
  }

  /** `xs.sort()` on strings (an insertion sort; the result does not depend on
      the algorithm, see `StrictlySortedUnique`). */
  function Sort(xs: seq<string>): (r: seq<string>)
    ensures Sorted(r)
    ensures multiset(r) == multiset(xs)
    ensures forall y :: y in r <==> y in xs
    ensures Distinct(xs) ==> Distinct(r)
  {
    if xs == [] then []
    else
      assert xs == [xs[0]] + xs[1..];
      var t := Sort(xs[1..]);
      InsertSorted(xs[0], t);
      assert Distinct(xs) ==> Distinct(Insert(xs[0], t)) by {
        if Distinct(xs) {
          DistinctTail(xs);
          InsertDistinct(xs[0], t);
        }
      }
      Insert(xs[0], t)
  }

  /** A sorted list without duplicates is strictly sorted. */
  lemma SortedDistinctIsStrict(s: seq<string>)
    requires Sorted(s) && Distinct(s)
    ensures StrictlySorted(s)
  {
    forall i, j | 0 <= i < j < |s| ensures Before(s[i], s[j]) {
      BeforeTotal(s[i], s[j]);
    }
  }

  /** A strictly sorted list is determined by its elements: whatever sorting
      algorithm produced it, there is only one such list. */
  lemma {:induction false} StrictlySortedUnique(a: seq<string>, b: seq<string>)
    requires StrictlySorted(a) && StrictlySorted(b)
    requires forall x :: x in a <==> x in b
    ensures a == b
    decreases |a|
  {
    if a != [] { assert a[0] in b; }
    if b != [] { assert b[0] in a; }
    if a != [] {
      if a[0] != b[0] {
        assert b[0] in a;
        var i :| 0 <= i < |b| && b[i] == a[0];
        var j :| 0 <= j < |a| && a[j] == b[0];
        assert Before(b[0], a[0]) && Before(a[0], b[0]);
        BeforeAsymmetric(a[0], b[0]);
      }
      forall x ensures x in a[1..] <==> x in b[1..] {
        if x in a[1..] {
          var k :| 0 <= k < |a[1..]| && a[1..][k] == x;
          assert a[k + 1] == x && Before(a[0], x);
          assert x in b;
          var m :| 0 <= m < |b| && b[m] == x;
          assert b[1..][m - 1] == x;
        }
        if x in b[1..] {
          var k :| 0 <= k < |b[1..]| && b[1..][k] == x;
          assert b[k + 1] == x && Before(b[0], x);
          assert x in a;
          var m :| 0 <= m < |a| && a[m] == x;
          assert a[1..][m - 1] == x;
        }
      }
      assert StrictlySorted(a[1..]) by {
        forall i, j | 0 <= i < j < |a[1..]| ensures Before(a[1..][i], a[1..][j]) {
          assert a[1..][i] == a[i + 1] && a[1..][j] == a[j + 1];
        }
      }
      assert StrictlySorted(b[1..]) by {
        forall i, j | 0 <= i < j < |b[1..]| ensures Before(b[1..][i], b[1..][j]) {
          assert b[1..][i] == b[i + 1] && b[1..][j] == b[j + 1];
        }
      }
      StrictlySortedUnique(a[1..], b[1..]);
      assert a == [a[0]] + a[1..] && b == [b[0]] + b[1..];
    }
  }

  /** `[...new Set(xs)].sort()`: the distinct values of `xs` in ascending order. */
  function SortedDistinct(xs: seq<string>): (r: seq<string>)
    ensures Distinct(r)
    ensures StrictlySorted(r)
    ensures forall y :: y in r <==> y in xs
  {
    var r := Sort(Dedup(xs));
    SortedDistinctIsStrict(r);
    r
  }
}
