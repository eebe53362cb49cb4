/**
 Sorting, as Python's `sorted(xs, key=...)` promises it: a permutation, in order,
 with equal keys left in the order they arrived in. The order is a parameter.
 */
module Ordering {

  /** Any two elements compare, and comparisons chain. Distinct elements may tie. */
  ghost predicate TotalPreorder<T(!new)>(le: (T, T) -> bool) {
    && (forall x, y :: le(x, y) || le(y, x))
    && (forall x, y, z :: le(x, y) && le(y, z) ==> le(x, z))
  }

  /** No two different elements of `s` tie. */
  ghost predicate NoTies<T(!new)>(le: (T, T) -> bool, s: seq<T>) {
    forall x, y | x in s && y in s && le(x, y) && le(y, x) :: x == y
  }

  ghost predicate SortedBy<T>(le: (T, T) -> bool, s: seq<T>) {
    forall i, j | 0 <= i < j < |s| :: le(s[i], s[j])
  }

  ghost predicate Distinct<T>(s: seq<T>) {
    forall i, j | 0 <= i < j < |s| :: s[i] != s[j]
  }

  function Filter<T>(keep: T -> bool, s: seq<T>): seq<T> {
    if s == [] then [] else (if keep(s[0]) then [s[0]] else []) + Filter(keep, s[1..])
  }

  function Map<T, U>(f: T -> U, s: seq<T>): (r: seq<U>)
    ensures |r| == |s|
    ensures forall i | 0 <= i < |s| :: r[i] == f(s[i])
  {
    if s == [] then [] else [f(s[0])] + Map(f, s[1..])
  }

  /** Places `x` ahead of every element it does not exceed. */
  function Insert<T>(le: (T, T) -> bool, x: T, s: seq<T>): seq<T> {
    if s == [] || le(x, s[0]) then [x] + s else [s[0]] + Insert(le, x, s[1..])
  }

  /** The stable sort of `s`. */
  function Sort<T>(le: (T, T) -> bool, s: seq<T>): seq<T> {
    if s == [] then [] else Insert(le, s[0], Sort(le, s[1..]))
  }

  lemma TakeOneMore<T>(s: seq<T>, k: nat)
    requires k < |s|
    ensures s[..k + 1] == s[..k] + [s[k]]
  {
  }

  lemma TakeAll<T>(s: seq<T>)
    ensures s[..|s|] == s
  {
  }

  lemma SameElements<T>(a: seq<T>, b: seq<T>)
    requires |a| == |b| && forall i | 0 <= i < |a| :: a[i] == b[i]
    ensures a == b
  {
  }

  lemma Regrouped<T>(a: seq<T>, b: seq<T>, c: seq<T>)
    ensures a + b + c == a + (b + c)
  {
  }

  lemma TailOfConcat<T>(a: seq<T>, b: seq<T>)
    requires a != []
    ensures (a + b)[0] == a[0] && (a + b)[1..] == a[1..] + b
  {
  }

  // ---------------------------------------------------------------- filtering

  lemma {:induction false} FilterMember<T>(keep: T -> bool, s: seq<T>, x: T)
    ensures x in Filter(keep, s) <==> x in s && keep(x)
  {
    if s == [] {
    } else {
      FilterMember(keep, s[1..], x);
      assert s == [s[0]] + s[1..];
    }
  }

  lemma {:induction false} FilterConcat<T>(keep: T -> bool, a: seq<T>, b: seq<T>)
    ensures Filter(keep, a + b) == Filter(keep, a) + Filter(keep, b)
  {
    if a == [] {
      assert a + b == b;
    } else {
      TailOfConcat(a, b);
      FilterConcat(keep, a[1..], b);
      Regrouped(if keep(a[0]) then [a[0]] else [], Filter(keep, a[1..]), Filter(keep, b));
    }
  }

  lemma FilterAppend<T>(keep: T -> bool, s: seq<T>, x: T)
    ensures Filter(keep, s + [x]) == Filter(keep, s) + if keep(x) then [x] else []
  {
    FilterConcat(keep, s, [x]);
    assert Filter(keep, [x]) == if keep(x) then [x] else [];
  }

  lemma {:induction false} FilterCount<T>(keep: T -> bool, s: seq<T>, x: T)
    ensures multiset(Filter(keep, s))[x] == if keep(x) then multiset(s)[x] else 0
  {
    if s == [] {
    } else {
      FilterCount(keep, s[1..], x);
      assert s == [s[0]] + s[1..];
    }
  }

  /** Filtering reads which elements there are, not where they stand. */
  lemma FilterPermutes<T(!new)>(keep: T -> bool, a: seq<T>, b: seq<T>)
    requires multiset(a) == multiset(b)
    ensures multiset(Filter(keep, a)) == multiset(Filter(keep, b))
    ensures |Filter(keep, a)| == |Filter(keep, b)|
  {
    var kept, kept' := multiset(Filter(keep, a)), multiset(Filter(keep, b));
    forall x: T ensures kept[x] == kept'[x] {
      FilterCount(keep, a, x);
      FilterCount(keep, b, x);
    }
    assert kept == kept';
    assert |Filter(keep, a)| == |multiset(Filter(keep, a))|;
    assert |Filter(keep, b)| == |multiset(Filter(keep, b))|;
  }

  lemma {:induction false} FilterAll<T>(keep: T -> bool, s: seq<T>)
    requires forall x | x in s :: keep(x)
    ensures Filter(keep, s) == s
  {
    if s == [] {
    } else {
      FilterAll(keep, s[1..]);
      assert s == [s[0]] + s[1..];
    }
  }

  lemma {:induction false} FilterNone<T>(keep: T -> bool, s: seq<T>)
    requires forall x | x in s :: !keep(x)
    ensures Filter(keep, s) == []
  {
    if s != [] {
      FilterNone(keep, s[1..]);
    }
  }

  /** Two filters that agree on every element keep the same sequence. */
  lemma {:induction false} FilterAgree<T>(p: T -> bool, q: T -> bool, s: seq<T>)
    requires forall x | x in s :: p(x) == q(x)
    ensures Filter(p, s) == Filter(q, s)
  {
    if s == [] {
    } else {
      FilterAgree(p, q, s[1..]);
    }
  }

  /** Filtering twice is filtering once by the stronger condition. */
  lemma {:induction false} FilterTwice<T>(p: T -> bool, q: T -> bool, both: T -> bool, s: seq<T>)
    requires forall x | x in s :: both(x) == (p(x) && q(x))
    ensures Filter(q, Filter(p, s)) == Filter(both, s)
  {
    if s == [] {
    } else {
      FilterTwice(p, q, both, s[1..]);
      FilterConcat(q, if p(s[0]) then [s[0]] else [], Filter(p, s[1..]));
    }
  }

  /** A filter that keeps exactly the first `k` elements. */
  lemma {:induction false} FilterPrefix<T>(keep: T -> bool, s: seq<T>, k: nat)
    requires k <= |s| && forall i | 0 <= i < |s| :: keep(s[i]) <==> i < k
    ensures Filter(keep, s) == s[..k]
  {
    var front, back := s[..k], s[k..];
    SplitAt(s, k);
    FilterConcat(keep, front, back);
    FilterAll(keep, front);
    FilterNone(keep, back);
    assert front + [] == front;
  }

  lemma SplitAt<T>(s: seq<T>, k: nat)
    requires k <= |s|
    ensures s == s[..k] + s[k..]
    ensures forall i | 0 <= i < |s| - k :: s[k..][i] == s[k + i]
  {
  }

  lemma FilterOnly<T>(keep: T -> bool, s: seq<T>, k: nat)
    requires k < |s| && forall i | 0 <= i < |s| :: keep(s[i]) <==> i == k
    ensures Filter(keep, s) == [s[k]]
  {
    assert s == s[..k] + s[k..];
    assert forall i | 0 <= i < |s[k..]| :: s[k..][i] == s[k + i];
    FilterConcat(keep, s[..k], s[k..]);
    FilterNone(keep, s[..k]);
    FilterPrefix(keep, s[k..], 1);
  }

  lemma FilterPair<T>(keep: T -> bool, s: seq<T>, k: nat)
    requires 0 < k < |s| && keep(s[k - 1]) && keep(s[k])
    ensures |Filter(keep, s)| >= 2
  {
    var pair := [s[k - 1], s[k]];
    assert s == s[..k - 1] + (pair + s[k + 1..]);
    FilterConcat(keep, s[..k - 1], pair + s[k + 1..]);
    FilterConcat(keep, pair, s[k + 1..]);
    FilterAll(keep, pair);
  }

  /** Two filters that differ on one position differ in length by one. */
  lemma FilterOneMore<T>(p: T -> bool, q: T -> bool, s: seq<T>, k: nat)
    requires k < |s| && p(s[k]) && !q(s[k])
    requires forall i | 0 <= i < |s| && i != k :: p(s[i]) == q(s[i])
    ensures |Filter(p, s)| == |Filter(q, s)| + 1
  {
    var front, back := s[..k], s[k + 1..];
    assert s == front + ([s[k]] + back);
    assert forall i | 0 <= i < |back| :: back[i] == s[k + 1 + i];
    FilterAgree(p, q, front);
    FilterAgree(p, q, back);
    FilterConcat(p, front, [s[k]] + back);
    FilterConcat(p, [s[k]], back);
    FilterConcat(q, front, [s[k]] + back);
    FilterConcat(q, [s[k]], back);
    FilterAll(p, [s[k]]);
    FilterNone(q, [s[k]]);
  }

  lemma {:induction false} FilterDistinct<T>(keep: T -> bool, s: seq<T>)
    requires Distinct(s)
    ensures Distinct(Filter(keep, s))
  {
    if s == [] {
    } else {
      FilterDistinct(keep, s[1..]);
      FilterMember(keep, s[1..], s[0]);
      var rest := Filter(keep, s[1..]);
      assert s[0] !in s[1..];
      assert forall j | 0 <= j < |rest| :: rest[j] in rest;
    }
  }

  lemma MapMember<T, U>(f: T -> U, s: seq<T>, x: U)
    ensures x in Map(f, s) <==> exists r :: r in s && x == f(r)
  {
    if x in Map(f, s) {
      var i :| 0 <= i < |s| && Map(f, s)[i] == x;
      assert s[i] in s;
    }
    if r :| r in s && x == f(r) {
      var i :| 0 <= i < |s| && s[i] == r;
      assert Map(f, s)[i] == x;
    }
  }

  lemma {:induction false} MapConcat<T, U>(f: T -> U, a: seq<T>, b: seq<T>)
    ensures Map(f, a + b) == Map(f, a) + Map(f, b)
  {
  }

  /** A filter that reads only the image commutes with the mapping. */
  lemma {:induction false} FilterMap<T, U>(f: T -> U, p: U -> bool, q: T -> bool, s: seq<T>)
    requires forall x | x in s :: q(x) == p(f(x))
    ensures Filter(p, Map(f, s)) == Map(f, Filter(q, s))
  {
    if s == [] {
    } else {
      FilterMap(f, p, q, s[1..]);
      assert s[0] in s;
      MapConcat(f, if q(s[0]) then [s[0]] else [], Filter(q, s[1..]));
      assert Map(f, s) == [f(s[0])] + Map(f, s[1..]);
      assert Map(f, s)[1..] == Map(f, s[1..]);
      assert Map(f, [s[0]]) == [f(s[0])];
      assert Map(f, []) == [];
    }
  }

  // ------------------------------------------------------------- permutations

  lemma SameMembers<T(!new)>(a: seq<T>, b: seq<T>)
    requires multiset(a) == multiset(b)
    ensures |a| == |b| && forall x :: x in a <==> x in b
  {
    assert |a| == |multiset(a)| && |b| == |multiset(b)|;
    forall x ensures x in a <==> x in b {
      assert x in a <==> x in multiset(a);
      assert x in b <==> x in multiset(b);
    }
  }

  lemma CountAtMostLength<T>(s: seq<T>, x: T)
    ensures multiset(s)[x] <= |s|
  {
    assert |multiset(s)| == |s|;
    assert multiset(s) == (multiset(s) - multiset{x}[x := multiset(s)[x]]) + multiset{x}[x := multiset(s)[x]];
  }

  lemma CountsTwice<T>(s: seq<T>, i: nat, j: nat)
    requires i < j < |s| && s[i] == s[j]
    ensures multiset(s)[s[i]] >= 2
  {
    assert s == s[..i] + [s[i]] + s[i + 1..j] + [s[j]] + s[j + 1..];
  }

  /** What stands at two positions of a permutation stands at two positions of the original. */
  lemma TwoPositions<T>(a: seq<T>, b: seq<T>, i: nat, j: nat)
    requires multiset(a) == multiset(b) && i < j < |b|
    ensures exists p, q :: 0 <= p < |a| && 0 <= q < |a| && p != q && a[p] == b[i] && a[q] == b[j]
  {
    assert b[i] in multiset(a) && b[j] in multiset(a);
    var p :| 0 <= p < |a| && a[p] == b[i];
    if b[i] != b[j] {
      var q :| 0 <= q < |a| && a[q] == b[j];
    } else {
      CountsTwice(b, i, j);
      assert a == a[..p] + [a[p]] + a[p + 1..];
      assert multiset(a) == multiset(a[..p]) + multiset{a[p]} + multiset(a[p + 1..]);
      assert b[i] in multiset(a[..p]) || b[i] in multiset(a[p + 1..]);
      if b[i] in a[..p] {
        var q :| 0 <= q < p && a[..p][q] == b[i];
        assert a[q] == b[j];
      } else {
        var q :| 0 <= q < |a[p + 1..]| && a[p + 1..][q] == b[i];
        assert a[p + 1 + q] == b[j];
      }
    }
  }

  lemma {:induction false} MapPermutes<T, U>(f: T -> U, a: seq<T>, b: seq<T>)
    requires multiset(a) == multiset(b)
    ensures multiset(Map(f, a)) == multiset(Map(f, b))
  {
    if a == [] {
      assert |b| == |multiset(b)| == 0;
    } else {
      var i := Without(a, b);
      MapPermutes(f, a[1..], b[..i] + b[i + 1..]);
      MapConcat(f, b[..i], b[i + 1..]);
      MapConcat(f, b[..i], [b[i]] + b[i + 1..]);
      MapConcat(f, [b[i]], b[i + 1..]);
      assert Map(f, [b[i]]) == [f(b[i])];
    }
  }

  /** Where a permutation holds the first element, and what is left of each without it. */
  lemma Without<T>(a: seq<T>, b: seq<T>) returns (i: nat)
    requires multiset(a) == multiset(b) && a != []
    ensures i < |b| && b[i] == a[0] && b == b[..i] + ([b[i]] + b[i + 1..])
    ensures multiset(a[1..]) == multiset(b[..i] + b[i + 1..])
  {
    assert a[0] in multiset(b);
    i :| 0 <= i < |b| && b[i] == a[0];
    assert a == [a[0]] + a[1..];
    assert b == b[..i] + ([b[i]] + b[i + 1..]);
    assert multiset(a[1..]) == multiset(b) - multiset{b[i]} == multiset(b[..i] + b[i + 1..]);
  }

  lemma PermutedStaysDistinct<T>(a: seq<T>, b: seq<T>)
    requires Distinct(a) && multiset(a) == multiset(b)
    ensures Distinct(b)
  {
    forall i, j | 0 <= i < j < |b| ensures b[i] != b[j] {
      TwoPositions(a, b, i, j);
    }
  }

  lemma SameFrontAndLast<T>(a: seq<T>, b: seq<T>)
    requires a != [] && b != [] && a[..|a| - 1] == b[..|b| - 1] && a[|a| - 1] == b[|b| - 1]
    ensures a == b
  {
    assert a == a[..|a| - 1] + [a[|a| - 1]];
    assert b == b[..|b| - 1] + [b[|b| - 1]];
  }

  // ------------------------------------------------------------------ sorting

  lemma {:induction false} InsertPermutes<T>(le: (T, T) -> bool, x: T, s: seq<T>)
    ensures multiset(Insert(le, x, s)) == multiset{x} + multiset(s)
  {
    if s == [] || le(x, s[0]) {
    } else {
      InsertPermutes(le, x, s[1..]);
      assert s == [s[0]] + s[1..];
    }
  }

  lemma {:induction false} SortPermutes<T(!new)>(le: (T, T) -> bool, s: seq<T>)
    ensures multiset(Sort(le, s)) == multiset(s)
    ensures |Sort(le, s)| == |s|
    ensures forall x :: x in Sort(le, s) <==> x in s
  {
    if s == [] {
    } else {
      SortPermutes(le, s[1..]);
      InsertPermutes(le, s[0], Sort(le, s[1..]));
      assert s == [s[0]] + s[1..];
    }
    assert |Sort(le, s)| == |multiset(Sort(le, s))|;
    assert |s| == |multiset(s)|;
    assert forall x :: x in Sort(le, s) <==> x in multiset(Sort(le, s));
    assert forall x :: x in s <==> x in multiset(s);
  }

  /** Putting an element in front of a sorted sequence none of which it exceeds. */
  lemma ConsSorted<T>(le: (T, T) -> bool, x: T, s: seq<T>)
    requires SortedBy(le, s)
    requires forall y | y in s :: le(x, y)
    ensures SortedBy(le, [x] + s)
  {
  }

  lemma {:induction false} InsertSorted<T(!new)>(le: (T, T) -> bool, x: T, s: seq<T>)
    requires TotalPreorder(le) && SortedBy(le, s)
    ensures SortedBy(le, Insert(le, x, s))
  {
    if s == [] {
    } else if le(x, s[0]) {
      forall y | y in s ensures le(x, y) {
        var i :| 0 <= i < |s| && s[i] == y;
        assert i == 0 || le(s[0], s[i]);
      }
      ConsSorted(le, x, s);
    } else {
      InsertSorted(le, x, s[1..]);
      InsertPermutes(le, x, s[1..]);
      forall y | y in Insert(le, x, s[1..]) ensures le(s[0], y) {
        assert y in multiset(Insert(le, x, s[1..]));
        assert y == x || y in s[1..];
      }
      ConsSorted(le, s[0], Insert(le, x, s[1..]));
    }
  }

  lemma {:induction false} SortSorts<T(!new)>(le: (T, T) -> bool, s: seq<T>)
    requires TotalPreorder(le)
    ensures SortedBy(le, Sort(le, s))
  {
    if s == [] {
    } else {
      SortSorts(le, s[1..]);
      InsertSorted(le, s[0], Sort(le, s[1..]));
    }
  }

  /** Where no two elements tie, one multiset has one sorted arrangement. */
  lemma {:induction false} SortedUnique<T(!new)>(le: (T, T) -> bool, a: seq<T>, b: seq<T>)
    requires TotalPreorder(le) && SortedBy(le, a) && SortedBy(le, b)
    requires multiset(a) == multiset(b)
    requires NoTies(le, a)
    ensures a == b
  {
    SameMembers(a, b);
    if a != [] {
      HeadsAgree(le, a, b);
      TailsPermute(a, b);
      SortedUnique(le, a[1..], b[1..]);
      SameBySplitting(a, b);
    }
  }

  lemma TailsPermute<T>(a: seq<T>, b: seq<T>)
    requires a != [] && b != [] && a[0] == b[0] && multiset(a) == multiset(b)
    ensures multiset(a[1..]) == multiset(b[1..])
  {
    assert a == [a[0]] + a[1..] && b == [b[0]] + b[1..];
    assert multiset(a[1..]) == multiset(a) - multiset{a[0]} == multiset(b[1..]);
  }

  lemma SameBySplitting<T>(a: seq<T>, b: seq<T>)
    requires a != [] && b != [] && a[0] == b[0] && a[1..] == b[1..]
    ensures a == b
  {
    assert a == [a[0]] + a[1..] && b == [b[0]] + b[1..];
  }

  lemma HeadsAgree<T(!new)>(le: (T, T) -> bool, a: seq<T>, b: seq<T>)
    requires TotalPreorder(le) && SortedBy(le, a) && SortedBy(le, b)
    requires multiset(a) == multiset(b) && a != [] && b != []
    requires NoTies(le, a)
    ensures a[0] == b[0]
  {
    assert a[0] in multiset(b) && b[0] in multiset(a);
    var i :| 0 <= i < |b| && b[i] == a[0];
    var j :| 0 <= j < |a| && a[j] == b[0];
    assert i == 0 || le(b[0], b[i]);
    assert j == 0 || le(a[0], a[j]);
    assert le(a[0], a[0]);
  }

  /** Sorting a permutation of an input without ties gives the same sequence. */
  lemma SortIgnoresArrival<T(!new)>(le: (T, T) -> bool, a: seq<T>, b: seq<T>)
    requires TotalPreorder(le) && multiset(a) == multiset(b) && NoTies(le, a)
    ensures Sort(le, a) == Sort(le, b)
  {
    SortPermutes(le, a);
    SortPermutes(le, b);
    SortSorts(le, a);
    SortSorts(le, b);
    SortedUnique(le, Sort(le, a), Sort(le, b));
  }

  /** Sorting a sorted input leaves it alone. */
  lemma {:induction false} SortOfSorted<T>(le: (T, T) -> bool, s: seq<T>)
    requires SortedBy(le, s)
    ensures Sort(le, s) == s
  {
    if s == [] {
    } else {
      SortOfSorted(le, s[1..]);
      assert |s| > 1 ==> le(s[0], s[1]);
      assert s == [s[0]] + s[1..];
    }
  }

  // ---------------------------------------------------------------- stability

  lemma {:induction false} InsertAgree<T>(le: (T, T) -> bool, le': (T, T) -> bool, x: T, s: seq<T>)
    requires forall y | y in s :: le(x, y) == le'(x, y)
    ensures Insert(le, x, s) == Insert(le', x, s)
  {
    if s != [] {
      InsertAgree(le, le', x, s[1..]);
    }
  }

  /** Orders that agree on every pair as it arrived sort the arrivals alike. */
  lemma {:induction false} SortAgree<T(!new)>(le: (T, T) -> bool, le': (T, T) -> bool, s: seq<T>)
    requires forall i, j | 0 <= i < j < |s| :: le(s[i], s[j]) == le'(s[i], s[j])
    ensures Sort(le, s) == Sort(le', s)
  {
    if s == [] {
    } else {
      SortAgree(le, le', s[1..]);
      SortPermutes(le, s[1..]);
      InsertAgree(le, le', s[0], Sort(le, s[1..]));
    }
  }

  lemma {:induction false} FilterInsert<T(!new)>(le: (T, T) -> bool, keep: T -> bool, x: T, s: seq<T>)
    requires TotalPreorder(le) && SortedBy(le, s)
    ensures Filter(keep, Insert(le, x, s))
         == if keep(x) then Insert(le, x, Filter(keep, s)) else Filter(keep, s)
  {
    if s == [] {
    } else if le(x, s[0]) {
      assert ([x] + s)[1..] == s;
      var kept := Filter(keep, s);
      if kept != [] {
        FilterMember(keep, s, kept[0]);
        var i :| 0 <= i < |s| && s[i] == kept[0];
        assert i == 0 || le(s[0], s[i]);
      }
    } else {
      FilterInsert(le, keep, x, s[1..]);
      var rest := Insert(le, x, s[1..]);
      assert ([s[0]] + rest)[1..] == rest;
      if keep(s[0]) && keep(x) {
        var kept := Filter(keep, s);
        assert kept == [s[0]] + Filter(keep, s[1..]);
        assert kept[1..] == Filter(keep, s[1..]);
      } else if keep(x) {
        assert Filter(keep, s) == Filter(keep, s[1..]);
      }
    }
  }

  /** Stability, said once for every selection: sorting and filtering commute. */
  lemma {:induction false} FilterSort<T(!new)>(le: (T, T) -> bool, keep: T -> bool, s: seq<T>)
    requires TotalPreorder(le)
    ensures Filter(keep, Sort(le, s)) == Sort(le, Filter(keep, s))
  {
    if s == [] {
    } else {
      FilterSort(le, keep, s[1..]);
      SortSorts(le, s[1..]);
      FilterInsert(le, keep, s[0], Sort(le, s[1..]));
      if keep(s[0]) {
        var kept := [s[0]] + Filter(keep, s[1..]);
        assert kept[1..] == Filter(keep, s[1..]);
      } else {
        assert Filter(keep, s) == Filter(keep, s[1..]);
      }
    }
  }

  /** `f` takes the order `le` on the elements of `s` to the order `le'` on their images. */
  ghost predicate KeepsOrder<T, U>(le: (T, T) -> bool, le': (U, U) -> bool, f: T -> U, s: seq<T>) {
    forall a, b | a in s && b in s :: le(a, b) == le'(f(a), f(b))
  }

  lemma {:induction false} MapInsert<T, U>(le: (T, T) -> bool, le': (U, U) -> bool, f: T -> U, x: T, s: seq<T>)
    requires KeepsOrder(le, le', f, s + [x])
    ensures Map(f, Insert(le, x, s)) == Insert(le', f(x), Map(f, s))
  {
    if s == [] {
    } else {
      assert s[0] in s + [x] && x in s + [x];
      assert le(x, s[0]) == le'(f(x), f(s[0]));
      if le(x, s[0]) {
        MapConcat(f, [x], s);
        assert Map(f, [x]) == [f(x)];
      } else {
        KeepsOrderOn(le, le', f, s + [x], s[1..] + [x]);
        MapInsert(le, le', f, x, s[1..]);
        MapConcat(f, [s[0]], Insert(le, x, s[1..]));
        assert Map(f, s)[1..] == Map(f, s[1..]);
        assert Map(f, [s[0]]) == [f(s[0])];
      }
    }
  }

  lemma KeepsOrderOn<T, U>(le: (T, T) -> bool, le': (U, U) -> bool, f: T -> U, s: seq<T>, part: seq<T>)
    requires KeepsOrder(le, le', f, s)
    requires forall a | a in part :: a in s
    ensures KeepsOrder(le, le', f, part)
  {
  }

  /** Relabelling the elements without touching their order commutes with sorting. */
  lemma {:induction false} MapSort<T(!new), U>(le: (T, T) -> bool, le': (U, U) -> bool, f: T -> U, s: seq<T>)
    requires KeepsOrder(le, le', f, s)
    ensures Map(f, Sort(le, s)) == Sort(le', Map(f, s))
  {
    if s == [] {
    } else {
      var rest := Sort(le, s[1..]);
      SortPermutes(le, s[1..]);
      KeepsOrderOn(le, le', f, s, s[1..]);
      MapSort(le, le', f, s[1..]);
      forall a | a in rest + [s[0]] ensures a in s {
        assert a == s[0] || a in s[1..];
      }
      KeepsOrderOn(le, le', f, s, rest + [s[0]]);
      MapInsert(le, le', f, s[0], rest);
      assert Map(f, s)[1..] == Map(f, s[1..]);
    }
  }
}
