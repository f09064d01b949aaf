/** Stable sorting by a comparison, and the listing of a finite set in a strict total order. */
module Orders {

  /** x placed before the first element of s it may precede, so that equals keep their order. */
  function Insert<T>(x: T, s: seq<T>, le: (T, T) -> bool): (r: seq<T>)
    ensures multiset(r) == multiset{x} + multiset(s)
    ensures |r| == |s| + 1
  {
    if s == [] then [x]
    else if le(x, s[0]) then [x] + s
    else
      assert s == [s[0]] + s[1..];
      [s[0]] + Insert(x, s[1..], le)
  }

  /** Stable insertion sort. Whatever the comparison is, the result is a rearrangement. */
  function SortBy<T>(s: seq<T>, le: (T, T) -> bool): (r: seq<T>)
    ensures multiset(r) == multiset(s)
    ensures |r| == |s|
  {
    if s == [] then []
    else
      assert s == [s[0]] + s[1..];
      Insert(s[0], SortBy(s[1..], le), le)
  }

  ghost predicate TotalPreorder<T(!new)>(le: (T, T) -> bool) {
    && (forall a, b :: le(a, b) || le(b, a))
    && (forall a, b, c :: le(a, b) && le(b, c) ==> le(a, c))
  }

  ghost predicate Sorted<T>(s: seq<T>, le: (T, T) -> bool) {
    forall i, j | 0 <= i < j < |s| :: le(s[i], s[j])
  }

  lemma SameElements<T>(a: seq<T>, b: seq<T>)
    requires multiset(a) == multiset(b)
    ensures forall x :: x in a <==> x in b
  {
    forall x
      ensures x in a <==> x in b
    {
      assert x in a <==> x in multiset(a);
      assert x in b <==> x in multiset(b);
    }
  }

  lemma {:induction false} InsertKeepsSorted<T(!new)>(x: T, s: seq<T>, le: (T, T) -> bool)
    requires TotalPreorder(le) && Sorted(s, le)
    ensures Sorted(Insert(x, s, le), le)
  {
    if s != [] && !le(x, s[0]) {
      InsertKeepsSorted(x, s[1..], le);
      var r := Insert(x, s[1..], le);
      forall y | y in r
        ensures le(s[0], y)
      {
        assert y in multiset(r);
        assert y == x || y in multiset(s[1..]);
        assert y == x || y in s[1..];
      }
    }
  }

  lemma {:induction false} SortBySorts<T(!new)>(s: seq<T>, le: (T, T) -> bool)
    requires TotalPreorder(le)
    ensures Sorted(SortBy(s, le), le)
  {
    if s != [] {
      SortBySorts(s[1..], le);
      InsertKeepsSorted(s[0], SortBy(s[1..], le), le);
    }
  }

  /** Sorting leaves a sorted sequence as it is. */
  lemma {:induction false} SortedStays<T(!new)>(s: seq<T>, le: (T, T) -> bool)
    requires Sorted(s, le)
    ensures SortBy(s, le) == s
  {
    if s != [] {
      SortedTail(s, le);
      SortedStays(s[1..], le);
      if |s| > 1 { assert le(s[0], s[1]); }
      assert s == [s[0]] + s[1..];
    }
  }

  ghost predicate Distinct<T>(s: seq<T>) {
    forall i, j | 0 <= i < j < |s| :: s[i] != s[j]
  }

  lemma {:induction false} DistinctCount<T>(s: seq<T>)
    ensures Distinct(s) <==> forall x | x in s :: multiset(s)[x] == 1
  {
    if s != [] {
      var t := s[1..];
      assert s == [s[0]] + t;
      DistinctCount(t);
      assert multiset(s) == multiset{s[0]} + multiset(t);
      if Distinct(s) {
        assert Distinct(t) by {
          forall i, j | 0 <= i < j < |t| ensures t[i] != t[j] { assert s[i + 1] != s[j + 1]; }
        }
        forall j | 0 <= j < |t| ensures t[j] != s[0] { assert s[0] != s[j + 1]; }
        assert s[0] !in multiset(t);
      }
      if forall x | x in s :: multiset(s)[x] == 1 {
        assert multiset(s)[s[0]] == 1 + multiset(t)[s[0]];
        assert s[0] !in multiset(t);
        assert s[0] !in t;
        forall x | x in t ensures multiset(t)[x] == 1 { assert multiset(s)[x] == 1; }
        assert Distinct(t);
        forall i, j | 0 <= i < j < |s| ensures s[i] != s[j] {
          if i > 0 { assert t[i - 1] != t[j - 1]; } else { assert s[j] == t[j - 1]; }
        }
      }
    }
  }

  /** Sorting keeps the elements, and keeps them distinct. */
  lemma SortByPermutes<T(!new)>(s: seq<T>, le: (T, T) -> bool)
    ensures forall x :: x in SortBy(s, le) <==> x in s
    ensures Distinct(SortBy(s, le)) <==> Distinct(s)
  {
    SameElements(SortBy(s, le), s);
    DistinctCount(s);
    DistinctCount(SortBy(s, le));
  }

  /** Without ties among its elements, a set of elements has one sorted arrangement. */
  lemma {:induction false} SortedUnique<T(!new)>(a: seq<T>, b: seq<T>, le: (T, T) -> bool)
    requires Sorted(a, le) && Sorted(b, le) && Distinct(a) && Distinct(b) && forall x :: x in a <==> x in b
    requires forall x, y | x in a && y in a && le(x, y) && le(y, x) :: x == y
    ensures a == b
  {
    if a != [] {
      assert a[0] in b;
      FirstPrecedes(b, le, a[0]);
      FirstPrecedes(a, le, b[0]);
      DistinctTail(a);
      DistinctTail(b);
      SortedTail(a, le);
      SortedTail(b, le);
      SortedUnique(a[1..], b[1..], le);
      assert a == [a[0]] + a[1..] && b == [b[0]] + b[1..];
    } else {
      HasFirst(b);
    }
  }

  lemma HasFirst<T>(s: seq<T>)
    ensures s == [] || s[0] in s
  {
  }

  lemma FirstPrecedes<T(!new)>(s: seq<T>, le: (T, T) -> bool, x: T)
    requires Sorted(s, le) && (x in s || s == [])
    ensures s == [] || (s[0] in s && (s[0] == x || le(s[0], x)))
  {
    if s != [] {
      var i :| 0 <= i < |s| && s[i] == x;
      assert i == 0 || le(s[0], s[i]);
    }
  }

  lemma DistinctTail<T(!new)>(s: seq<T>)
    requires Distinct(s) && s != []
    ensures Distinct(s[1..]) && forall x :: x in s[1..] <==> x in s && x != s[0]
  {
    assert s == [s[0]] + s[1..];
    assert forall i | 0 < i < |s| :: s[i] != s[0];
    assert forall i | 0 <= i < |s[1..]| :: s[1..][i] == s[i + 1];
  }

  lemma SortedTail<T>(s: seq<T>, le: (T, T) -> bool)
    requires Sorted(s, le) && s != []
    ensures Sorted(s[1..], le)
  {
    forall i, j | 0 <= i < j < |s[1..]| ensures le(s[1..][i], s[1..][j]) { assert le(s[i + 1], s[j + 1]); }
  }

  ghost predicate StrictTotal<T(!new)>(lt: (T, T) -> bool) {
    && (forall a :: !lt(a, a))
    && (forall a, b :: a == b || lt(a, b) || lt(b, a))
    && (forall a, b, c :: lt(a, b) && lt(b, c) ==> lt(a, c))
  }

  ghost function Least<T(!new)>(s: set<T>, lt: (T, T) -> bool): (m: T)
    requires s != {} && StrictTotal(lt)
    ensures m in s
    ensures forall x | x in s :: x == m || lt(m, x)
    decreases s
  {
    var x :| x in s;
    if s == {x} then x
    else
      var m := Least(s - {x}, lt);
      assert forall y | y in s :: y == x || y in s - {x};
      if lt(x, m) then x else m
  }

  /** The elements of s in increasing order, each once. */
  ghost function Listing<T(!new)>(s: set<T>, lt: (T, T) -> bool): (r: seq<T>)
    requires StrictTotal(lt)
    ensures |r| == |s|
    ensures forall x :: x in r <==> x in s
    ensures forall i, j | 0 <= i < j < |r| :: lt(r[i], r[j])
    decreases s
  {
    if s == {} then []
    else
      var m := Least(s, lt);
      var rest := Listing(s - {m}, lt);
      assert forall x :: x in s <==> x == m || x in s - {m};
      [m] + rest
  }

  lemma Asymmetric<T(!new)>(lt: (T, T) -> bool, a: T, b: T)
    requires StrictTotal(lt)
    ensures !(lt(a, b) && lt(b, a))
  {
  }

  lemma Transitive<T(!new)>(lt: (T, T) -> bool, a: T, b: T, c: T)
    requires StrictTotal(lt) && lt(a, b) && lt(b, c)
    ensures lt(a, c)
  {
  }

  ghost predicate Increasing<T>(r: seq<T>, lt: (T, T) -> bool) {
    forall i, j | 0 <= i < j < |r| :: lt(r[i], r[j])
  }

  lemma FirstIsLeast<T(!new)>(s: set<T>, lt: (T, T) -> bool, r: seq<T>)
    requires StrictTotal(lt) && r != [] && Increasing(r, lt) && forall x :: x in r <==> x in s
    ensures s != {} && r[0] == Least(s, lt)
  {
    hide StrictTotal;
    assert r[0] in s;
    var m := Least(s, lt);
    var k :| 0 <= k < |r| && r[k] == m;
    if k > 0 {
      assert lt(r[0], r[k]);
      Asymmetric(lt, r[0], m);
    }
  }

  lemma RestAfterFirst<T(!new)>(s: set<T>, lt: (T, T) -> bool, r: seq<T>)
    requires StrictTotal(lt) && r != [] && Increasing(r, lt) && forall x :: x in r <==> x in s
    ensures Increasing(r[1..], lt) && forall x :: x in r[1..] <==> x in s - {r[0]}
  {
    hide StrictTotal;
    assert r == [r[0]] + r[1..];
    if r[0] in r[1..] {
      var i :| 0 < i < |r| && r[i] == r[0];
      assert lt(r[0], r[i]);
      Asymmetric(lt, r[0], r[i]);
    }
  }

  /** There is only one increasing listing. */
  lemma {:induction false} ListingUnique<T(!new)>(s: set<T>, lt: (T, T) -> bool, r: seq<T>)
    requires StrictTotal(lt) && Increasing(r, lt) && forall x :: x in r <==> x in s
    ensures r == Listing(s, lt)
    decreases |r|
  {
    hide StrictTotal, Increasing, Least;
    if r == [] {
      assert s == {};
    } else {
      FirstIsLeast(s, lt, r);
      RestAfterFirst(s, lt, r);
      ListingUnique(s - {r[0]}, lt, r[1..]);
      assert r == [r[0]] + r[1..];
    }
  }

  /** What follows the k-th element of a listing is the listing of everything after that element. */
  lemma ListingTail<T(!new)>(all: set<T>, lt: (T, T) -> bool, k: nat, tail: set<T>)
    requires StrictTotal(lt) && 0 < k <= |Listing(all, lt)|
    requires forall r :: r in tail <==> r in all && lt(Listing(all, lt)[k - 1], r)
    ensures Listing(tail, lt) == Listing(all, lt)[k..]
  {
    hide StrictTotal;
    var rows := Listing(all, lt);
    forall r
      ensures r in rows[k..] <==> r in tail
    {
      ListedAfter(all, lt, k, r);
    }
    ListingUnique(tail, lt, rows[k..]);
  }

  lemma LaterIffGreater<T(!new)>(r: seq<T>, lt: (T, T) -> bool, i: nat, j: nat)
    requires StrictTotal(lt) && Increasing(r, lt) && i < |r| && j < |r|
    ensures i < j <==> lt(r[i], r[j])
  {
  }

  lemma ListedAfter<T(!new)>(all: set<T>, lt: (T, T) -> bool, k: nat, r: T)
    requires StrictTotal(lt) && 0 < k <= |Listing(all, lt)|
    ensures r in Listing(all, lt)[k..] <==> r in all && lt(Listing(all, lt)[k - 1], r)
  {
    hide StrictTotal, Increasing, Listing, Least;
    var rows := Listing(all, lt);
    assert Increasing(rows, lt) by { ListingIncreases(all, lt); }
    if r in all {
      var j :| 0 <= j < |rows| && rows[j] == r;
      LaterIffGreater(rows, lt, k - 1, j);
      if j >= k { assert rows[k..][j - k] == r; }
      if r in rows[k..] {
        var i :| k <= i < |rows| && rows[i] == r;
        LaterIffGreater(rows, lt, k - 1, i);
      }
    } else {
      assert forall i | k <= i < |rows| :: rows[i] in rows;
    }
  }

  lemma ListingIncreases<T(!new)>(all: set<T>, lt: (T, T) -> bool)
    requires StrictTotal(lt)
    ensures Increasing(Listing(all, lt), lt)
  {
  }
}
