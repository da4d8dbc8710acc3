/** Python's `list.sort(key=k)`: a stable sort that orders the elements by
    ascending key. The comparison is given as `le(a, b)`, "the key of `a` is
    at most the key of `b`"; elements whose keys compare equal both ways keep
    their relative order. Modelled as an insertion sort, which is one stable
    sort; all stable sorts by the same keys give the same list. */
module Sorting {

  /** `le` is total and transitive, as `<=` on Python's ints and tuples is. */
  ghost predicate TotalPreorder<T(!new)>(le: (T, T) -> bool) {
    && (forall a, b :: le(a, b) || le(b, a))
    && (forall a, b, c :: le(a, b) && le(b, c) ==> le(a, c))
  }

  /** `a` and `b` have equal keys. */
  predicate Equiv<T>(le: (T, T) -> bool, a: T, b: T) { le(a, b) && le(b, a) }

  ghost predicate Sorted<T>(s: seq<T>, le: (T, T) -> bool) {
    forall a, b :: 0 <= a < b < |s| ==> le(s[a], s[b])
  }

  /** Among elements with equal keys, `rank` increases along `s`. */
  ghost predicate TiesRanked<T>(s: seq<T>, le: (T, T) -> bool, rank: T -> int) {
    forall a, b :: 0 <= a < b < |s| && Equiv(le, s[a], s[b]) ==> rank(s[a]) < rank(s[b])
  }

  /** `x` placed in front of the first element whose key is not smaller. */
  function Insert<T>(x: T, s: seq<T>, le: (T, T) -> bool): (r: seq<T>)
    ensures multiset(r) == multiset(s) + multiset{x}
    ensures |r| == |s| + 1
  {
    if s == [] then [x]
    else if le(x, s[0]) then [x] + s
    else assert s == [s[0]] + s[1..]; [s[0]] + Insert(x, s[1..], le)
  }

  /** The stable sort of `s`. */
  function SortBy<T>(s: seq<T>, le: (T, T) -> bool): (r: seq<T>)
    ensures multiset(r) == multiset(s)
    ensures |r| == |s|
  {
    if s == [] then [] else assert s == [s[0]] + s[1..]; Insert(s[0], SortBy(s[1..], le), le)
  }

  lemma InsertMembers<T>(x: T, s: seq<T>, le: (T, T) -> bool)
    ensures forall y :: y in Insert(x, s, le) <==> y == x || y in s
  {
    var r := Insert(x, s, le);
    forall y ensures y in r <==> y == x || y in s {
      assert y in r <==> y in multiset(r);
      assert y in s <==> y in multiset(s);
    }
  }

  lemma {:induction false} InsertSorted<T(!new)>(x: T, s: seq<T>, le: (T, T) -> bool)
    requires TotalPreorder(le) && Sorted(s, le)
    ensures Sorted(Insert(x, s, le), le)
  {
    if s != [] && !le(x, s[0]) {
      var t := Insert(x, s[1..], le);
      InsertSorted(x, s[1..], le);
      InsertMembers(x, s[1..], le);
      assert Insert(x, s, le) == [s[0]] + t;
      forall b | 0 <= b < |t| ensures le(s[0], t[b]) {
        assert t[b] in t;
        if t[b] != x {
          var k :| 0 <= k < |s[1..]| && s[1..][k] == t[b];
          assert s[k + 1] == t[b];
        }
      }
    }
  }

  /** The sort orders its result by ascending key. */
  lemma {:induction false} SortBySorted<T(!new)>(s: seq<T>, le: (T, T) -> bool)
    requires TotalPreorder(le)
    ensures Sorted(SortBy(s, le), le)
  {
    if s != [] {
      SortBySorted(s[1..], le);
      InsertSorted(s[0], SortBy(s[1..], le), le);
    }
  }

  lemma ConsTiesRanked<T>(y: T, t: seq<T>, le: (T, T) -> bool, rank: T -> int)
    requires TiesRanked(t, le, rank)
    requires forall k :: 0 <= k < |t| && Equiv(le, y, t[k]) ==> rank(y) < rank(t[k])
    ensures TiesRanked([y] + t, le, rank)
  {
    var r := [y] + t;
    forall a, b | 0 <= a < b < |r| && Equiv(le, r[a], r[b]) ensures rank(r[a]) < rank(r[b]) {
      if a == 0 {
        assert r[b] == t[b - 1];
      } else {
        assert r[a] == t[a - 1] && r[b] == t[b - 1];
      }
    }
  }

  /** Inserting an element ranked below all of `s` keeps ties ranked: it
      goes in front of every element with its key. */
  lemma {:induction false} InsertTiesRanked<T>(x: T, s: seq<T>, le: (T, T) -> bool, rank: T -> int)
    requires TiesRanked(s, le, rank)
    requires forall k :: 0 <= k < |s| ==> rank(x) < rank(s[k])
    ensures TiesRanked(Insert(x, s, le), le, rank)
  {
    if s == [] {
      assert Insert(x, s, le) == [x];
    } else if le(x, s[0]) {
      ConsTiesRanked(x, s, le, rank);
    } else {
      var t := Insert(x, s[1..], le);
      assert TiesRanked(s[1..], le, rank);
      InsertTiesRanked(x, s[1..], le, rank);
      InsertMembers(x, s[1..], le);
      forall k | 0 <= k < |t| && Equiv(le, s[0], t[k]) ensures rank(s[0]) < rank(t[k]) {
        assert t[k] in t;
        assert t[k] != x;
        var m :| 0 <= m < |s[1..]| && s[1..][m] == t[k];
        assert s[m + 1] == t[k];
      }
      ConsTiesRanked(s[0], t, le, rank);
    }
  }

  /** Stability: when `rank` increases along `s`, elements with equal keys
      come out of the sort in increasing rank, that is, in input order. */
  lemma {:induction false} SortByTiesRanked<T>(s: seq<T>, le: (T, T) -> bool, rank: T -> int)
    requires forall a, b :: 0 <= a < b < |s| ==> rank(s[a]) < rank(s[b])
    ensures TiesRanked(SortBy(s, le), le, rank)
  {
    if s != [] {
      var t := SortBy(s[1..], le);
      SortByTiesRanked(s[1..], le, rank);
      SortByMembers(s[1..], le);
      forall k | 0 <= k < |t| ensures rank(s[0]) < rank(t[k]) {
        assert t[k] in multiset(t);
        assert t[k] in multiset(s[1..]);
        var m :| 0 <= m < |s[1..]| && s[1..][m] == t[k];
        assert s[m + 1] == t[k];
      }
      InsertTiesRanked(s[0], t, le, rank);
    }
  }

  /** The sort keeps exactly the elements of its input. */
  lemma SortByMembers<T>(s: seq<T>, le: (T, T) -> bool)
    ensures forall x :: x in SortBy(s, le) <==> x in s
  {
    var r := SortBy(s, le);
    forall x ensures x in r <==> x in s {
      assert x in r <==> x in multiset(r);
      assert x in s <==> x in multiset(s);
    }
  }
}
