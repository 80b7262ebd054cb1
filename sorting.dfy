/**
 * `Array.prototype.sort`, which has been stable since ECMAScript 2019, over a
 * total preorder: an insertion sort with the three facts callers rely on,
 * that the result is ordered, that it is a permutation of the input, and
 * that elements the order ties keep their input order.
 */
module Sorting {

  /** `le` orders any two values and is transitive. */
  ghost predicate TotalPreorder<T(!new)>(le: (T, T) -> bool) {
    && (forall a, b :: le(a, b) || le(b, a))
    && (forall a, b, c :: le(a, b) && le(b, c) ==> le(a, c))
  }

  ghost predicate Sorted<T>(s: seq<T>, le: (T, T) -> bool) {
    forall i, j :: 0 <= i < j < |s| ==> le(s[i], s[j])
  }

  /** Places `x` after every element that is not above it, so that among
      equal elements the one inserted last comes last. */
  function Insert<T>(x: T, s: seq<T>, le: (T, T) -> bool): (r: seq<T>)
    ensures multiset(r) == multiset(s) + multiset{x}
  {
    if s == [] then [x]
    else if le(s[0], x) then
      assert s == [s[0]] + s[1..];
      [s[0]] + Insert(x, s[1..], le)
    else [x] + s
  }

  /** The elements of `s` in order; elements the order ties keep their order. */
  function Sort<T>(s: seq<T>, le: (T, T) -> bool): (r: seq<T>)
    ensures multiset(r) == multiset(s)
  {
    if s == [] then []
    else
      assert s == s[..|s| - 1] + [s[|s| - 1]];
      Insert(s[|s| - 1], Sort(s[..|s| - 1], le), le)
  }

  lemma {:induction false} InsertSorted<T(!new)>(x: T, s: seq<T>, le: (T, T) -> bool)
    requires TotalPreorder(le)
    requires Sorted(s, le)
    ensures Sorted(Insert(x, s, le), le)
  {
    if s != [] && le(s[0], x) {
      SortedTail(s, le);
      InsertSorted(x, s[1..], le);
      InsertSortedSkip(x, s, le);
    } else if s != [] {
      InsertSortedFront(x, s, le);
    }
  }

  /** `x` goes past the first element, which is below `x` and below the rest. */
  lemma InsertSortedSkip<T>(x: T, s: seq<T>, le: (T, T) -> bool)
    requires s != [] && le(s[0], x) && Sorted(s, le)
    requires Sorted(Insert(x, s[1..], le), le)
    ensures Sorted(Insert(x, s, le), le)
  {
    var tail := Insert(x, s[1..], le);
    assert Insert(x, s, le) == [s[0]] + tail;
    BelowAll(s, x, tail, le);
    ConsSorted(s[0], tail, le);
  }

  /** The head of a sorted `s` is below `x` and every later element, so
      below every element of a permutation of `s[1..]` and `x`. */
  lemma BelowAll<T>(s: seq<T>, x: T, tail: seq<T>, le: (T, T) -> bool)
    requires s != [] && le(s[0], x) && Sorted(s, le)
    requires multiset(tail) == multiset(s[1..]) + multiset{x}
    ensures forall k :: 0 <= k < |tail| ==> le(s[0], tail[k])
  {
    forall k | 0 <= k < |tail| ensures le(s[0], tail[k]) {
      assert tail[k] in multiset(tail);
      if tail[k] != x {
        assert tail[k] in multiset(s[1..]);
        var m :| 0 <= m < |s[1..]| && s[1..][m] == tail[k];
        assert s[1..][m] == s[m + 1];
      }
    }
  }

  /** A head below every element of a sorted tail keeps it sorted. */
  lemma ConsSorted<T>(h: T, tail: seq<T>, le: (T, T) -> bool)
    requires Sorted(tail, le)
    requires forall k :: 0 <= k < |tail| ==> le(h, tail[k])
    ensures Sorted([h] + tail, le)
  {
    var r := [h] + tail;
    forall i, j | 0 <= i < j < |r| ensures le(r[i], r[j]) {
      if i == 0 {
        assert r[j] == tail[j - 1];
      } else {
        assert r[i] == tail[i - 1] && r[j] == tail[j - 1];
      }
    }
  }

  /** `x` goes in front, below the first element and so below all. */
  lemma InsertSortedFront<T(!new)>(x: T, s: seq<T>, le: (T, T) -> bool)
    requires TotalPreorder(le) && Sorted(s, le)
    requires s != [] && !le(s[0], x)
    ensures Sorted(Insert(x, s, le), le)
  {
    var r := [x] + s;
    assert Insert(x, s, le) == r;
    forall i, j | 0 <= i < j < |r| ensures le(r[i], r[j]) {
      if i == 0 {
        assert le(x, s[0]);
        if j > 1 {
          assert le(s[0], s[j - 1]);
        }
      }
    }
  }

  lemma {:induction false} SortSorted<T(!new)>(s: seq<T>, le: (T, T) -> bool)
    requires TotalPreorder(le)
    ensures Sorted(Sort(s, le), le)
  {
    if s != [] {
      SortSorted(s[..|s| - 1], le);
      InsertSorted(s[|s| - 1], Sort(s[..|s| - 1], le), le);
    }
  }

  // -------------------------------------------------------------- stability

  /** The elements of `s` that `le` ties with `x`, in their order in `s`. */
  function Ties<T>(s: seq<T>, le: (T, T) -> bool, x: T): (r: seq<T>)
    ensures |r| <= |s|
  {
    if s == [] then []
    else (if le(x, s[0]) && le(s[0], x) then [s[0]] else []) + Ties(s[1..], le, x)
  }

  lemma {:induction false} TiesMembers<T>(s: seq<T>, le: (T, T) -> bool, x: T)
    ensures forall y :: y in Ties(s, le, x) <==> y in s && le(x, y) && le(y, x)
  {
    if s != [] {
      TiesMembers(s[1..], le, x);
      assert forall y :: y in s <==> y == s[0] || y in s[1..];
    }
  }

  lemma {:induction false} TiesAppend<T>(a: seq<T>, b: seq<T>, le: (T, T) -> bool, x: T)
    ensures Ties(a + b, le, x) == Ties(a, le, x) + Ties(b, le, x)
  {
    if a == [] {
      assert a + b == b;
    } else {
      assert (a + b)[0] == a[0] && (a + b)[1..] == a[1..] + b;
      TiesAppend(a[1..], b, le, x);
    }
  }

  lemma {:induction false} NoTies<T>(s: seq<T>, le: (T, T) -> bool, x: T)
    requires forall k :: 0 <= k < |s| ==> !(le(x, s[k]) && le(s[k], x))
    ensures Ties(s, le, x) == []
  {
    if s != [] {
      assert forall k :: 0 <= k < |s| - 1 ==> s[1..][k] == s[k + 1];
      NoTies(s[1..], le, x);
    }
  }

  /** Inserting `z` into a sorted sequence puts it after every element it
      ties with. */
  lemma {:induction false} InsertTies<T(!new)>(z: T, t: seq<T>, le: (T, T) -> bool, x: T)
    requires TotalPreorder(le) && Sorted(t, le)
    ensures Ties(Insert(z, t, le), le, x) == Ties(t, le, x) + (if le(x, z) && le(z, x) then [z] else [])
  {
    if t == [] {
      assert Insert(z, t, le) == [z];
      assert [z][1..] == [];
    } else if le(t[0], z) {
      SortedTail(t, le);
      InsertTies(z, t[1..], le, x);
      InsertTiesSkip(z, t, le, x);
    } else {
      InsertTiesFront(z, t, le, x);
    }
  }

  lemma SortedTail<T>(t: seq<T>, le: (T, T) -> bool)
    requires t != [] && Sorted(t, le)
    ensures Sorted(t[1..], le)
  {
    forall i, j | 0 <= i < j < |t| - 1 ensures le(t[1..][i], t[1..][j]) {
      assert t[1..][i] == t[i + 1] && t[1..][j] == t[j + 1];
    }
  }

  /** `z` goes past the first element, which keeps its place among the ties. */
  lemma InsertTiesSkip<T>(z: T, t: seq<T>, le: (T, T) -> bool, x: T)
    requires t != [] && le(t[0], z)
    requires Ties(Insert(z, t[1..], le), le, x) == Ties(t[1..], le, x) + (if le(x, z) && le(z, x) then [z] else [])
    ensures Ties(Insert(z, t, le), le, x) == Ties(t, le, x) + (if le(x, z) && le(z, x) then [z] else [])
  {
    var rest := Insert(z, t[1..], le);
    var h := if le(x, t[0]) && le(t[0], x) then [t[0]] else [];
    var tz := if le(x, z) && le(z, x) then [z] else [];
    assert Insert(z, t, le) == [t[0]] + rest;
    assert ([t[0]] + rest)[0] == t[0] && ([t[0]] + rest)[1..] == rest;
    assert Ties([t[0]] + rest, le, x) == h + Ties(rest, le, x);
    assert Ties(t, le, x) == h + Ties(t[1..], le, x);
    Associative(h, Ties(t[1..], le, x), tz);
  }

  lemma Associative<T>(a: seq<T>, b: seq<T>, c: seq<T>)
    ensures a + (b + c) == (a + b) + c
  {
  }

  /** `z` goes in front: then no element of `t` ties with it. */
  lemma InsertTiesFront<T(!new)>(z: T, t: seq<T>, le: (T, T) -> bool, x: T)
    requires TotalPreorder(le) && Sorted(t, le)
    requires t != [] && !le(t[0], z)
    ensures Ties(Insert(z, t, le), le, x) == Ties(t, le, x) + (if le(x, z) && le(z, x) then [z] else [])
  {
    assert Insert(z, t, le) == [z] + t;
    assert ([z] + t)[0] == z && ([z] + t)[1..] == t;
    if le(x, z) && le(z, x) {
      forall k | 0 <= k < |t| ensures !(le(x, t[k]) && le(t[k], x)) {
        if k > 0 {
          assert le(t[0], t[k]);
        }
      }
      NoTies(t, le, x);
    }
  }

  /** The sort is stable: the elements tied with any `x` keep their order. */
  lemma {:induction false} SortStable<T(!new)>(s: seq<T>, le: (T, T) -> bool, x: T)
    requires TotalPreorder(le)
    ensures Ties(Sort(s, le), le, x) == Ties(s, le, x)
  {
    if s != [] {
      var init, z := s[..|s| - 1], s[|s| - 1];
      SortStable(init, le, x);
      SortSorted(init, le);
      InsertTies(z, Sort(init, le), le, x);
      SortStableStep(s, le, x);
    }
  }

  /** Sorting `s` inserts its last element into the sorted rest; if that
      insertion and the sort of the rest keep the ties in order, so does
      the sort of `s`. */
  lemma SortStableStep<T>(s: seq<T>, le: (T, T) -> bool, x: T)
    requires s != []
    requires Ties(Sort(s[..|s| - 1], le), le, x) == Ties(s[..|s| - 1], le, x)
    requires var z := s[|s| - 1];
      Ties(Insert(z, Sort(s[..|s| - 1], le), le), le, x)
        == Ties(Sort(s[..|s| - 1], le), le, x) + (if le(x, z) && le(z, x) then [z] else [])
    ensures Ties(Sort(s, le), le, x) == Ties(s, le, x)
  {
    var init, z := s[..|s| - 1], s[|s| - 1];
    assert Sort(s, le) == Insert(z, Sort(init, le), le);
    LastSplit(s);
    TiesAfterAppend(init, z, Sort(init, le), Insert(z, Sort(init, le), le), le, x);
  }

  /** If `sorted` keeps the ties of `init` and `inserted` adds `z` after
      them, `inserted` keeps the ties of `init + [z]`. */
  lemma TiesAfterAppend<T>(init: seq<T>, z: T, sorted: seq<T>, inserted: seq<T>, le: (T, T) -> bool, x: T)
    requires Ties(sorted, le, x) == Ties(init, le, x)
    requires Ties(inserted, le, x) == Ties(sorted, le, x) + (if le(x, z) && le(z, x) then [z] else [])
    ensures Ties(inserted, le, x) == Ties(init + [z], le, x)
  {
    assert Ties([z], le, x) == if le(x, z) && le(z, x) then [z] else [] by {
      assert [z][1..] == [];
    }
    TiesAppend(init, [z], le, x);
  }

  lemma LastSplit<T>(s: seq<T>)
    requires s != []
    ensures s == s[..|s| - 1] + [s[|s| - 1]]
  {
  }
}
