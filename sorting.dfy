/** `Collections.sort` on a list of appointments, which the report renderer
    calls before printing. The library sort is stable; here it is an
    insertion sort, specified by `StableSorted` and proved sorted, a
    permutation and stable. */
module Sorting {
  import opened Appointments

  /** Every earlier element compares at most equal to every later one. */
  predicate Sorted(s: seq<Appointment>)
  {
    forall i, j | 0 <= i < j < |s| :: CompareTo(s[i], s[j]) <= 0
  }

  /** Inserts `x` in front of the first element that compares greater than
      it. In a sorted list that is behind every element that does not
      compare greater, so `x` lands behind its equals (`InsertPosition`). */
  function Insert(s: seq<Appointment>, x: Appointment): seq<Appointment>
  {
    if s == [] then [x]
    else if CompareTo(x, s[0]) < 0 then [x] + s
    else [s[0]] + Insert(s[1..], x)
  }

  /** The sorted list: each element in turn, from first to last, inserted
      into the sorted list of those before it. */
  function StableSorted(s: seq<Appointment>): seq<Appointment>
  {
    if s == [] then []
    else Insert(StableSorted(s[..|s| - 1]), s[|s| - 1])
  }

  /** The elements whose sort keys are `k`, in their order in `s`: the
      appointments that `compareTo` cannot tell apart. */
  function KeyRun(s: seq<Appointment>, k: SortKey): seq<Appointment>
  {
    if s == [] then []
    else (if Key(s[0]) == k then [s[0]] else []) + KeyRun(s[1..], k)
  }

  // ---------------------------------------------------------------------
  // Insertion

  lemma {:induction false} InsertPermutation(s: seq<Appointment>, x: Appointment)
    ensures multiset(Insert(s, x)) == multiset(s) + multiset{x}
  {
    if s != [] && CompareTo(x, s[0]) >= 0 {
      InsertPermutation(s[1..], x);
      assert s == [s[0]] + s[1..];
    }
  }

  lemma {:induction false} InsertSorted(s: seq<Appointment>, x: Appointment)
    requires Sorted(s)
    ensures Sorted(Insert(s, x))
  {
    if s == [] {
    } else if CompareTo(x, s[0]) < 0 {
      forall j | 0 <= j < |s|
        ensures CompareTo(x, s[j]) <= 0
      {
        if j > 0 {
          CompareToTransitiveLe(x, s[0], s[j]);
        }
      }
      SortedCons(x, s);
    } else {
      InsertSorted(s[1..], x);
      CompareToAntisymmetric(x, s[0]);
      assert AtMostAll(s[0], s[1..]) by {
        forall j | 0 <= j < |s[1..]|
          ensures CompareTo(s[0], s[1..][j]) <= 0
        {
          assert s[1..][j] == s[j + 1];
        }
      }
      InsertBounded(s[1..], x, s[0]);
      SortedCons(s[0], Insert(s[1..], x));
    }
  }

  /** `y` compares at most equal to every element of `s`. */
  predicate AtMostAll(y: Appointment, s: seq<Appointment>)
  {
    forall j | 0 <= j < |s| :: CompareTo(y, s[j]) <= 0
  }

  /** A bound on every element and on `x` is a bound on `Insert(s, x)`. */
  lemma {:induction false} InsertBounded(s: seq<Appointment>, x: Appointment, y: Appointment)
    requires AtMostAll(y, s) && CompareTo(y, x) <= 0
    ensures AtMostAll(y, Insert(s, x))
  {
    if s != [] && CompareTo(x, s[0]) >= 0 {
      assert AtMostAll(y, s[1..]) by {
        forall j | 0 <= j < |s[1..]|
          ensures CompareTo(y, s[1..][j]) <= 0
        {
          assert s[1..][j] == s[j + 1];
        }
      }
      InsertBounded(s[1..], x, y);
      var r := [s[0]] + Insert(s[1..], x);
      forall j | 0 <= j < |r|
        ensures CompareTo(y, r[j]) <= 0
      {
        if j > 0 {
          assert r[j] == Insert(s[1..], x)[j - 1];
        }
      }
    }
  }

  /** A sorted list behind an element bounding all of it is sorted. */
  lemma SortedCons(y: Appointment, s: seq<Appointment>)
    requires AtMostAll(y, s) && Sorted(s)
    ensures Sorted([y] + s)
  {
    var r := [y] + s;
    forall i, j | 0 <= i < j < |r|
      ensures CompareTo(r[i], r[j]) <= 0
    {
      assert r[j] == s[j - 1];
      if i > 0 {
        assert r[i] == s[i - 1];
      }
    }
  }

  /** Where insertion into a sorted list puts `x`: behind every element
      that compares at most equal to it, in front of every element that
      compares greater. */
  lemma InsertPosition(s: seq<Appointment>, x: Appointment)
    requires Sorted(s)
    ensures exists p | 0 <= p <= |s| ::
      && Insert(s, x) == s[..p] + [x] + s[p..]
      && (forall j | 0 <= j < p :: CompareTo(s[j], x) <= 0)
      && (forall j | p <= j < |s| :: CompareTo(x, s[j]) < 0)
  {
    var p := InsertIndex(s, x);
  }

  lemma {:induction false} InsertIndex(s: seq<Appointment>, x: Appointment) returns (p: nat)
    requires Sorted(s)
    ensures p <= |s| && Insert(s, x) == s[..p] + [x] + s[p..]
    ensures forall j | 0 <= j < p :: CompareTo(s[j], x) <= 0
    ensures forall j | p <= j < |s| :: CompareTo(x, s[j]) < 0
  {
    if s == [] {
      p := 0;
    } else if CompareTo(x, s[0]) < 0 {
      p := 0;
      forall j | 0 < j < |s|
        ensures CompareTo(x, s[j]) < 0
      {
        CompareToTransitiveLe(x, s[0], s[j]);
      }
    } else {
      SortedTail(s);
      var q := InsertIndex(s[1..], x);
      p := q + 1;
      CompareToAntisymmetric(x, s[0]);
      assert s[..p] == [s[0]] + s[1..][..q];
      assert s[p..] == s[1..][q..];
      forall j | 0 < j < p
        ensures CompareTo(s[j], x) <= 0
      {
        assert s[j] == s[1..][j - 1];
      }
      forall j | p <= j < |s|
        ensures CompareTo(x, s[j]) < 0
      {
        assert s[j] == s[1..][j - 1];
      }
    }
  }

  lemma SortedTail(s: seq<Appointment>)
    requires s != [] && Sorted(s)
    ensures Sorted(s[1..])
  {
    forall i, j | 0 <= i < j < |s[1..]|
      ensures CompareTo(s[1..][i], s[1..][j]) <= 0
    {
      assert s[1..][i] == s[i + 1] && s[1..][j] == s[j + 1];
    }
  }

  lemma {:induction false} KeyRunAppend(a: seq<Appointment>, b: seq<Appointment>, k: SortKey)
    ensures KeyRun(a + b, k) == KeyRun(a, k) + KeyRun(b, k)
  {
    if a != [] {
      assert (a + b)[1..] == a[1..] + b;
      KeyRunAppend(a[1..], b, k);
    } else {
      assert a + b == b;
    }
  }

  /** No element of `s` has key `k`, so its run is empty. */
  lemma {:induction false} KeyRunAbsent(s: seq<Appointment>, k: SortKey)
    requires forall j :: 0 <= j < |s| ==> Key(s[j]) != k
    ensures KeyRun(s, k) == []
  {
    if s != [] {
      KeyRunAbsent(s[1..], k);
    }
  }

  /** Inserting into a sorted list puts `x` behind every element with the
      same key, and leaves the other elements' relative order alone. */
  lemma {:induction false} InsertKeyRun(s: seq<Appointment>, x: Appointment, k: SortKey)
    requires Sorted(s)
    ensures KeyRun(Insert(s, x), k) == KeyRun(s, k) + (if Key(x) == k then [x] else [])
  {
    if s == [] {
    } else if CompareTo(x, s[0]) < 0 {
      var r := [x] + s;
      assert r[1..] == s;
      if Key(x) == k {
        forall j | 0 <= j < |s|
          ensures Key(s[j]) != k
        {
          if j > 0 {
            CompareToTransitiveLe(x, s[0], s[j]);
          }
          CompareToZeroIff(x, s[j]);
        }
        KeyRunAbsent(s, k);
      }
    } else {
      var r := [s[0]] + Insert(s[1..], x);
      assert r[1..] == Insert(s[1..], x);
      InsertKeyRun(s[1..], x, k);
    }
  }

  // ---------------------------------------------------------------------
  // The whole sort

  lemma {:induction false} StableSortedPermutation(s: seq<Appointment>)
    ensures multiset(StableSorted(s)) == multiset(s)
  {
    if s != [] {
      var init, last := s[..|s| - 1], s[|s| - 1];
      StableSortedPermutation(init);
      InsertPermutation(StableSorted(init), last);
      assert s == init + [last];
    }
  }

  lemma {:induction false} StableSortedIsSorted(s: seq<Appointment>)
    ensures Sorted(StableSorted(s))
  {
    if s != [] {
      StableSortedIsSorted(s[..|s| - 1]);
      InsertSorted(StableSorted(s[..|s| - 1]), s[|s| - 1]);
    }
  }

  /** Stability: appointments that compare equal keep their relative order. */
  lemma {:induction false} StableSortedIsStable(s: seq<Appointment>, k: SortKey)
    ensures KeyRun(StableSorted(s), k) == KeyRun(s, k)
  {
    if s != [] {
      var init, last := s[..|s| - 1], s[|s| - 1];
      var sorted := StableSorted(init);
      assert StableSorted(s) == Insert(sorted, last);
      StableSortedIsStable(init, k);
      StableSortedIsSorted(init);
      InsertKeyRun(sorted, last, k);
      assert s == init + [last];
      KeyRunAppend(init, [last], k);
      KeyRunSingleton(last, k);
    }
  }

  /** The key run of a one-element list. */
  lemma KeyRunSingleton(x: Appointment, k: SortKey)
    ensures KeyRun([x], k) == (if Key(x) == k then [x] else [])
  {
    assert [x][1..] == [];
  }

  /** Every element of a key run is an element of the list. */
  lemma {:induction false} KeyRunMember(s: seq<Appointment>, k: SortKey, x: Appointment)
    requires x in KeyRun(s, k)
    ensures x in s
  {
    if s[0] != x {
      KeyRunMember(s[1..], k, x);
    }
  }

  /** The head of a sorted list compares at most equal to each element. */
  lemma HeadBoundsMembers(s: seq<Appointment>, x: Appointment)
    requires Sorted(s) && x in s
    ensures CompareTo(s[0], x) <= 0
  {
    var j :| 0 <= j < |s| && s[j] == x;
    if j == 0 {
      CompareToReflexive(x);
    }
  }

  /** Two sorted lists with the same key runs are the same list: sorting,
      once stable, has one possible result. */
  lemma {:induction false} SortedRunsDetermine(t: seq<Appointment>, u: seq<Appointment>)
    requires Sorted(t) && Sorted(u)
    requires forall k :: KeyRun(t, k) == KeyRun(u, k)
    ensures t == u
  {
    if u != [] {
      assert u[0] in KeyRun(u, Key(u[0]));
      KeyRunMember(t, Key(u[0]), u[0]);
    }
    if t != [] {
      assert t[0] in KeyRun(t, Key(t[0]));
      KeyRunMember(u, Key(t[0]), t[0]);
      HeadBoundsMembers(u, t[0]);
      HeadBoundsMembers(t, u[0]);
      CompareToAntisymmetric(t[0], u[0]);
      CompareToZeroIff(t[0], u[0]);
      var k := Key(t[0]);
      assert Key(u[0]) == k;
      var a, b := KeyRun(t[1..], k), KeyRun(u[1..], k);
      assert [t[0]] + a == [u[0]] + b;
      assert a == ([t[0]] + a)[1..] && b == ([u[0]] + b)[1..];
      forall k' | true
        ensures KeyRun(t[1..], k') == KeyRun(u[1..], k')
      {
        if k' != k {
          assert KeyRun(t, k') == [] + KeyRun(t[1..], k') == KeyRun(t[1..], k');
          assert KeyRun(u, k') == [] + KeyRun(u[1..], k') == KeyRun(u[1..], k');
        }
      }
      SortedTail(t);
      SortedTail(u);
      SortedRunsDetermine(t[1..], u[1..]);
      assert t == [t[0]] + t[1..] && u == [u[0]] + u[1..];
    }
  }

  /** Any sorted arrangement of `s` that keeps each key run of `s` in order
      is `StableSorted(s)`: the insertion sort stands for every stable sort. */
  lemma StableSortedUnique(s: seq<Appointment>, t: seq<Appointment>)
    requires Sorted(t)
    requires forall k :: KeyRun(t, k) == KeyRun(s, k)
    ensures t == StableSorted(s)
  {
    StableSortedIsSorted(s);
    forall k | true
      ensures KeyRun(t, k) == KeyRun(StableSorted(s), k)
    {
      StableSortedIsStable(s, k);
    }
    SortedRunsDetermine(t, StableSorted(s));
  }

  /** Inserting an element that no element of `s` exceeds appends it. */
  lemma {:induction false} InsertLast(s: seq<Appointment>, x: Appointment)
    requires forall j :: 0 <= j < |s| ==> CompareTo(s[j], x) <= 0
    ensures Insert(s, x) == s + [x]
  {
    if s != [] {
      CompareToAntisymmetric(s[0], x);
      InsertLast(s[1..], x);
      assert s == [s[0]] + s[1..];
    }
  }

  /** A sorted list is its own sort, so sorting twice changes nothing. */
  lemma {:induction false} StableSortedOfSorted(s: seq<Appointment>)
    requires Sorted(s)
    ensures StableSorted(s) == s
  {
    if s != [] {
      var init, last := s[..|s| - 1], s[|s| - 1];
      assert Sorted(init);
      StableSortedOfSorted(init);
      InsertLast(init, last);
      assert s == init + [last];
    }
  }

  lemma SortIdempotent(s: seq<Appointment>)
    ensures StableSorted(StableSorted(s)) == StableSorted(s)
  {
    StableSortedIsSorted(s);
    StableSortedOfSorted(StableSorted(s));
  }

  // ---------------------------------------------------------------------
  // The sort as code

  /** Insertion sort: each element in turn is placed into the sorted
      prefix built from the elements before it. */
  method Sort(s: seq<Appointment>) returns (r: seq<Appointment>)
    ensures r == StableSorted(s)
  {
    r := [];
    var n := 0;
    while n < |s|
      invariant 0 <= n <= |s|
      invariant r == StableSorted(s[..n])
    {
      r := InsertAfterEquals(r, s[n]);
      assert s[..n + 1][..n] == s[..n];
      n := n + 1;
    }
    assert s[..|s|] == s;
  }

  /** Scans up to the first element that compares greater than `x` and puts
      `x` in front of it. */
  method InsertAfterEquals(r: seq<Appointment>, x: Appointment) returns (r': seq<Appointment>)
    ensures r' == Insert(r, x)
  {
    var k := 0;
    while k < |r| && CompareTo(x, r[k]) >= 0
      invariant 0 <= k <= |r|
      invariant Insert(r, x) == r[..k] + Insert(r[k..], x)
    {
      assert r[k..][1..] == r[k + 1..];
      assert r[..k] + [r[k]] == r[..k + 1];
      k := k + 1;
    }
    r' := r[..k] + [x] + r[k..];
  }
}
