/** The standard library's sorts, as a stable insertion sort with its specification. */
module Sorting {
  import opened Ascii

  ghost predicate TotalPreorder<T(!new)>(le: (T, T) -> bool) {
    && (forall x, y :: le(x, y) || le(y, x))
    && (forall x, y, z :: le(x, y) && le(y, z) ==> le(x, z))
  }

  ghost predicate SortedBy<T>(le: (T, T) -> bool, s: seq<T>) {
    forall i, j | 0 <= i < j < |s| :: le(s[i], s[j])
  }

  /** Strictly ascending: sorted, and no two elements equivalent. */
  ghost predicate AscendingBy<T>(le: (T, T) -> bool, s: seq<T>) {
    forall i, j | 0 <= i < j < |s| :: le(s[i], s[j]) && !le(s[j], s[i])
  }

  function Insert<T>(le: (T, T) -> bool, x: T, s: seq<T>): (r: seq<T>)
    ensures multiset(r) == multiset([x]) + multiset(s)
  {
    if s == [] then [x]
    else if le(x, s[0]) then [x] + s
    else
      assert s == [s[0]] + s[1..];
      [s[0]] + Insert(le, x, s[1..])
  }

  /** Stable: an element stays in front of the equivalent ones that followed it. */
  function Sort<T>(le: (T, T) -> bool, s: seq<T>): (r: seq<T>)
    ensures multiset(r) == multiset(s)
  {
    if s == [] then []
    else
      assert s == [s[0]] + s[1..];
      Insert(le, s[0], Sort(le, s[1..]))
  }

  lemma {:induction false} InsertSorted<T(!new)>(le: (T, T) -> bool, x: T, s: seq<T>)
    requires TotalPreorder(le) && SortedBy(le, s)
    ensures SortedBy(le, Insert(le, x, s))
  {
    if s == [] || le(x, s[0]) {
    } else {
      var t := Insert(le, x, s[1..]);
      InsertSorted(le, x, s[1..]);
      forall j | 0 <= j < |t| ensures le(s[0], t[j]) {
        assert t[j] in multiset(t);
        if t[j] != x {
          assert t[j] in s[1..];
        }
      }
    }
  }

  lemma {:induction false} SortSorts<T(!new)>(le: (T, T) -> bool, s: seq<T>)
    requires TotalPreorder(le)
    ensures SortedBy(le, Sort(le, s))
  {
    if s != [] {
      SortSorts(le, s[1..]);
      InsertSorted(le, s[0], Sort(le, s[1..]));
    }
  }

  lemma SortMembers<T>(le: (T, T) -> bool, s: seq<T>)
    ensures |Sort(le, s)| == |s|
    ensures forall x :: x in Sort(le, s) <==> x in s
  {
    var r := Sort(le, s);
    assert |multiset(r)| == |multiset(s)|;
    forall x ensures x in r <==> x in s {
      assert x in r <==> x in multiset(r);
      assert x in s <==> x in multiset(s);
    }
  }

  lemma Member<T>(s: seq<T>) returns (x: T)
    requires s != []
    ensures x in s
  {
    x := s[0];
  }

  /** Two strictly ascending sequences with the same elements are the same sequence. */
  lemma {:induction false} AscendingUnique<T(!new)>(le: (T, T) -> bool, a: seq<T>, b: seq<T>)
    requires AscendingBy(le, a) && AscendingBy(le, b)
    requires forall x :: x in a <==> x in b
    ensures a == b
  {
    if a == [] {
      if b != [] {
        var x := Member(b);
        assert false;
      }
    } else {
      assert a[0] in b;
      assert b != [] && b[0] in a;
      assert a[0] == b[0];
      forall x ensures x in a[1..] <==> x in b[1..] {
        if x in a[1..] { assert x in a && x != a[0]; }
        if x in b[1..] { assert x in b && x != b[0]; }
      }
      AscendingUnique(le, a[1..], b[1..]);
      assert a == [a[0]] + a[1..] && b == [b[0]] + b[1..];
    }
  }

  lemma {:induction false} DistinctCount<T>(s: seq<T>, x: T)
    requires Distinct(s)
    ensures multiset(s)[x] == if x in s then 1 else 0
  {
    if s != [] {
      assert s == [s[0]] + s[1..];
      DistinctCount(s[1..], x);
      assert s[0] !in s[1..];
    }
  }

  lemma SameMultisetDistinct<T>(s: seq<T>, r: seq<T>)
    requires Distinct(s) && multiset(s) == multiset(r)
    ensures Distinct(r)
  {
    forall i, j | 0 <= i < j < |r| ensures r[i] != r[j] {
      if r[i] == r[j] {
        assert r == r[..i] + [r[i]] + r[i + 1..j] + [r[j]] + r[j + 1..];
        assert multiset(r)[r[i]] >= 2;
        DistinctCount(s, r[i]);
        assert false;
      }
    }
  }

  /** Drop adjacent equals: `Vec::dedup`. */
  function DedupAdjacent<T(==,!new)>(s: seq<T>): (r: seq<T>)
    ensures s != [] ==> r != [] && r[0] == s[0]
    ensures forall x :: x in r <==> x in s
  {
    if |s| < 2 then s
    else
      assert s == [s[0]] + s[1..];
      if s[0] == s[1] then DedupAdjacent(s[1..])
      else [s[0]] + DedupAdjacent(s[1..])
  }

  lemma {:induction false} DedupAscends<T(!new)>(le: (T, T) -> bool, s: seq<T>)
    requires TotalPreorder(le) && SortedBy(le, s)
    requires forall x, y :: le(x, y) && le(y, x) ==> x == y
    ensures AscendingBy(le, DedupAdjacent(s))
  {
    if |s| >= 2 {
      DedupAscends(le, s[1..]);
      if s[0] != s[1] {
        var t := DedupAdjacent(s[1..]);
        forall j | 0 <= j < |t| ensures le(s[0], t[j]) && !le(t[j], s[0]) {
          assert t[j] in s[1..];
          var k :| 0 <= k < |s[1..]| && s[1..][k] == t[j];
          assert le(s[0], s[1]) && (k == 0 || le(s[1], s[k + 1]));
          assert le(s[1], t[j]);
        }
      }
    }
  }

  // ---- filtering --------------------------------------------------------

  function Filter<T>(p: T -> bool, s: seq<T>): (r: seq<T>)
    ensures forall i | 0 <= i < |r| :: p(r[i])
  {
    if s == [] then []
    else (if p(s[0]) then [s[0]] else []) + Filter(p, s[1..])
  }

  lemma {:induction false} FilterMembers<T(!new)>(p: T -> bool, s: seq<T>)
    ensures forall x :: x in Filter(p, s) <==> x in s && p(x)
  {
    if s != [] {
      FilterMembers(p, s[1..]);
      assert s == [s[0]] + s[1..];
    }
  }

  lemma FilterCons<T>(p: T -> bool, x: T, s: seq<T>)
    ensures Filter(p, [x] + s) == (if p(x) then [x] else []) + Filter(p, s)
  {
    assert ([x] + s)[1..] == s;
  }

  lemma {:induction false} FilterAppend<T>(p: T -> bool, a: seq<T>, b: seq<T>)
    ensures Filter(p, a + b) == Filter(p, a) + Filter(p, b)
  {
    if a == [] {
      assert a + b == b;
    } else {
      FilterAppend(p, a[1..], b);
      assert a + b == [a[0]] + (a[1..] + b) && a == [a[0]] + a[1..];
      FilterCons(p, a[0], a[1..] + b);
      FilterCons(p, a[0], a[1..]);
    }
  }

  lemma {:induction false} FilterAscends<T(!new)>(le: (T, T) -> bool, p: T -> bool, s: seq<T>)
    requires AscendingBy(le, s)
    ensures AscendingBy(le, Filter(p, s))
  {
    if s != [] {
      var t := s[1..];
      FilterAscends(le, p, t);
      var f := Filter(p, t);
      forall k | 0 <= k < |f| ensures le(s[0], f[k]) && !le(f[k], s[0]) {
        FilterMembers(p, t);
        assert f[k] in t;
        var i :| 0 <= i < |t| && t[i] == f[k];
        assert s[i + 1] == f[k];
      }
    }
  }

  lemma {:induction false} InsertStable<T(!new)>(le: (T, T) -> bool, p: T -> bool, x: T, s: seq<T>)
    requires p(x) ==> forall y | p(y) :: le(x, y)
    ensures Filter(p, Insert(le, x, s)) == (if p(x) then [x] else []) + Filter(p, s)
  {
    hide Filter;
    if s == [] || le(x, s[0]) {
      assert Insert(le, x, s) == [x] + s;
      FilterCons(p, x, s);
    } else {
      assert !(p(x) && p(s[0]));
      InsertStable(le, p, x, s[1..]);
      FilterCons(p, s[0], Insert(le, x, s[1..]));
      FilterCons(p, s[0], s[1..]);
      assert s == [s[0]] + s[1..];
    }
  }

  /** Elements that compare equal to each other keep their order. */
  lemma {:induction false} SortStable<T(!new)>(le: (T, T) -> bool, p: T -> bool, s: seq<T>)
    requires forall y, z | p(y) && p(z) :: le(y, z)
    ensures Filter(p, Sort(le, s)) == Filter(p, s)
  {
    if s != [] {
      SortStable(le, p, s[1..]);
      InsertStable(le, p, s[0], Sort(le, s[1..]));
    }
  }

  /** No element behind one that fails `p` satisfies it. */
  ghost predicate Partitioned<T>(p: T -> bool, s: seq<T>) {
    forall i, j | 0 <= i < j < |s| && p(s[j]) :: p(s[i])
  }

  /** `partition_point`: halve the range until it is empty. */
  method HalvingSearch<T>(p: T -> bool, s: seq<T>) returns (n: nat)
    requires Partitioned(p, s)
    ensures n == PartitionPoint(p, s)
  {
    hide PartitionPoint;
    var low, high := 0, |s|;
    while low < high
      invariant 0 <= low <= PartitionPoint(p, s) <= high <= |s|
    {
      var mid := low + (high - low) / 2;
      if p(s[mid]) {
        low := mid + 1;
      } else {
        high := mid;
      }
    }
    n := low;
  }

  /** How many leading elements satisfy `p`: `partition_point` on a partitioned slice. */
  function PartitionPoint<T>(p: T -> bool, s: seq<T>): (n: nat)
    ensures n <= |s|
    ensures forall i | 0 <= i < n :: p(s[i])
    ensures n < |s| ==> !p(s[n])
  {
    if s != [] && p(s[0]) then 1 + PartitionPoint(p, s[1..]) else 0
  }
}
