/** The sequence operations the surface borrows from the .NET base library:
    LINQ's stable `OrderBy`, and `List.FindIndex`, `List.Remove` and
    `List.Insert`. Everything here is generic and pure. */
module Lists {

  /** No element occurs twice. */
  predicate Distinct<T(==)>(s: seq<T>) {
    forall i, j :: 0 <= i < j < |s| ==> s[i] != s[j]
  }

  /** The indices 0, 1, ..., n - 1 in increasing order. */
  function Range(n: nat): (r: seq<nat>)
    ensures |r| == n
    ensures forall i :: 0 <= i < n ==> r[i] == i
  {
    if n == 0 then [] else Range(n - 1) + [n - 1]
  }

  /** `p` lists every index below `n` exactly once. */
  predicate IsPermutation(p: seq<nat>, n: nat) {
    && |p| == n
    && (forall k :: 0 <= k < |p| ==> p[k] < n)
    && Distinct(p)
    && (forall j: nat :: j < n ==> j in p)
  }

  /** `s` rearranged so that position k holds `s[p[k]]`. */
  function Permute<T>(s: seq<T>, p: seq<nat>): seq<T>
    requires forall k :: 0 <= k < |p| ==> p[k] < |s|
  {
    seq(|p|, k requires 0 <= k < |p| => s[p[k]])
  }

  /** Rearranging by a permutation keeps the length, the elements, and
      their distinctness. */
  lemma PermuteKeepsElements<T>(s: seq<T>, p: seq<nat>)
    requires IsPermutation(p, |s|)
    ensures |Permute(s, p)| == |s|
    ensures forall x :: x in Permute(s, p) <==> x in s
    ensures Distinct(s) ==> Distinct(Permute(s, p))
  {
    var r := Permute(s, p);
    forall x | x in s
      ensures x in r
    {
      var j :| 0 <= j < |s| && s[j] == x;
      assert j in p;
      var k :| 0 <= k < |p| && p[k] == j;
      assert r[k] == x;
    }
  }

  // ---------------------------------------------------------------------
  // LINQ OrderBy: a stable sort by an integer key, given as the order of
  // the original indices.
  // ---------------------------------------------------------------------

  /** Every entry of `o` is an index into `xs`. */
  predicate IndicesOf(xs: seq<int>, o: seq<nat>) {
    forall k :: 0 <= k < |o| ==> o[k] < |xs|
  }

  /** Index j comes before index k in a stable sort by key `xs`: a smaller
      key first, and on equal keys the earlier original position first. */
  predicate Before(xs: seq<int>, j: nat, k: nat)
    requires j < |xs| && k < |xs|
  {
    xs[j] < xs[k] || (xs[j] == xs[k] && j < k)
  }

  /** `o` lists indices in strictly increasing `Before` order: sorted by key,
      and ties in their original relative order. */
  predicate Ordered(xs: seq<int>, o: seq<nat>)
    requires IndicesOf(xs, o)
  {
    forall a, b {:trigger Before(xs, o[a], o[b])} :: 0 <= a < b < |o| ==> Before(xs, o[a], o[b])
  }

  /** Inserts index `i` just before the first entry whose key exceeds `xs[i]`. */
  function InsertIndex(xs: seq<int>, o: seq<nat>, i: nat): (r: seq<nat>)
    requires IndicesOf(xs, o) && i < |xs|
    ensures |r| == |o| + 1 && IndicesOf(xs, r)
    ensures forall x :: x in r <==> x in o || x == i
    ensures Distinct(o) && i !in o ==> Distinct(r)
  {
    if o == [] then [i]
    else if xs[i] < xs[o[0]] then [i] + o
    else
      var t := InsertIndex(xs, o[1..], i);
      assert Distinct(o) ==> o[0] !in o[1..];
      [o[0]] + t
  }

  /** Inserting an index larger than all present keeps the order strict: on
      an equal key the new index goes after the old ones, which is what
      makes the sort stable. */
  lemma {:induction false} InsertIndexOrdered(xs: seq<int>, o: seq<nat>, i: nat)
    requires IndicesOf(xs, o) && i < |xs| && Ordered(xs, o)
    requires forall k :: 0 <= k < |o| ==> o[k] < i
    ensures Ordered(xs, InsertIndex(xs, o, i))
  {
    var r := InsertIndex(xs, o, i);
    if o == [] {
    } else if xs[i] < xs[o[0]] {
      assert r == [i] + o;
      forall a, b | 0 <= a < b < |r|
        ensures Before(xs, r[a], r[b])
      {
        if a == 0 {
          if b > 1 {
            assert Before(xs, o[0], o[b - 1]);
          }
        } else {
          assert Before(xs, o[a - 1], o[b - 1]);
        }
      }
    } else {
      var tail := o[1..];
      forall a, b | 0 <= a < b < |tail|
        ensures Before(xs, tail[a], tail[b])
      {
        assert Before(xs, o[a + 1], o[b + 1]);
      }
      InsertIndexOrdered(xs, tail, i);
      var t := InsertIndex(xs, tail, i);
      assert r == [o[0]] + t;
      forall a, b | 0 <= a < b < |r|
        ensures Before(xs, r[a], r[b])
      {
        if a == 0 {
          assert r[b] == t[b - 1] && r[b] in t;
          if r[b] != i {
            var m :| 0 <= m < |tail| && tail[m] == r[b];
            assert Before(xs, o[0], o[m + 1]);
          }
        } else {
          assert r[a] == t[a - 1] && r[b] == t[b - 1];
        }
      }
    }
  }

  /** Insertion sort of the first `n` indices. */
  function SortOrderUpTo(xs: seq<int>, n: nat): (r: seq<nat>)
    requires n <= |xs|
    ensures |r| == n && IndicesOf(xs, r) && Distinct(r)
    ensures forall x: nat :: x in r <==> x < n
    ensures Ordered(xs, r)
  {
    if n == 0 then []
    else
      var o := SortOrderUpTo(xs, n - 1);
      assert forall k :: 0 <= k < |o| ==> o[k] in o;
      InsertIndexOrdered(xs, o, n - 1);
      InsertIndex(xs, o, n - 1)
  }

  /** The order in which a stable sort by key `xs` lists the original
      indices: a permutation of them, strictly increasing in `Before`. */
  function SortOrder(xs: seq<int>): (r: seq<nat>)
    ensures IsPermutation(r, |xs|) && IndicesOf(xs, r)
    ensures Ordered(xs, r)
  {
    SortOrderUpTo(xs, |xs|)
  }

  /** Only one arrangement of a given set of indices is strictly increasing
      in `Before`, so a stable sort has exactly one possible result. */
  lemma {:induction false} OrderedUnique(xs: seq<int>, o1: seq<nat>, o2: seq<nat>)
    requires IndicesOf(xs, o1) && IndicesOf(xs, o2)
    requires Ordered(xs, o1) && Ordered(xs, o2)
    requires |o1| == |o2| && forall x :: x in o1 <==> x in o2
    ensures o1 == o2
    decreases |o1|
  {
    if o1 != [] && o2 != [] {
      assert o1[0] == o2[0] by {
        assert forall b :: 0 < b < |o1| ==> Before(xs, o1[0], o1[b]);
        assert forall b :: 0 < b < |o2| ==> Before(xs, o2[0], o2[b]);
        assert o1[0] in o2 && o2[0] in o1;
        var j :| 0 <= j < |o2| && o2[j] == o1[0];
        var i :| 0 <= i < |o1| && o1[i] == o2[0];
      }
      var t1, t2 := o1[1..], o2[1..];
      forall x
        ensures x in t1 <==> x in t2
      {
        if x in t1 {
          var m :| 0 <= m < |t1| && t1[m] == x;
          assert Before(xs, o1[0], o1[m + 1]);
          assert x in o2;
          var n :| 0 <= n < |o2| && o2[n] == x;
          assert n != 0;
          assert t2[n - 1] == x;
        }
        if x in t2 {
          var m :| 0 <= m < |t2| && t2[m] == x;
          assert Before(xs, o2[0], o2[m + 1]);
          assert x in o1;
          var n :| 0 <= n < |o1| && o1[n] == x;
          assert n != 0;
          assert t1[n - 1] == x;
        }
      }
      forall a, b | 0 <= a < b < |t1|
        ensures Before(xs, t1[a], t1[b])
      {
        assert Before(xs, o1[a + 1], o1[b + 1]);
      }
      forall a, b | 0 <= a < b < |t2|
        ensures Before(xs, t2[a], t2[b])
      {
        assert Before(xs, o2[a + 1], o2[b + 1]);
      }
      OrderedUnique(xs, t1, t2);
    }
  }

  /** Keys already in non-decreasing order are left where they are: the
      stable sort of them is the identity. */
  lemma SortOrderOfSorted(xs: seq<int>)
    requires forall j, k :: 0 <= j < k < |xs| ==> xs[j] <= xs[k]
    ensures SortOrder(xs) == Range(|xs|)
  {
    var r := Range(|xs|);
    forall x: nat
      ensures x in r <==> x in SortOrder(xs)
    {
      if x < |xs| {
        assert r[x] == x;
      }
    }
    forall a, b | 0 <= a < b < |r|
      ensures Before(xs, r[a], r[b])
    {
      assert r[a] == a && r[b] == b;
    }
    assert |SortOrder(xs)| == |r|;
    OrderedUnique(xs, SortOrder(xs), r);
  }

  /** The keys read in sorted order are non-decreasing. */
  lemma SortedKeys(xs: seq<int>)
    ensures var p := SortOrder(xs);
      forall a, b :: 0 <= a < b < |p| ==> Permute(xs, p)[a] <= Permute(xs, p)[b]
  {
    var p := SortOrder(xs);
    forall a, b | 0 <= a < b < |p|
      ensures Permute(xs, p)[a] <= Permute(xs, p)[b]
    {
      assert Before(xs, p[a], p[b]);
    }
  }

  /** Sorting what is already sorted changes nothing: the stable sort is
      idempotent. */
  lemma SortOrderIdempotent(xs: seq<int>)
    ensures var p := SortOrder(xs);
      SortOrder(Permute(xs, p)) == Range(|xs|)
  {
    SortedKeys(xs);
    SortOrderOfSorted(Permute(xs, SortOrder(xs)));
  }

  // ---------------------------------------------------------------------
  // List.FindIndex, List.Remove, List.Insert
  // ---------------------------------------------------------------------

  /** `List.FindIndex`: the first index whose element satisfies `p`, or -1. */
  function FindIndex<T>(s: seq<T>, p: T -> bool): (r: int)
    ensures -1 <= r < |s|
    ensures r >= 0 ==> p(s[r]) && forall j :: 0 <= j < r ==> !p(s[j])
    ensures r == -1 <==> forall j :: 0 <= j < |s| ==> !p(s[j])
  {
    if s == [] then -1
    else if p(s[0]) then 0
    else
      var r := FindIndex(s[1..], p);
      if r == -1 then -1 else r + 1
  }

  /** `s` without its element at `i`. */
  function RemoveAt<T>(s: seq<T>, i: nat): seq<T>
    requires i < |s|
  {
    s[..i] + s[i + 1..]
  }

  /** `List.Insert`: `x` placed at index `i`, later elements shifted right. */
  function InsertAt<T>(s: seq<T>, i: nat, x: T): seq<T>
    requires i <= |s|
  {
    s[..i] + [x] + s[i..]
  }

  /** `List.Remove`: drops the first occurrence of `x`, if there is one. */
  function RemoveFirst<T(==)>(s: seq<T>, x: T): (r: seq<T>)
    ensures x !in s ==> r == s
    ensures x in s ==> |r| == |s| - 1
  {
    var i := FindIndex(s, y => y == x);
    if i == -1 then s else RemoveAt(s, i)
  }

  /** `List.Remove` takes out exactly one copy of an element that is
      there. */
  lemma RemoveFirstRemovesOne<T>(s: seq<T>, x: T)
    ensures multiset(RemoveFirst(s, x)) == multiset(s) - multiset{x}
  {
    var i := FindIndex(s, y => y == x);
    if i != -1 {
      assert s == s[..i] + [s[i]] + s[i + 1..];
    }
  }

  /** When `s[i]` does not occur before `i`, removing its first occurrence
      is removing index `i`. */
  lemma RemoveFirstAt<T>(s: seq<T>, i: nat)
    requires i < |s| && forall j :: 0 <= j < i ==> s[j] != s[i]
    ensures RemoveFirst(s, s[i]) == RemoveAt(s, i)
  {
    var k := FindIndex(s, y => y == s[i]);
    assert k == i;
  }

  /** The element at `from` taken out and put back at `to`: it ends at `to`
      and the other elements keep their relative order. */
  function Move<T>(s: seq<T>, from: nat, to: nat): (r: seq<T>)
    requires from < |s| && to < |s|
    ensures |r| == |s| && r[to] == s[from]
    ensures RemoveAt(r, to) == RemoveAt(s, from)
  {
    var rest := RemoveAt(s, from);
    var r := InsertAt(rest, to, s[from]);
    assert r[..to] + r[to + 1..] == rest;
    r
  }

  /** The index of the original sequence whose element `Move(s, from, to)`
      holds at index `k`. */
  function MoveSource(from: nat, to: nat, k: nat): nat {
    if k == to then from
    else
      var rest := if k < to then k else k - 1;
      if rest < from then rest else rest + 1
  }

  /** `Move` puts the element from `MoveSource` at each index. */
  lemma MoveAt<T>(s: seq<T>, from: nat, to: nat, k: nat)
    requires from < |s| && to < |s| && k < |s|
    ensures MoveSource(from, to, k) < |s| && Move(s, from, to)[k] == s[MoveSource(from, to, k)]
  {
    var rest := RemoveAt(s, from);
    assert Move(s, from, to) == rest[..to] + [s[from]] + rest[to..];
  }

  /** `List.Remove` of the element at `from` followed by `List.Insert` of
      it at `to` is a `Move`, provided no earlier element equals it. */
  lemma MoveByRemoveInsert<T>(s: seq<T>, from: nat, to: nat)
    requires from < |s| && to < |s|
    requires forall j :: 0 <= j < from ==> s[j] != s[from]
    ensures |RemoveFirst(s, s[from])| == |s| - 1
    ensures InsertAt(RemoveFirst(s, s[from]), to, s[from]) == Move(s, from, to)
  {
    RemoveFirstAt(s, from);
  }

  /** Moving an element loses and gains nothing. */
  lemma MoveKeepsMembers<T>(s: seq<T>, from: nat, to: nat)
    ensures from < |s| && to < |s| ==>
      && multiset(Move(s, from, to)) == multiset(s)
      && forall x :: x in Move(s, from, to) <==> x in s
  {
    if from < |s| && to < |s| {
      var rest := RemoveAt(s, from);
      assert s == s[..from] + [s[from]] + s[from + 1..];
      assert multiset(rest) == multiset(s[..from]) + multiset(s[from + 1..]);
      assert rest == rest[..to] + rest[to..];
      var r := Move(s, from, to);
      assert r == rest[..to] + [s[from]] + rest[to..];
      assert multiset(r) == multiset(rest) + multiset{s[from]};
      assert forall x :: x in r <==> x in multiset(r);
    }
  }

  /** Rearranging by the identity order changes nothing. */
  lemma PermuteRange<T>(s: seq<T>)
    ensures Permute(s, Range(|s|)) == s
  {
  }

  // ---------------------------------------------------------------------
  // Increasing sequences
  // ---------------------------------------------------------------------

  /** A strictly increasing sequence of values at least 0 has its `a`-th
      value at least `a`. */
  lemma {:induction false} IncreasingAtLeastIndex(xs: seq<int>, a: nat)
    requires a < |xs| && forall b :: 0 <= b < |xs| ==> 0 <= xs[b]
    requires forall b, c :: 0 <= b < c < |xs| ==> xs[b] < xs[c]
    ensures a <= xs[a]
  {
    if a > 0 {
      IncreasingAtLeastIndex(xs, a - 1);
    }
  }

  /** A strictly increasing sequence of values below its length has its
      `a`-th value at most `a`. */
  lemma {:induction false} IncreasingAtMostIndex(xs: seq<int>, a: nat)
    requires a < |xs| && forall b :: 0 <= b < |xs| ==> xs[b] < |xs|
    requires forall b, c :: 0 <= b < c < |xs| ==> xs[b] < xs[c]
    ensures xs[a] <= a
    decreases |xs| - a
  {
    if a < |xs| - 1 {
      IncreasingAtMostIndex(xs, a + 1);
    }
  }

  /** The only strictly increasing sequence of `n` values drawn from
      0 .. n-1 lists them all in order. */
  lemma IncreasingFill(xs: seq<int>)
    requires forall b :: 0 <= b < |xs| ==> 0 <= xs[b] < |xs|
    requires forall b, c :: 0 <= b < c < |xs| ==> xs[b] < xs[c]
    ensures forall a :: 0 <= a < |xs| ==> xs[a] == a
  {
    forall a | 0 <= a < |xs|
      ensures xs[a] == a
    {
      IncreasingAtLeastIndex(xs, a);
      IncreasingAtMostIndex(xs, a);
    }
  }
}
