/** Sequence facts and the standard-library operations the graph code applies to id lists:
    `Vec::retain`, sorting of a key set and sorting of terminal pairs. */
module Seqs {
  import opened Components

  /** No element occurs twice. */
  ghost predicate NoDup<T>(s: seq<T>)
  {
    forall i, j :: 0 <= i < j < |s| ==> s[i] != s[j]
  }

  /** The set of elements of a sequence. */
  ghost function Elems<T>(s: seq<T>): set<T>
  {
    set x | x in s
  }

  /** A duplicate-free sequence has as many elements as its set. */
  lemma {:induction false} NoDupCard<T>(s: seq<T>)
    requires NoDup(s)
    ensures |Elems(s)| == |s|
  {
    if s != [] {
      var t := s[1..];
      assert NoDup(t) by {
        forall i, j | 0 <= i < j < |t| ensures t[i] != t[j] { assert t[i] == s[i + 1] && t[j] == s[j + 1]; }
      }
      NoDupCard(t);
      assert Elems(s) == Elems(t) + {s[0]};
      assert s[0] !in Elems(t) by {
        forall k | 0 <= k < |t| ensures t[k] != s[0] { assert t[k] == s[k + 1]; }
      }
    }
  }

  /** `list.retain(|&y| y != x)`: every occurrence of `x` removed, the rest kept in order. */
  function Without(s: seq<Id>, x: Id): (r: seq<Id>)
    ensures forall y :: y in r <==> y in s && y != x
    ensures x !in s ==> r == s
    ensures |r| <= |s|
  {
    if s == [] then []
    else if s[0] == x then Without(s[1..], x)
    else [s[0]] + Without(s[1..], x)
  }

  /** Removing from a duplicate-free list keeps it duplicate-free, removes exactly one element
      when the value is present, and removing the head leaves the tail. */
  lemma {:induction false} WithoutNoDup(s: seq<Id>, x: Id)
    requires NoDup(s)
    ensures NoDup(Without(s, x))
    ensures x in s ==> |Without(s, x)| == |s| - 1
    ensures s != [] && s[0] == x ==> Without(s, x) == s[1..]
  {
    if s != [] {
      var t := s[1..];
      assert NoDup(t) by {
        forall i, j | 0 <= i < j < |t| ensures t[i] != t[j] { assert t[i] == s[i + 1] && t[j] == s[j + 1]; }
      }
      assert s[0] !in t by {
        forall k | 0 <= k < |t| ensures t[k] != s[0] { assert t[k] == s[k + 1]; }
      }
      WithoutNoDup(t, x);
      var r := Without(t, x);
      if s[0] != x {
        assert NoDup([s[0]] + r) by {
          forall i, j | 0 <= i < j < |r| + 1 ensures ([s[0]] + r)[i] != ([s[0]] + r)[j] {
            if i == 0 { assert ([s[0]] + r)[j] == r[j - 1] && r[j - 1] in r; }
            else { assert ([s[0]] + r)[i] == r[i - 1] && ([s[0]] + r)[j] == r[j - 1]; }
          }
        }
      }
    }
  }

  /** Strictly ascending, hence sorted and duplicate-free. */
  ghost predicate Ascending(s: seq<Id>)
  {
    forall i, j :: 0 <= i < j < |s| ==> s[i] < s[j]
  }

  /** The members of `ids` below `n`, in ascending order. */
  function IdsBelow(ids: set<Id>, n: nat): (r: seq<Id>)
    requires n <= ID_LIMIT
    ensures Ascending(r)
    ensures forall x :: x in r <==> x in ids && x < n
    ensures forall k :: 0 <= k < |r| ==> r[k] < n
  {
    if n == 0 then []
    else
      var prefix := IdsBelow(ids, n - 1);
      prefix + (if n - 1 in ids then [n - 1] else [])
  }

  /** A key set collected into a vector and sorted: the members of `ids` in ascending order. */
  function SortedIds(ids: set<Id>): (r: seq<Id>)
    ensures Ascending(r)
    ensures forall x :: x in r <==> x in ids
  {
    IdsBelow(ids, ID_LIMIT)
  }

  /** An ascending sequence is determined by its elements. */
  lemma {:induction false} AscendingUnique(a: seq<Id>, b: seq<Id>)
    requires Ascending(a) && Ascending(b)
    requires forall x :: x in a <==> x in b
    ensures a == b
  {
    if a != [] {
      assert a[0] in a;
    }
    if b != [] {
      assert b[0] in b;
    }
    if a != [] && b != [] {
      var i :| 0 <= i < |b| && b[i] == a[0];
      var j :| 0 <= j < |a| && a[j] == b[0];
      assert b[0] <= b[i];
      assert a[0] <= a[j];
      assert a[0] == b[0];
      forall x ensures x in a[1..] <==> x in b[1..] {
        if x in a[1..] {
          var k :| 1 <= k < |a| && a[k] == x;
          assert a[0] < a[k];
          assert x in a && x in b;
          var m :| 0 <= m < |b| && b[m] == x;
          assert b[m] != b[0];
          assert b[m] in b[1..];
        }
        if x in b[1..] {
          var k :| 1 <= k < |b| && b[k] == x;
          assert b[0] < b[k];
          assert x in b && x in a;
          var m :| 0 <= m < |a| && a[m] == x;
          assert a[m] != a[0];
          assert a[m] in a[1..];
        }
      }
      AscendingUnique(a[1..], b[1..]);
      assert a == [a[0]] + a[1..] && b == [b[0]] + b[1..];
    }
  }

  /** `list.retain(|id| !drop.contains(id))`: the elements of `s` that do not occur in `drop`,
      in their original order. */
  function NotIn(s: seq<Id>, drop: seq<Id>): (r: seq<Id>)
    ensures forall x :: x in r <==> x in s && x !in drop
  {
    if s == [] then []
    else NotIn(s[..|s| - 1], drop) + (if s[|s| - 1] in drop then [] else [s[|s| - 1]])
  }

  /** Retaining elements keeps an ascending list ascending. */
  lemma {:induction false} NotInAscending(s: seq<Id>, drop: seq<Id>)
    requires Ascending(s)
    ensures Ascending(NotIn(s, drop))
  {
    if s != [] {
      var p := s[..|s| - 1];
      var last := s[|s| - 1];
      assert Ascending(p) by {
        forall i, j | 0 <= i < j < |p| ensures p[i] < p[j] { assert p[i] == s[i] && p[j] == s[j]; }
      }
      NotInAscending(p, drop);
      var rest := NotIn(p, drop);
      forall k | 0 <= k < |rest| ensures rest[k] < last {
        assert rest[k] in rest;
        var m :| 0 <= m < |p| && p[m] == rest[k];
        assert s[m] < s[|s| - 1];
      }
      var tail := if last in drop then [] else [last];
      var r := rest + tail;
      assert NotIn(s, drop) == r;
      forall i, j | 0 <= i < j < |r| ensures r[i] < r[j] {
        if j < |rest| { assert r[i] == rest[i] && r[j] == rest[j]; }
        else { assert r[i] == rest[i] && r[j] == last; }
      }
    }
  }

  /** Retaining every element changes nothing. */
  lemma {:induction false} NotInKeepsAll(s: seq<Id>, drop: seq<Id>)
    requires forall x :: x in s ==> x !in drop
    ensures NotIn(s, drop) == s
  {
    if s != [] {
      var p := s[..|s| - 1];
      assert forall x :: x in p ==> x in s;
      NotInKeepsAll(p, drop);
      assert s[|s| - 1] in s;
      assert s == p + [s[|s| - 1]];
    }
  }

  /** Lexicographic order on terminal pairs, as derived for `(u16, u16)`. */
  predicate PairLe(a: (Id, Id), b: (Id, Id))
  {
    a.0 < b.0 || (a.0 == b.0 && a.1 <= b.1)
  }

  ghost predicate PairsSorted(s: seq<(Id, Id)>)
  {
    forall i, j :: 0 <= i < j < |s| ==> PairLe(s[i], s[j])
  }

  /** Insert one pair into a sorted sequence of pairs, before the first pair it does not
      follow. */
  function InsertPair(x: (Id, Id), s: seq<(Id, Id)>): (r: seq<(Id, Id)>)
    ensures multiset(r) == multiset(s) + multiset{x}
  {
    if s == [] then [x]
    else if PairLe(x, s[0]) then [x] + s
    else
      assert s == [s[0]] + s[1..];
      [s[0]] + InsertPair(x, s[1..])
  }

  lemma {:induction false} InsertPairSorted(x: (Id, Id), s: seq<(Id, Id)>)
    requires PairsSorted(s)
    ensures PairsSorted(InsertPair(x, s))
  {
    if s != [] && !PairLe(x, s[0]) {
      var t := s[1..];
      assert PairsSorted(t) by {
        forall i, j | 0 <= i < j < |t| ensures PairLe(t[i], t[j]) { assert t[i] == s[i + 1] && t[j] == s[j + 1]; }
      }
      InsertPairSorted(x, t);
      var rest := InsertPair(x, t);
      forall k | 0 <= k < |rest| ensures PairLe(s[0], rest[k]) {
        assert rest[k] in multiset(rest);
        if rest[k] != x {
          assert rest[k] in multiset(t);
          var m :| 0 <= m < |t| && t[m] == rest[k];
          assert s[m + 1] == rest[k];
        }
      }
      var r := [s[0]] + rest;
      forall i, j | 0 <= i < j < |r| ensures PairLe(r[i], r[j]) {
        if i == 0 { assert r[j] == rest[j - 1]; }
        else { assert r[i] == rest[i - 1] && r[j] == rest[j - 1]; }
      }
    }
  }

  /** `Vec::sort` on terminal pairs: a sorted permutation of the input. */
  function SortPairs(s: seq<(Id, Id)>): (r: seq<(Id, Id)>)
    ensures PairsSorted(r)
    ensures multiset(r) == multiset(s)
  {
    if s == [] then []
    else
      assert s == [s[0]] + s[1..];
      var rest := SortPairs(s[1..]);
      InsertPairSorted(s[0], rest);
      InsertPair(s[0], rest)
  }
}
