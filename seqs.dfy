/** The array operations the dashboard's views are built from, on sequences:
    `Array.prototype.filter`, `map`, `find`, `Array.from(new Set(...))`
    (duplicates dropped, first occurrence kept) and the stable
    `Array.prototype.sort` with an integer-valued comparator. */
module Seqs {

  import opened Optional

  // ---------------------------------------------------------------------
  // Subsequences and duplicates
  // ---------------------------------------------------------------------

  /** `a` is `b` with some elements left out and the rest in their order. */
  predicate IsSubseq<T(==)>(a: seq<T>, b: seq<T>)
    decreases |b|
  {
    if a == [] then true
    else if b == [] then false
    else if a[0] == b[0] then IsSubseq(a[1..], b[1..])
    else IsSubseq(a, b[1..])
  }

  predicate NoDups<T(==)>(s: seq<T>)
  {
    forall i, j :: 0 <= i < j < |s| ==> s[i] != s[j]
  }

  /** Position of the first occurrence of `x` in `s`. */
  function IndexOf<T(==)>(s: seq<T>, x: T): (i: nat)
    requires x in s
    ensures i < |s| && s[i] == x
    ensures forall j :: 0 <= j < i ==> s[j] != x
  {
    if s[0] == x then 0 else 1 + IndexOf(s[1..], x)
  }

  /** Concatenation is associative (stated once so that proofs with many
      facts in scope need not rediscover it). */
  lemma ConcatAssoc<T>(a: seq<T>, b: seq<T>, c: seq<T>)
    ensures (a + b) + c == a + (b + c)
  {
  }

  // ---------------------------------------------------------------------
  // map, filter, find
  // ---------------------------------------------------------------------

  /** `Array.prototype.map`. */
  function Map<T, U>(f: T -> U, s: seq<T>): (r: seq<U>)
    ensures |r| == |s|
    ensures forall i :: 0 <= i < |s| ==> r[i] == f(s[i])
  {
    seq(|s|, i requires 0 <= i < |s| => f(s[i]))
  }

  lemma InMap<T, U>(f: T -> U, s: seq<T>, y: U)
    ensures y in Map(f, s) <==> exists x :: x in s && f(x) == y
  {
    var r := Map(f, s);
    if y in r {
      var i :| 0 <= i < |r| && r[i] == y;
      assert s[i] in s && f(s[i]) == y;
    }
    if exists x :: x in s && f(x) == y {
      var x :| x in s && f(x) == y;
      var i :| 0 <= i < |s| && s[i] == x;
      assert r[i] == y;
    }
  }

  /** `Array.prototype.filter`: the elements satisfying `p`, in order. */
  function Filter<T(!new)>(p: T -> bool, s: seq<T>): (r: seq<T>)
    ensures |r| <= |s|
    ensures forall x :: x in r <==> x in s && p(x)
  {
    if s == [] then []
    else
      assert s == [s[0]] + s[1..];
      (if p(s[0]) then [s[0]] else []) + Filter(p, s[1..])
  }

  /** The filter is an order-preserving selection of the input. */
  lemma {:induction false} FilterIsSubseq<T(!new)>(p: T -> bool, s: seq<T>)
    ensures IsSubseq(Filter(p, s), s)
  {
    if s != [] {
      FilterIsSubseq(p, s[1..]);
      var rest := Filter(p, s[1..]);
      if p(s[0]) {
        assert Filter(p, s) == [s[0]] + rest;
        assert ([s[0]] + rest)[1..] == rest;
      } else {
        assert Filter(p, s) == rest;
        // s[0] fails p while every element of rest passes it
        assert rest != [] ==> rest[0] in rest && rest[0] != s[0];
      }
    }
  }

  /** Each element is kept with its full multiplicity, or not at all. */
  lemma {:induction false} FilterCount<T(!new)>(p: T -> bool, s: seq<T>, x: T)
    ensures multiset(Filter(p, s))[x] == if p(x) then multiset(s)[x] else 0
  {
    if s != [] {
      FilterCount(p, s[1..], x);
      assert s == [s[0]] + s[1..];
    }
  }

  /** A filter that every element passes returns its input. */
  lemma {:induction false} FilterAll<T(!new)>(p: T -> bool, s: seq<T>)
    requires forall x :: x in s ==> p(x)
    ensures Filter(p, s) == s
  {
    if s != [] {
      assert s[0] in s;
      assert forall x :: x in s[1..] ==> x in s;
      FilterAll(p, s[1..]);
      assert s == [s[0]] + s[1..];
    }
  }

  /** A filter that no element passes returns the empty sequence. */
  lemma {:induction false} FilterNone<T(!new)>(p: T -> bool, s: seq<T>)
    requires forall x :: x in s ==> !p(x)
    ensures Filter(p, s) == []
  {
    if s != [] {
      assert s[0] in s;
      assert forall x :: x in s[1..] ==> x in s;
      FilterNone(p, s[1..]);
    }
  }

  /** Two predicates that agree on every element filter alike. */
  lemma {:induction false} FilterAgrees<T(!new)>(p: T -> bool, q: T -> bool, s: seq<T>)
    requires forall x :: x in s ==> p(x) == q(x)
    ensures Filter(p, s) == Filter(q, s)
  {
    if s != [] {
      assert s[0] in s;
      assert forall x :: x in s[1..] ==> x in s;
      FilterAgrees(p, q, s[1..]);
    }
  }

  /** Filtering by a predicate and by its negation splits the input:
      together the two results hold every element exactly as often as the
      input does. */
  lemma {:induction false} FilterSplit<T(!new)>(p: T -> bool, q: T -> bool, s: seq<T>)
    requires forall x :: q(x) <==> !p(x)
    ensures multiset(Filter(p, s)) + multiset(Filter(q, s)) == multiset(s)
  {
    if s != [] {
      var x, t := s[0], s[1..];
      FilterSplit(p, q, t);
      var fp, fq := Filter(p, t), Filter(q, t);
      var a, b := Filter(p, s), Filter(q, s);
      if p(x) {
        assert a == [x] + fp && b == fq;
      } else {
        assert a == fp && b == [x] + fq;
      }
      SplitStep(s, a, b, fp, fq);
    }
  }

  /** The first element goes to exactly one side of a split. */
  lemma SplitStep<T>(s: seq<T>, a: seq<T>, b: seq<T>, fp: seq<T>, fq: seq<T>)
    requires s != []
    requires (a == [s[0]] + fp && b == fq) || (a == fp && b == [s[0]] + fq)
    requires multiset(fp) + multiset(fq) == multiset(s[1..])
    ensures multiset(a) + multiset(b) == multiset(s)
  {
    assert s == [s[0]] + s[1..];
  }

  /** Filtering a sequence with a first element. */
  lemma FilterCons<T(!new)>(p: T -> bool, x: T, s: seq<T>)
    ensures Filter(p, [x] + s) == (if p(x) then [x] else []) + Filter(p, s)
  {
    assert ([x] + s)[0] == x && ([x] + s)[1..] == s;
  }

  /** Filtering distributes over concatenation. */
  lemma {:induction false} FilterConcat<T(!new)>(p: T -> bool, a: seq<T>, b: seq<T>)
    ensures Filter(p, a + b) == Filter(p, a) + Filter(p, b)
  {
    if a != [] {
      FilterConcat(p, a[1..], b);
      assert (a + b)[1..] == a[1..] + b;
      assert (a + b)[0] == a[0];
    } else {
      assert a + b == b;
    }
  }

  /** `Array.prototype.find`: the first element satisfying `p`. */
  function Find<T>(p: T -> bool, s: seq<T>): (r: Option<T>)
    ensures r.None? <==> forall i :: 0 <= i < |s| ==> !p(s[i])
    ensures r.Some? ==> r.value in s && p(r.value)
  {
    if s == [] then None
    else if p(s[0]) then Some(s[0])
    else
      assert forall i :: 0 < i < |s| ==> s[i] == s[1..][i - 1];
      Find(p, s[1..])
  }

  /** What `find` returns is the FIRST element satisfying `p`. */
  lemma {:induction false} FindFirst<T>(p: T -> bool, s: seq<T>)
    requires Find(p, s).Some?
    ensures exists i :: 0 <= i < |s| && s[i] == Find(p, s).value &&
                        forall j :: 0 <= j < i ==> !p(s[j])
  {
    if !p(s[0]) {
      FindFirst(p, s[1..]);
      var i :| 0 <= i < |s[1..]| && s[1..][i] == Find(p, s[1..]).value &&
               forall j :: 0 <= j < i ==> !p(s[1..][j]);
      assert s[i + 1] == Find(p, s).value;
      assert forall j :: 0 <= j < i + 1 ==> !p(s[j]) by {
        forall j | 0 < j < i + 1 ensures !p(s[j]) { assert s[j] == s[1..][j - 1]; }
      }
    } else {
      assert s[0] == Find(p, s).value;
    }
  }

  // ---------------------------------------------------------------------
  // Array.from(new Set(s)): duplicates dropped, first occurrence kept
  // ---------------------------------------------------------------------

  /** Adds the elements of `s` one by one to an insertion-ordered set. */
  function Dedup<T(==,!new)>(s: seq<T>): (r: seq<T>)
    ensures |r| <= |s|
    ensures NoDups(r)
    ensures forall x :: x in r <==> x in s
  {
    if s == [] then []
    else
      var d := Dedup(s[..|s| - 1]);
      assert s == s[..|s| - 1] + [s[|s| - 1]];
      if s[|s| - 1] in d then d else d + [s[|s| - 1]]
  }

  /** Adding one more element to the insertion-ordered set. */
  lemma DedupSnoc<T(!new)>(t: seq<T>, x: T)
    ensures Dedup(t + [x]) == if x in Dedup(t) then Dedup(t) else Dedup(t) + [x]
  {
    assert (t + [x])[..|t|] == t;
  }

  lemma {:induction false} IndexOfInPrefix<T>(s: seq<T>, n: nat, x: T)
    requires n <= |s| && x in s[..n]
    ensures IndexOf(s, x) == IndexOf(s[..n], x)
  {
    var i := IndexOf(s[..n], x);
    var k := IndexOf(s, x);
    assert s[i] == x;
  }

  /** The distinct elements come out in the order of their first
      occurrence. */
  lemma {:induction false} DedupFirstOccurrenceOrder<T(!new)>(s: seq<T>)
    ensures forall i, j :: 0 <= i < j < |Dedup(s)| ==>
              IndexOf(s, Dedup(s)[i]) < IndexOf(s, Dedup(s)[j])
  {
    if s != [] {
      var n := |s| - 1;
      var p := s[..n];
      var d := Dedup(p);
      DedupFirstOccurrenceOrder(p);
      assert s == p + [s[n]];
      forall i | 0 <= i < |d| ensures IndexOf(s, d[i]) == IndexOf(p, d[i]) < n {
        IndexOfInPrefix(s, n, d[i]);
      }
      if s[n] !in d {
        assert s[n] !in p;
        assert IndexOf(s, s[n]) == n;
        var r := d + [s[n]];
        assert Dedup(s) == r;
        forall i, j | 0 <= i < j < |r| ensures IndexOf(s, r[i]) < IndexOf(s, r[j]) {
          assert r[i] == d[i];
          if j < |d| {
            assert r[j] == d[j];
          } else {
            assert r[j] == s[n];
          }
        }
      } else {
        assert Dedup(s) == d;
      }
    }
  }

  /** A sequence without duplicates has as many elements as its set. */
  lemma {:induction false} NoDupsCardinality<T>(s: seq<T>)
    requires NoDups(s)
    ensures |set x | x in s| == |s|
  {
    if s != [] {
      var n := |s| - 1;
      var p := s[..n];
      assert NoDups(p);
      NoDupsCardinality(p);
      assert s == p + [s[n]];
      assert s[n] !in p;
      assert (set x | x in s) == (set x | x in p) + {s[n]};
    }
  }

  /** A subset has at most as many elements as its superset. */
  lemma SubsetCardinality<T>(a: set<T>, b: set<T>)
    requires a <= b
    ensures |a| <= |b|
  {
    assert b == a + (b - a);
  }

  // ---------------------------------------------------------------------
  // Stable sort by an integer key (ascending)
  // ---------------------------------------------------------------------

  predicate SortedBy<T>(s: seq<T>, key: T -> int)
  {
    forall i, j :: 0 <= i < j < |s| ==> key(s[i]) <= key(s[j])
  }

  /** The elements whose key is `k`. */
  function KeyIs<T>(key: T -> int, k: int): T -> bool
  {
    (x: T) => key(x) == k
  }

  /** Places `x` before the first element whose key is not smaller. */
  function Insert<T>(x: T, s: seq<T>, key: T -> int): (r: seq<T>)
    ensures multiset(r) == multiset(s) + multiset{x}
  {
    if s == [] || key(x) <= key(s[0]) then [x] + s
    else
      assert s == [s[0]] + s[1..];
      [s[0]] + Insert(x, s[1..], key)
  }

  /** The result of `[...s].sort((a, b) => key(a) - key(b))`. */
  function SortBy<T>(s: seq<T>, key: T -> int): (r: seq<T>)
    ensures multiset(r) == multiset(s)
    ensures |r| == |s|
  {
    if s == [] then []
    else
      assert s == [s[0]] + s[1..];
      Insert(s[0], SortBy(s[1..], key), key)
  }

  /** Sorting keeps exactly the elements it is given. */
  lemma SortByMembers<T>(s: seq<T>, key: T -> int)
    ensures forall x :: x in SortBy(s, key) <==> x in s
  {
    var r := SortBy(s, key);
    forall x ensures x in r <==> x in s {
      assert x in r <==> x in multiset(r);
      assert x in s <==> x in multiset(s);
    }
  }

  lemma {:induction false} InsertSorted<T>(x: T, s: seq<T>, key: T -> int)
    requires SortedBy(s, key)
    ensures SortedBy(Insert(x, s, key), key)
  {
    if s != [] && key(x) > key(s[0]) {
      var s0, rest := s[0], s[1..];
      var t := Insert(x, rest, key);
      assert Insert(x, s, key) == [s0] + t;
      InsertSorted(x, rest, key);
      forall y | y in t ensures key(s0) <= key(y) {
        assert y in multiset(t);
        if y != x {
          assert y in multiset(rest);
          var j :| 0 <= j < |rest| && rest[j] == y;
          assert s[j + 1] == y;
        }
      }
      SortedCons(s0, t, key);
    }
  }

  /** An element with a key no larger than any in a sorted sequence can
      go in front of it. */
  lemma SortedCons<T>(a: T, t: seq<T>, key: T -> int)
    requires SortedBy(t, key)
    requires forall y :: y in t ==> key(a) <= key(y)
    ensures SortedBy([a] + t, key)
  {
    var r := [a] + t;
    forall i, j | 0 <= i < j < |r| ensures key(r[i]) <= key(r[j]) {
      assert r[j] == t[j - 1] && t[j - 1] in t;
      if i > 0 {
        assert r[i] == t[i - 1];
      }
    }
  }

  /** The sort orders its result by key. */
  lemma {:induction false} SortBySorted<T>(s: seq<T>, key: T -> int)
    ensures SortedBy(SortBy(s, key), key)
  {
    if s != [] {
      SortBySorted(s[1..], key);
      InsertSorted(s[0], SortBy(s[1..], key), key);
    }
  }

  lemma {:induction false} InsertKeyOrder<T(!new)>(x: T, s: seq<T>, key: T -> int, k: int)
    ensures Filter(KeyIs(key, k), Insert(x, s, key))
         == (if key(x) == k then [x] else []) + Filter(KeyIs(key, k), s)
  {
    var p := KeyIs(key, k);
    assert p(x) == (key(x) == k);
    if s == [] || key(x) <= key(s[0]) {
      assert Insert(x, s, key) == [x] + s;
      FilterCons(p, x, s);
    } else {
      var s0, rest := s[0], s[1..];
      var t := Insert(x, rest, key);
      assert Insert(x, s, key) == [s0] + t;
      assert s == [s0] + rest;
      InsertKeyOrder(x, rest, key, k);
      // x has a larger key than s0, so the two are never selected together
      assert p(s0) == (key(s0) == k);
      PassOver(p, s0, t, rest, if key(x) == k then [x] else []);
    }
  }

  /** If `t` filters to `xs` followed by what `rest` filters to, then so
      do `t` and `rest` with one more first element, provided that element
      and `xs` are not both selected. */
  lemma PassOver<T(!new)>(p: T -> bool, s0: T, t: seq<T>, rest: seq<T>, xs: seq<T>)
    requires Filter(p, t) == xs + Filter(p, rest)
    requires p(s0) ==> xs == []
    ensures Filter(p, [s0] + t) == xs + Filter(p, [s0] + rest)
  {
    var f, g := Filter(p, rest), Filter(p, t);
    var head: seq<T> := if p(s0) then [s0] else [];
    FilterCons(p, s0, rest);
    FilterCons(p, s0, t);
    assert Filter(p, [s0] + t) == head + g;
    assert Filter(p, [s0] + rest) == head + f;
    if p(s0) {
      assert g == f;
    } else {
      assert head + g == g && head + f == f;
    }
  }

  /** Stability: among elements with equal keys the sort keeps the input
      order. */
  lemma {:induction false} SortByStable<T(!new)>(s: seq<T>, key: T -> int, k: int)
    ensures Filter(KeyIs(key, k), SortBy(s, key)) == Filter(KeyIs(key, k), s)
  {
    if s != [] {
      SortByStable(s[1..], key, k);
      InsertKeyOrder(s[0], SortBy(s[1..], key), key, k);
      assert s == [s[0]] + s[1..];
    }
  }

  /** Stability stated for any predicate that selects one key value. */
  lemma SortByStableFor<T(!new)>(s: seq<T>, key: T -> int, q: T -> bool, k: int)
    requires forall x :: q(x) == (key(x) == k)
    ensures Filter(q, SortBy(s, key)) == Filter(q, s)
  {
    var p := KeyIs(key, k);
    SortByStable(s, key, k);
    assert forall x :: p(x) == q(x);
    FilterAgrees(p, q, SortBy(s, key));
    FilterAgrees(p, q, s);
  }

  /** In a sorted sequence every element after the first `k` has a key at
      least that of the k-th. */
  lemma SortedSuffixAbove<T>(s: seq<T>, key: T -> int, k: nat)
    requires SortedBy(s, key) && 0 < k <= |s|
    ensures forall x :: x in multiset(s) - multiset(s[..k]) ==> key(s[k - 1]) <= key(x)
  {
    assert s == s[..k] + s[k..];
    assert multiset(s) - multiset(s[..k]) == multiset(s[k..]);
    forall x | x in multiset(s[k..]) ensures key(s[k - 1]) <= key(x) {
      var j :| 0 <= j < |s[k..]| && s[k..][j] == x;
      assert s[k + j] == x;
    }
  }
}
