/**
  The handful of LINQ query operators the status report is built from
  (`Where`, `Join`, `OrderBy`, `OrderByDescending`), modelled as pure
  functions over sequences. Each operator carries the contract the .NET
  documentation promises for it, and the lemmas below relate `Join` to an
  independent description of its result: the sequence of matching index pairs.
 */
module Linq {

  /* ---------------------------------------------------------------------- */
  /* Where                                                                  */
  /* ---------------------------------------------------------------------- */

  /** The elements of `s` satisfying `p`, in their original order. Every
      element keeps its multiplicity when it satisfies `p` and disappears
      otherwise. */
  function Where<T(!new)>(s: seq<T>, p: T -> bool): (r: seq<T>)
    ensures forall x {:trigger multiset(r)[x]} :: multiset(r)[x] == (if p(x) then multiset(s)[x] else 0)
    ensures forall x {:trigger x in r} :: x in r <==> x in s && p(x)
    ensures |r| <= |s|
  {
    if |s| == 0 then []
    else
      var rest := Where(s[1..], p);
      assert s == [s[0]] + s[1..];
      if p(s[0]) then [s[0]] + rest else rest
  }

  /* ---------------------------------------------------------------------- */
  /* OrderBy / OrderByDescending                                            */
  /* ---------------------------------------------------------------------- */

  /** `s` is ordered non-decreasingly by `key`. */
  predicate SortedBy<T>(s: seq<T>, key: T -> int)
  {
    forall i, j :: 0 <= i < j < |s| ==> key(s[i]) <= key(s[j])
  }

  /** Inserts `x` into the sorted `s` in front of every element whose key is
      not smaller than its own. */
  function InsertBy<T>(x: T, s: seq<T>, key: T -> int): (r: seq<T>)
    requires SortedBy(s, key)
    ensures SortedBy(r, key)
    ensures multiset(r) == multiset{x} + multiset(s)
    ensures |r| == |s| + 1
    ensures forall k :: 0 <= k < |r| ==> r[k] == x || r[k] in s
  {
    if |s| == 0 || key(x) <= key(s[0]) then [x] + s
    else
      var rest := InsertBy(x, s[1..], key);
      assert s == [s[0]] + s[1..];
      assert forall k :: 0 <= k < |rest| ==> key(s[0]) <= key(rest[k]);
      [s[0]] + rest
  }

  /** `Enumerable.OrderBy`: a stable sort ascending by `key`. */
  function OrderBy<T>(s: seq<T>, key: T -> int): (r: seq<T>)
    ensures SortedBy(r, key)
    ensures multiset(r) == multiset(s)
    ensures |r| == |s|
  {
    if |s| == 0 then []
    else
      assert s == [s[0]] + s[1..];
      InsertBy(s[0], OrderBy(s[1..], key), key)
  }

  /** `s` is ordered non-increasingly by `key`. */
  predicate SortedDownBy<T>(s: seq<T>, key: T -> int)
  {
    forall i, j :: 0 <= i < j < |s| ==> key(s[i]) >= key(s[j])
  }

  /** `Queryable.OrderByDescending`, which the database runs as an SQL
      `ORDER BY ... DESC`: ordering by the negated key. SQL fixes no order
      among equal keys; keeping their input order is this model's choice. */
  function OrderByDescending<T>(s: seq<T>, key: T -> int): (r: seq<T>)
    ensures SortedDownBy(r, key)
    ensures multiset(r) == multiset(s)
    ensures |r| == |s|
  {
    OrderBy(s, x => -key(x))
  }

  /** The predicate "has key `k`". */
  function KeyIs<T>(key: T -> int, k: int): T -> bool
  {
    x => key(x) == k
  }

  /** Inserting `x` puts it in front of every other element with its key. */
  lemma {:induction false} InsertByKeepsKeyOrder<T(!new)>(x: T, s: seq<T>, key: T -> int, k: int)
    requires SortedBy(s, key)
    ensures Where(InsertBy(x, s, key), KeyIs(key, k))
         == (if key(x) == k then [x] else []) + Where(s, KeyIs(key, k))
  {
    var p := KeyIs(key, k);
    if |s| == 0 || key(x) <= key(s[0]) {
      assert ([x] + s)[1..] == s;
    } else {
      InsertByKeepsKeyOrder(x, s[1..], key, k);
      var rest := InsertBy(x, s[1..], key);
      assert ([s[0]] + rest)[1..] == rest;
      assert s == [s[0]] + s[1..];
      assert !(p(x) && p(s[0]));
    }
  }

  /** Stability of `OrderBy`: the elements sharing one key appear in the
      result in exactly the order they had in the input. */
  lemma {:induction false} OrderByStable<T(!new)>(s: seq<T>, key: T -> int, k: int)
    ensures Where(OrderBy(s, key), KeyIs(key, k)) == Where(s, KeyIs(key, k))
  {
    if |s| > 0 {
      var p := KeyIs(key, k);
      var sorted := OrderBy(s[1..], key);
      OrderByStable(s[1..], key, k);
      InsertByKeepsKeyOrder(s[0], sorted, key, k);
      assert OrderBy(s, key) == InsertBy(s[0], sorted, key);
      assert p(s[0]) == (key(s[0]) == k);
      assert Where(s, p) == (if p(s[0]) then [s[0]] else []) + Where(s[1..], p);
    }
  }

  /** Filtering keeps the relative order of the elements it keeps. */
  lemma {:induction false} WhereKeepsOrder<T(!new)>(s: seq<T>, p: T -> bool, i: nat, j: nat)
    requires i < j < |s| && p(s[i]) && p(s[j])
    ensures exists i', j' :: 0 <= i' < j' < |Where(s, p)| && Where(s, p)[i'] == s[i] && Where(s, p)[j'] == s[j]
  {
    var w := Where(s, p);
    var rest := Where(s[1..], p);
    assert w == if p(s[0]) then [s[0]] + rest else rest;
    if i == 0 {
      assert s[1..][j - 1] == s[j];
      assert s[j] in rest;
      var t :| 0 <= t < |rest| && rest[t] == s[j];
      assert w[0] == s[0] && w[t + 1] == s[j];
    } else {
      assert s[1..][i - 1] == s[i] && s[1..][j - 1] == s[j];
      WhereKeepsOrder(s[1..], p, i - 1, j - 1);
      var i', j' :| 0 <= i' < j' < |rest| && rest[i'] == s[i] && rest[j'] == s[j];
      if p(s[0]) {
        assert w[i' + 1] == s[i] && w[j' + 1] == s[j];
      } else {
        assert w[i'] == s[i] && w[j'] == s[j];
      }
    }
  }

  /** A filtered non-increasing sequence is still non-increasing. */
  lemma {:induction false} WhereKeepsSortedDown<T(!new)>(s: seq<T>, p: T -> bool, key: T -> int)
    requires SortedDownBy(s, key)
    ensures SortedDownBy(Where(s, p), key)
  {
    if |s| > 0 {
      var rest := Where(s[1..], p);
      WhereKeepsSortedDown(s[1..], p, key);
      if p(s[0]) {
        forall k | 0 <= k < |rest|
          ensures key(s[0]) >= key(rest[k])
        {
          assert rest[k] in rest;
          assert rest[k] in s[1..];
          var t :| 0 <= t < |s[1..]| && s[1..][t] == rest[k];
          assert s[t + 1] == rest[k];
        }
        assert Where(s, p) == [s[0]] + rest;
      }
    }
  }

  /* ---------------------------------------------------------------------- */
  /* Join                                                                   */
  /* ---------------------------------------------------------------------- */

  /** The selected rows pairing `outer[i]` with each matching element of
      `inner[j..]`, in the order of `inner`. */
  function RowsFor<A, B, K(==), R>(outer: seq<A>, inner: seq<B>, outerKey: A -> K, innerKey: B -> K,
                                   select: (A, B) -> R, i: nat, j: nat): seq<R>
    requires i < |outer| && j <= |inner|
    decreases |inner| - j
  {
    if j == |inner| then []
    else
      (if outerKey(outer[i]) == innerKey(inner[j]) then [select(outer[i], inner[j])] else [])
      + RowsFor(outer, inner, outerKey, innerKey, select, i, j + 1)
  }

  /** The rows of the inner join of `outer[i..]` with `inner`. */
  function JoinFrom<A, B, K(==), R>(outer: seq<A>, inner: seq<B>, outerKey: A -> K, innerKey: B -> K,
                                    select: (A, B) -> R, i: nat): seq<R>
    requires i <= |outer|
    decreases |outer| - i
  {
    if i == |outer| then []
    else RowsFor(outer, inner, outerKey, innerKey, select, i, 0)
         + JoinFrom(outer, inner, outerKey, innerKey, select, i + 1)
  }

  /** `Queryable.Join`, which the database runs as an SQL inner join: every
      pair of elements with equal keys. SQL fixes no order for the result; the
      order here, `outer` in order and for each of its elements the matching
      elements of `inner` in order, is this model's choice. */
  function Join<A, B, K(==), R>(outer: seq<A>, inner: seq<B>, outerKey: A -> K, innerKey: B -> K,
                                select: (A, B) -> R): seq<R>
  {
    JoinFrom(outer, inner, outerKey, innerKey, select, 0)
  }

  /** Index pairs are ordered lexicographically. */
  predicate PairBefore(p: (nat, nat), q: (nat, nat))
  {
    p.0 < q.0 || (p.0 == q.0 && p.1 < q.1)
  }

  /** `(i, j)` names an element of each side with equal keys. */
  predicate KeysMatch<A, B, K(==)>(outer: seq<A>, inner: seq<B>, outerKey: A -> K, innerKey: B -> K, i: nat, j: nat)
  {
    i < |outer| && j < |inner| && outerKey(outer[i]) == innerKey(inner[j])
  }

  /** The index pairs `(i, j')`, `j <= j'`, whose elements have equal keys. */
  function PairsFor<A, B, K(==)>(outer: seq<A>, inner: seq<B>, outerKey: A -> K, innerKey: B -> K,
                                 i: nat, j: nat): (ps: seq<(nat, nat)>)
    requires i < |outer| && j <= |inner|
    ensures forall k :: 0 <= k < |ps| ==> ps[k].0 == i && j <= ps[k].1 && KeysMatch(outer, inner, outerKey, innerKey, ps[k].0, ps[k].1)
    ensures forall j' :: j <= j' < |inner| && KeysMatch(outer, inner, outerKey, innerKey, i, j') ==> (i, j') in ps
    ensures forall k1, k2 :: 0 <= k1 < k2 < |ps| ==> ps[k1].1 < ps[k2].1
    decreases |inner| - j
  {
    if j == |inner| then []
    else
      var rest := PairsFor(outer, inner, outerKey, innerKey, i, j + 1);
      if outerKey(outer[i]) == innerKey(inner[j]) then [(i, j)] + rest else rest
  }

  /** All index pairs `(i', j)`, `i <= i'`, whose elements have equal keys,
      in lexicographic order. */
  function PairsFrom<A, B, K(==)>(outer: seq<A>, inner: seq<B>, outerKey: A -> K, innerKey: B -> K,
                                  i: nat): (ps: seq<(nat, nat)>)
    requires i <= |outer|
    ensures forall k :: 0 <= k < |ps| ==> i <= ps[k].0 && KeysMatch(outer, inner, outerKey, innerKey, ps[k].0, ps[k].1)
    ensures forall i': nat, j': nat :: i <= i' && KeysMatch(outer, inner, outerKey, innerKey, i', j') ==> (i', j') in ps
    ensures forall k1, k2 :: 0 <= k1 < k2 < |ps| ==> PairBefore(ps[k1], ps[k2])
    decreases |outer| - i
  {
    if i == |outer| then []
    else
      var here := PairsFor(outer, inner, outerKey, innerKey, i, 0);
      var rest := PairsFrom(outer, inner, outerKey, innerKey, i + 1);
      assert forall i': nat, j': nat :: i <= i' && KeysMatch(outer, inner, outerKey, innerKey, i', j') ==> (i', j') in here + rest by {
        forall i': nat, j': nat | i <= i' && KeysMatch(outer, inner, outerKey, innerKey, i', j')
          ensures (i', j') in here + rest
        {
          if i' == i {
            assert (i', j') in here;
          } else {
            assert (i', j') in rest;
          }
        }
      }
      here + rest
  }

  /** Every index pair of matching elements, each once, in lexicographic order. */
  function MatchedPairs<A, B, K(==)>(outer: seq<A>, inner: seq<B>, outerKey: A -> K, innerKey: B -> K): seq<(nat, nat)>
  {
    PairsFrom(outer, inner, outerKey, innerKey, 0)
  }

  lemma {:induction false} RowsForArePairs<A, B, K, R>(outer: seq<A>, inner: seq<B>, outerKey: A -> K, innerKey: B -> K,
                                                           select: (A, B) -> R, i: nat, j: nat)
    requires i < |outer| && j <= |inner|
    ensures var rows := RowsFor(outer, inner, outerKey, innerKey, select, i, j);
            var ps := PairsFor(outer, inner, outerKey, innerKey, i, j);
            |rows| == |ps| &&
            forall k :: 0 <= k < |ps| ==> rows[k] == select(outer[ps[k].0], inner[ps[k].1])
    decreases |inner| - j
  {
    if j < |inner| {
      RowsForArePairs(outer, inner, outerKey, innerKey, select, i, j + 1);
      var rows := RowsFor(outer, inner, outerKey, innerKey, select, i, j);
      var ps := PairsFor(outer, inner, outerKey, innerKey, i, j);
      var rest := RowsFor(outer, inner, outerKey, innerKey, select, i, j + 1);
      var later := PairsFor(outer, inner, outerKey, innerKey, i, j + 1);
      if outerKey(outer[i]) == innerKey(inner[j]) {
        assert rows == [select(outer[i], inner[j])] + rest;
        assert ps == [(i, j)] + later;
        forall k | 0 <= k < |ps|
          ensures rows[k] == select(outer[ps[k].0], inner[ps[k].1])
        {
          if k > 0 {
            assert rows[k] == rest[k - 1];
            assert ps[k] == later[k - 1];
          }
        }
      } else {
        assert rows == rest;
        assert ps == later;
      }
    }
  }

  lemma {:induction false} JoinFromArePairs<A, B, K, R>(outer: seq<A>, inner: seq<B>, outerKey: A -> K, innerKey: B -> K,
                                                            select: (A, B) -> R, i: nat)
    requires i <= |outer|
    ensures var rows := JoinFrom(outer, inner, outerKey, innerKey, select, i);
            var ps := PairsFrom(outer, inner, outerKey, innerKey, i);
            |rows| == |ps| &&
            forall k :: 0 <= k < |ps| ==> rows[k] == select(outer[ps[k].0], inner[ps[k].1])
    decreases |outer| - i
  {
    if i < |outer| {
      RowsForArePairs(outer, inner, outerKey, innerKey, select, i, 0);
      JoinFromArePairs(outer, inner, outerKey, innerKey, select, i + 1);
      var rows := JoinFrom(outer, inner, outerKey, innerKey, select, i);
      var ps := PairsFrom(outer, inner, outerKey, innerKey, i);
      var here := RowsFor(outer, inner, outerKey, innerKey, select, i, 0);
      var herePairs := PairsFor(outer, inner, outerKey, innerKey, i, 0);
      var rest := JoinFrom(outer, inner, outerKey, innerKey, select, i + 1);
      var restPairs := PairsFrom(outer, inner, outerKey, innerKey, i + 1);
      assert rows == here + rest;
      assert ps == herePairs + restPairs;
      forall k | 0 <= k < |ps|
        ensures rows[k] == select(outer[ps[k].0], inner[ps[k].1])
      {
        if k < |herePairs| {
          assert rows[k] == here[k] && ps[k] == herePairs[k];
        } else {
          assert rows[k] == rest[k - |here|] && ps[k] == restPairs[k - |herePairs|];
        }
      }
    }
  }

  /** The join has exactly one row per matching index pair: row `k` is the
      selection of the `k`-th pair, every pair of elements with equal keys is
      listed, and no pair is listed twice. */
  lemma JoinIsMatchedPairs<A, B, K, R>(outer: seq<A>, inner: seq<B>, outerKey: A -> K, innerKey: B -> K,
                                           select: (A, B) -> R)
    ensures var rows := Join(outer, inner, outerKey, innerKey, select);
            var ps := MatchedPairs(outer, inner, outerKey, innerKey);
            && |rows| == |ps|
            && (forall k :: 0 <= k < |ps| ==>
                  KeysMatch(outer, inner, outerKey, innerKey, ps[k].0, ps[k].1)
                  && rows[k] == select(outer[ps[k].0], inner[ps[k].1]))
            && (forall i: nat, j: nat :: KeysMatch(outer, inner, outerKey, innerKey, i, j) <==> (i, j) in ps)
            && (forall k1, k2 :: 0 <= k1 < |ps| && 0 <= k2 < |ps| && k1 != k2 ==> ps[k1] != ps[k2])
  {
    JoinFromArePairs(outer, inner, outerKey, innerKey, select, 0);
    var ps := MatchedPairs(outer, inner, outerKey, innerKey);
    forall k1, k2 | 0 <= k1 < |ps| && 0 <= k2 < |ps| && k1 != k2
      ensures ps[k1] != ps[k2]
    {
      if k1 < k2 {
        assert PairBefore(ps[k1], ps[k2]);
      } else {
        assert PairBefore(ps[k2], ps[k1]);
      }
    }
  }

  /** Two equal inner elements matching one outer element give two equal
      rows: the join does not collapse duplicates. */
  lemma JoinRepeatsDuplicates<A, B, K, R>(outer: seq<A>, inner: seq<B>, outerKey: A -> K, innerKey: B -> K,
                                          select: (A, B) -> R, i: nat, j1: nat, j2: nat)
    requires KeysMatch(outer, inner, outerKey, innerKey, i, j1)
    requires j1 < j2 < |inner| && inner[j1] == inner[j2]
    ensures multiset(Join(outer, inner, outerKey, innerKey, select))[select(outer[i], inner[j1])] >= 2
  {
    JoinIsMatchedPairs(outer, inner, outerKey, innerKey, select);
    var rows := Join(outer, inner, outerKey, innerKey, select);
    var ps := MatchedPairs(outer, inner, outerKey, innerKey);
    assert KeysMatch(outer, inner, outerKey, innerKey, i, j2);
    var k1 :| 0 <= k1 < |ps| && ps[k1] == (i, j1);
    var k2 :| 0 <= k2 < |ps| && ps[k2] == (i, j2);
    assert !PairBefore(ps[k2], ps[k1]);
    assert k1 < k2;
    CountOfTwoOccurrences(rows, k1, k2);
  }

  /* ---------------------------------------------------------------------- */
  /* Counting occurrences                                                   */
  /* ---------------------------------------------------------------------- */

  /** An element counted at least twice sits at two distinct positions. */
  lemma {:induction false} TwoOccurrences<T>(s: seq<T>, x: T)
    requires multiset(s)[x] >= 2
    ensures exists j1, j2 :: 0 <= j1 < j2 < |s| && s[j1] == x && s[j2] == x
  {
    assert s == [s[0]] + s[1..];
    if s[0] == x {
      assert x in multiset(s[1..]);
      var j :| 0 <= j < |s[1..]| && s[1..][j] == x;
      assert s[0] == x && s[j + 1] == x;
    } else {
      TwoOccurrences(s[1..], x);
      var j1, j2 :| 0 <= j1 < j2 < |s[1..]| && s[1..][j1] == x && s[1..][j2] == x;
      assert s[j1 + 1] == x && s[j2 + 1] == x;
    }
  }

  /** An element at two distinct positions is counted at least twice. */
  lemma CountOfTwoOccurrences<T>(s: seq<T>, k1: nat, k2: nat)
    requires k1 < k2 < |s| && s[k1] == s[k2]
    ensures multiset(s)[s[k1]] >= 2
  {
    var x := s[k1];
    assert s == s[..k2] + s[k2..];
    assert x in s[..k2];
    assert s[k2..][0] == x;
    assert multiset(s)[x] == multiset(s[..k2])[x] + multiset(s[k2..])[x];
  }
}
