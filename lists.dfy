/** A small Option type shared by every module. */
module Wrappers {
  datatype Option<+T> = None | Some(value: T)
}

/**
 * The list operations the engine borrows from Python: comprehensions with a
 * condition (`Filter`), the stable built-in `sorted` with a two-component key
 * (`SortBy`), and the facts about permutations the proofs need.
 */
module Lists {

  /** `[x for x in s if p(x)]`. */
  function Filter<T>(s: seq<T>, p: T -> bool): (r: seq<T>)
    ensures |r| <= |s|
    ensures forall i :: 0 <= i < |r| ==> r[i] in s && p(r[i])
    ensures forall i :: 0 <= i < |s| && p(s[i]) ==> s[i] in r
  {
    if s == [] then []
    else if p(s[0]) then [s[0]] + Filter(s[1..], p)
    else Filter(s[1..], p)
  }

  /** A sort key: a pair of integers, ordered as Python orders 2-tuples. */
  datatype Key = Key(major: int, minor: int)

  predicate KeyLe(a: Key, b: Key) {
    a.major < b.major || (a.major == b.major && a.minor <= b.minor)
  }

  predicate SortedBy<T>(s: seq<T>, key: T -> Key) {
    forall i, j :: 0 <= i < j < |s| ==> KeyLe(key(s[i]), key(s[j]))
  }

  /**
   * Inserts x in front of the first element whose key is not smaller, so an
   * element never overtakes one with an equal key that came before it.
   */
  function Insert<T>(x: T, s: seq<T>, key: T -> Key): (r: seq<T>)
    requires SortedBy(s, key)
    ensures multiset(r) == multiset(s) + multiset{x}
    ensures SortedBy(r, key)
    decreases |s|
  {
    if s == [] || KeyLe(key(x), key(s[0])) then
      InsertFrontSorted(x, s, key);
      [x] + s
    else
      var rest := Insert(x, s[1..], key);
      assert s == [s[0]] + s[1..];
      InsertBehindSorted(x, s, rest, key);
      [s[0]] + rest
  }

  lemma InsertFrontSorted<T>(x: T, s: seq<T>, key: T -> Key)
    requires SortedBy(s, key)
    requires s == [] || KeyLe(key(x), key(s[0]))
    ensures SortedBy([x] + s, key)
  {
    var r := [x] + s;
    forall i, j | 0 <= i < j < |r| ensures KeyLe(key(r[i]), key(r[j])) {
      if i == 0 && j > 1 {
        assert KeyLe(key(s[0]), key(s[j - 1]));
      }
    }
  }

  lemma InsertBehindSorted<T>(x: T, s: seq<T>, rest: seq<T>, key: T -> Key)
    requires SortedBy(s, key) && s != [] && !KeyLe(key(x), key(s[0]))
    requires multiset(rest) == multiset(s[1..]) + multiset{x}
    requires SortedBy(rest, key)
    ensures SortedBy([s[0]] + rest, key)
  {
    var r := [s[0]] + rest;
    forall j | 0 <= j < |rest| ensures KeyLe(key(s[0]), key(rest[j])) {
      assert rest[j] in multiset(rest);
      if rest[j] != x {
        assert rest[j] in multiset(s[1..]);
        var k :| 0 <= k < |s[1..]| && s[1..][k] == rest[j];
        assert s[k + 1] == rest[j];
      }
    }
    forall i, j | 0 <= i < j < |r| ensures KeyLe(key(r[i]), key(r[j])) {
      if i == 0 {
        assert r[j] == rest[j - 1];
      } else {
        assert r[i] == rest[i - 1] && r[j] == rest[j - 1];
      }
    }
  }

  /** Python's stable `sorted(s, key=key)`, ascending. */
  function SortBy<T>(s: seq<T>, key: T -> Key): (r: seq<T>)
    ensures multiset(r) == multiset(s)
    ensures |r| == |s|
    ensures SortedBy(r, key)
  {
    if s == [] then []
    else
      var r := Insert(s[0], SortBy(s[1..], key), key);
      assert s == [s[0]] + s[1..];
      assert |multiset(r)| == |multiset(s)|;
      r
  }

  /** Sorting keeps exactly the elements it was given. */
  lemma InSortBy<T>(s: seq<T>, key: T -> Key, x: T)
    requires x in SortBy(s, key)
    ensures x in s
  {
    assert x in multiset(SortBy(s, key));
  }

  /** Sorting two elements keeps them in place unless the second has the smaller key. */
  lemma SortTwo<T>(a: T, b: T, key: T -> Key)
    ensures SortBy([a, b], key) == if KeyLe(key(a), key(b)) then [a, b] else [b, a]
  {
    assert [a, b][1..] == [b] && [b][1..] == [];
    assert SortBy([b], key) == Insert(b, [], key) == [b];
    assert SortBy([a, b], key) == Insert(a, [b], key);
    if !KeyLe(key(a), key(b)) {
      assert Insert(a, [b], key) == [b] + Insert(a, [], key);
    }
  }

  lemma AppendFront<T>(a: seq<T>, s: seq<T>)
    requires s != []
    ensures a + s == (a + [s[0]]) + s[1..]
  {
    assert s == [s[0]] + s[1..];
  }

  /** The set of a sequence's elements. */
  ghost function Elements<T>(s: seq<T>): (r: set<T>) {
    set x | x in s
  }

  lemma ElementsCons<T>(s: seq<T>)
    requires s != []
    ensures Elements(s) == {s[0]} + Elements(s[1..])
  {
    assert s == [s[0]] + s[1..];
  }

  /** Taking away the elements of a sequence is taking away its head, then its tail's. */
  lemma MinusCons<T>(h: set<T>, s: seq<T>)
    requires s != []
    ensures (h - {s[0]}) - Elements(s[1..]) == h - Elements(s)
  {
    ElementsCons(s);
  }

  lemma ElementsSnoc<T>(s: seq<T>, x: T)
    ensures Elements(s + [x]) == Elements(s) + {x}
  {
  }

  /** The last n elements are the last n - 1 of all but the last element, then the last one. */
  lemma SuffixSnoc<T>(s: seq<T>, n: nat)
    requires 0 < n <= |s|
    ensures s[|s| - n..] == s[..|s| - 1][|s| - n..] + [s[|s| - 1]]
  {
  }

  ghost predicate NoDup<T>(s: seq<T>) {
    forall i, j :: 0 <= i < j < |s| ==> s[i] != s[j]
  }

  /** A property that holds of every two elements at distinct positions. */
  ghost predicate Pairwise<T>(s: seq<T>, rel: (T, T) -> bool) {
    forall i, j :: 0 <= i < |s| && 0 <= j < |s| && i != j ==> rel(s[i], s[j])
  }

  /** A relation that holds of every element and each one after it. */
  ghost predicate Chain<T>(s: seq<T>, rel: (T, T) -> bool) {
    forall i, j :: 0 <= i < j < |s| ==> rel(s[i], s[j])
  }

  lemma {:induction false} ChainFilter<T>(s: seq<T>, p: T -> bool, rel: (T, T) -> bool)
    requires Chain(s, rel)
    ensures Chain(Filter(s, p), rel)
  {
    if s != [] {
      var tail := s[1..];
      assert Chain(tail, rel) by {
        forall i, j | 0 <= i < j < |tail| ensures rel(tail[i], tail[j]) {
          assert tail[i] == s[i + 1] && tail[j] == s[j + 1];
        }
      }
      ChainFilter(tail, p, rel);
      var ft := Filter(tail, p);
      if p(s[0]) {
        var r := [s[0]] + ft;
        forall i, j | 0 <= i < j < |r| ensures rel(r[i], r[j]) {
          if i == 0 {
            assert r[j] == ft[j - 1] && ft[j - 1] in tail;
            var m :| 0 <= m < |tail| && tail[m] == ft[j - 1];
            assert s[m + 1] == r[j];
          } else {
            assert r[i] == ft[i - 1] && r[j] == ft[j - 1];
          }
        }
      }
    }
  }

  lemma {:induction false} CountAtLeastTwo<T>(s: seq<T>, i: int, j: int)
    requires 0 <= i < j < |s| && s[i] == s[j]
    ensures multiset(s)[s[i]] >= 2
  {
    assert s == s[..j] + [s[j]] + s[j + 1..];
    assert s[i] in s[..j];
    assert multiset(s) == multiset(s[..j]) + multiset{s[j]} + multiset(s[j + 1..]);
  }

  lemma {:induction false} TwoPositions<T>(s: seq<T>, x: T)
    requires multiset(s)[x] >= 2
    ensures exists p, q :: 0 <= p < q < |s| && s[p] == x && s[q] == x
  {
    assert s == [s[0]] + s[1..];
    assert multiset(s) == multiset{s[0]} + multiset(s[1..]);
    if s[0] == x {
      assert x in multiset(s[1..]);
      var q :| 0 <= q < |s[1..]| && s[1..][q] == x;
      assert s[q + 1] == x;
    } else {
      TwoPositions(s[1..], x);
      var p, q :| 0 <= p < q < |s[1..]| && s[1..][p] == x && s[1..][q] == x;
      assert s[p + 1] == x && s[q + 1] == x;
    }
  }

  /** Two positions of a permutation come from two distinct positions of the original. */
  lemma PositionsOf<T>(r: seq<T>, s: seq<T>, i: int, j: int)
    requires multiset(r) == multiset(s)
    requires 0 <= i < |r| && 0 <= j < |r| && i != j
    ensures exists p, q :: 0 <= p < |s| && 0 <= q < |s| && p != q && s[p] == r[i] && s[q] == r[j]
  {
    assert r[i] in multiset(s) && r[j] in multiset(s) by {
      assert r[i] in multiset(r) && r[j] in multiset(r);
    }
    if r[i] == r[j] {
      if i < j { CountAtLeastTwo(r, i, j); } else { CountAtLeastTwo(r, j, i); }
      TwoPositions(s, r[i]);
    } else {
      var p :| 0 <= p < |s| && s[p] == r[i];
      var q :| 0 <= q < |s| && s[q] == r[j];
    }
  }

  lemma PairwisePermutation<T>(r: seq<T>, s: seq<T>, rel: (T, T) -> bool)
    requires multiset(r) == multiset(s) && Pairwise(s, rel)
    ensures Pairwise(r, rel)
  {
    forall i, j | 0 <= i < |r| && 0 <= j < |r| && i != j ensures rel(r[i], r[j]) {
      PositionsOf(r, s, i, j);
    }
  }

  lemma {:induction false} PairwiseFilter<T>(s: seq<T>, p: T -> bool, rel: (T, T) -> bool)
    requires Pairwise(s, rel)
    ensures Pairwise(Filter(s, p), rel)
  {
    if s != [] {
      var tail := s[1..];
      assert Pairwise(tail, rel) by {
        forall i, j | 0 <= i < |tail| && 0 <= j < |tail| && i != j ensures rel(tail[i], tail[j]) {
          assert tail[i] == s[i + 1] && tail[j] == s[j + 1];
        }
      }
      PairwiseFilter(tail, p, rel);
      var ft := Filter(tail, p);
      if p(s[0]) {
        var r := [s[0]] + ft;
        assert forall k :: 0 <= k < |ft| ==> rel(s[0], ft[k]) && rel(ft[k], s[0]) by {
          forall k | 0 <= k < |ft| ensures rel(s[0], ft[k]) && rel(ft[k], s[0]) {
            assert ft[k] in tail;
            var m :| 0 <= m < |tail| && tail[m] == ft[k];
            assert s[m + 1] == ft[k];
          }
        }
        forall i, j | 0 <= i < |r| && 0 <= j < |r| && i != j ensures rel(r[i], r[j]) {
          if i > 0 && j > 0 {
            assert r[i] == ft[i - 1] && r[j] == ft[j - 1];
          }
        }
      }
    }
  }

  lemma NoDupPermutation<T>(r: seq<T>, s: seq<T>)
    requires multiset(r) == multiset(s) && NoDup(s)
    ensures NoDup(r)
  {
    forall i, j | 0 <= i < j < |r| ensures r[i] != r[j] {
      PositionsOf(r, s, i, j);
    }
  }

  /** Dropping the first element keeps a sequence free of duplicates, and the first is not in the rest. */
  lemma NoDupTail<T>(s: seq<T>)
    requires NoDup(s) && s != []
    ensures NoDup(s[1..]) && s[0] !in s[1..]
  {
    var tail := s[1..];
    forall i, j | 0 <= i < j < |tail| ensures tail[i] != tail[j] {
      assert tail[i] == s[i + 1] && tail[j] == s[j + 1];
    }
    forall i | 0 <= i < |tail| ensures tail[i] != s[0] {
      assert tail[i] == s[i + 1];
    }
  }

  /** In a sequence without duplicates every element occurs once. */
  lemma {:induction false} NoDupCount<T>(s: seq<T>, x: T)
    requires NoDup(s)
    ensures multiset(s)[x] == if x in s then 1 else 0
  {
    if s != [] {
      var tail := s[1..];
      assert s == [s[0]] + tail;
      assert multiset(s) == multiset{s[0]} + multiset(tail);
      assert NoDup(tail) by {
        forall i, j | 0 <= i < j < |tail| ensures tail[i] != tail[j] {
          assert tail[i] == s[i + 1] && tail[j] == s[j + 1];
        }
      }
      assert s[0] !in tail by {
        forall k | 0 <= k < |tail| ensures tail[k] != s[0] {
          assert tail[k] == s[k + 1];
        }
      }
      NoDupCount(tail, x);
    }
  }

  /** Two sequences without duplicates and with the same elements are permutations of each other. */
  lemma NoDupSameElements<T>(a: seq<T>, b: seq<T>)
    requires NoDup(a) && NoDup(b)
    requires forall x :: x in a <==> x in b
    ensures multiset(a) == multiset(b)
  {
    forall x ensures multiset(a)[x] == multiset(b)[x] {
      NoDupCount(a, x);
      NoDupCount(b, x);
    }
  }
}
