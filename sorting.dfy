/** The semantics of the sorts the engine calls: `Array.prototype.sort`
    with a time comparator and lodash's `sortBy`. Both are stable; the model
    sorts a copy by stable insertion (a new element goes after every element
    with an equal key). */
module Sorting {
  import opened SeqMath

  ghost predicate SortedBy<T>(s: seq<T>, key: T -> int)
  {
    forall i, j :: 0 <= i < j < |s| ==> key(s[i]) <= key(s[j])
  }

  /** `x` inserted into `s` after the leading elements whose key is at most
      its own. */
  function InsertBy<T>(x: T, s: seq<T>, key: T -> int): (r: seq<T>)
    ensures |r| == |s| + 1
    ensures multiset(r) == multiset(s) + multiset{x}
    decreases |s|
  {
    if |s| == 0 then [x]
    else if key(x) < key(s[0]) then [x] + s
    else
      assert s == [s[0]] + s[1..];
      [s[0]] + InsertBy(x, s[1..], key)
  }

  /** Inserting into a sorted sequence keeps it sorted. */
  lemma {:induction false} InsertBySorted<T>(x: T, s: seq<T>, key: T -> int)
    requires SortedBy(s, key)
    ensures SortedBy(InsertBy(x, s, key), key)
    decreases |s|
  {
    if |s| > 0 && key(s[0]) <= key(x) {
      var rest := InsertBy(x, s[1..], key);
      InsertBySorted(x, s[1..], key);
      var r := [s[0]] + rest;
      assert InsertBy(x, s, key) == r;
      forall i | 0 <= i < |rest| ensures key(s[0]) <= key(rest[i]) {
        assert rest[i] in multiset(rest);
        if rest[i] != x {
          assert rest[i] in multiset(s[1..]);
          var j :| 0 <= j < |s[1..]| && s[1..][j] == rest[i];
          assert s[j + 1] == rest[i];
        }
      }
      forall i, j | 0 <= i < j < |r| ensures key(r[i]) <= key(r[j]) {
        if i > 0 {
          assert r[i] == rest[i - 1] && r[j] == rest[j - 1];
        } else {
          assert r[j] == rest[j - 1];
        }
      }
    }
  }

  /** Stable sort of `s` by `key`. */
  function SortBy<T>(s: seq<T>, key: T -> int): (r: seq<T>)
    ensures |r| == |s|
    ensures multiset(r) == multiset(s)
    ensures SortedBy(r, key)
    decreases |s|
  {
    if |s| == 0 then []
    else
      var r' := SortBy(s[..|s| - 1], key);
      assert s == s[..|s| - 1] + [s[|s| - 1]];
      InsertBySorted(s[|s| - 1], r', key);
      InsertBy(s[|s| - 1], r', key)
  }

  /** A sorted copy holds the same elements. */
  lemma SortByMembers<T>(s: seq<T>, key: T -> int)
    ensures forall i :: 0 <= i < |SortBy(s, key)| ==> SortBy(s, key)[i] in s
    ensures forall i :: 0 <= i < |s| ==> s[i] in SortBy(s, key)
  {
    var r := SortBy(s, key);
    forall i | 0 <= i < |r| ensures r[i] in s {
      assert r[i] in multiset(r);
    }
    forall i | 0 <= i < |s| ensures s[i] in r {
      assert s[i] in multiset(s);
    }
  }

  /** Dropping the last element of a sorted sequence keeps it sorted and
      drops an element whose key is the largest. */
  lemma DropLastSorted<T>(s: seq<T>, key: T -> int)
    requires SortedBy(s, key) && |s| > 0
    ensures SortedBy(s[..|s| - 1], key)
    ensures forall y :: y in s[..|s| - 1] ==> key(y) <= key(s[|s| - 1])
  {
  }

  /** Sorting does not change a sum over the elements. */
  lemma {:induction false} SumByInsert<T>(x: T, s: seq<T>, key: T -> int, f: T -> int)
    ensures SumBy(InsertBy(x, s, key), f) == f(x) + SumBy(s, f)
    decreases |s|
  {
    if |s| == 0 {
      SumByCons(x, [], f);
    } else if key(x) < key(s[0]) {
      SumByCons(x, s, f);
    } else {
      SumByInsert(x, s[1..], key, f);
      SumByCons(s[0], InsertBy(x, s[1..], key), f);
      SumByCons(s[0], s[1..], f);
      assert [s[0]] + s[1..] == s;
    }
  }

  lemma {:induction false} SumBySort<T>(s: seq<T>, key: T -> int, f: T -> int)
    ensures SumBy(SortBy(s, key), f) == SumBy(s, f)
    decreases |s|
  {
    if |s| > 0 {
      SumBySort(s[..|s| - 1], key, f);
      SumByInsert(s[|s| - 1], SortBy(s[..|s| - 1], key), key, f);
    }
  }
  /** An element whose key is at least every key of `s` goes at the end. */
  lemma {:induction false} InsertByLast<T>(x: T, s: seq<T>, key: T -> int)
    requires forall i :: 0 <= i < |s| ==> key(s[i]) <= key(x)
    ensures InsertBy(x, s, key) == s + [x]
    decreases |s|
  {
    if |s| > 0 {
      InsertByLast(x, s[1..], key);
      assert [s[0]] + (s[1..] + [x]) == s + [x];
    }
  }

  /** Sorting a sequence that is already sorted leaves it as it is. */
  lemma {:induction false} SortBySorted<T>(s: seq<T>, key: T -> int)
    requires SortedBy(s, key)
    ensures SortBy(s, key) == s
    decreases |s|
  {
    if |s| > 0 {
      var init := s[..|s| - 1];
      SortBySorted(init, key);
      InsertByLast(s[|s| - 1], init, key);
      assert init + [s[|s| - 1]] == s;
    }
  }
  /** The elements of `s` whose key is `v`, in the order of `s`. */
  function WithKey<T>(s: seq<T>, key: T -> int, v: int): (r: seq<T>)
    ensures |r| <= |s|
    ensures forall i :: 0 <= i < |r| ==> key(r[i]) == v
    decreases |s|
  {
    if |s| == 0 then []
    else (if key(s[0]) == v then [s[0]] else []) + WithKey(s[1..], key, v)
  }

  lemma {:induction false} WithKeyAppend<T>(a: seq<T>, b: seq<T>, key: T -> int, v: int)
    ensures WithKey(a + b, key, v) == WithKey(a, key, v) + WithKey(b, key, v)
    decreases |a|
  {
    if |a| == 0 {
      assert a + b == b;
    } else {
      assert (a + b)[1..] == a[1..] + b;
      WithKeyAppend(a[1..], b, key, v);
    }
  }

  lemma {:induction false} WithKeyNone<T>(s: seq<T>, key: T -> int, v: int)
    requires forall i :: 0 <= i < |s| ==> key(s[i]) != v
    ensures WithKey(s, key, v) == []
    decreases |s|
  {
    if |s| > 0 {
      WithKeyNone(s[1..], key, v);
    }
  }

  /** Insertion into a sorted sequence puts `x` after every element with
      its key. */
  lemma {:induction false} WithKeyInsert<T>(x: T, s: seq<T>, key: T -> int, v: int)
    requires SortedBy(s, key)
    ensures WithKey(InsertBy(x, s, key), key, v) == WithKey(s, key, v) + (if key(x) == v then [x] else [])
    decreases |s|
  {
    if |s| == 0 {
      assert InsertBy(x, s, key) == [x];
      WithKeySingle(x, key, v);
      assert WithKey(s, key, v) == [];
    } else if key(x) < key(s[0]) {
      WithKeyInsertFront(x, s, key, v);
    } else {
      assert SortedBy(s[1..], key);
      WithKeyInsert(x, s[1..], key, v);
      WithKeyInsertBehind(x, s, key, v);
    }
  }

  /** `x` placed in front of a sorted sequence whose keys all exceed its
      own. */
  lemma WithKeyInsertFront<T>(x: T, s: seq<T>, key: T -> int, v: int)
    requires SortedBy(s, key) && |s| > 0 && key(x) < key(s[0])
    ensures WithKey(InsertBy(x, s, key), key, v) == WithKey(s, key, v) + (if key(x) == v then [x] else [])
  {
    var r := [x] + s;
    assert InsertBy(x, s, key) == r;
    assert r[1..] == s;
    assert WithKey(r, key, v) == (if key(x) == v then [x] else []) + WithKey(s, key, v);
    if key(x) == v {
      WithKeyNone(s, key, v);
    }
  }

  /** `x` inserted behind the first element, given the claim for the rest. */
  lemma WithKeyInsertBehind<T>(x: T, s: seq<T>, key: T -> int, v: int)
    requires |s| > 0 && key(s[0]) <= key(x)
    requires WithKey(InsertBy(x, s[1..], key), key, v) == WithKey(s[1..], key, v) + (if key(x) == v then [x] else [])
    ensures WithKey(InsertBy(x, s, key), key, v) == WithKey(s, key, v) + (if key(x) == v then [x] else [])
  {
    var head := if key(s[0]) == v then [s[0]] else [];
    var tail := if key(x) == v then [x] else [];
    var rest := InsertBy(x, s[1..], key);
    assert InsertBy(x, s, key) == [s[0]] + rest;
    WithKeyCons(s[0], rest, key, v);
    WithKeyCons(s[0], s[1..], key, v);
    assert [s[0]] + s[1..] == s;
    AppendAssoc(head, WithKey(s[1..], key, v), tail);
  }

  /** The sort is stable: for every key value, the elements with that key
      come out in the order they went in. */
  lemma {:induction false} SortByStable<T>(s: seq<T>, key: T -> int, v: int)
    ensures WithKey(SortBy(s, key), key, v) == WithKey(s, key, v)
    decreases |s|
  {
    if |s| > 0 {
      var init, x := s[..|s| - 1], s[|s| - 1];
      assert s == init + [x];
      var sorted := SortBy(init, key);
      assert SortBy(s, key) == InsertBy(x, sorted, key);
      SortByStable(init, key, v);
      WithKeyInsert(x, sorted, key, v);
      var tail := if key(x) == v then [x] else [];
      assert WithKey(SortBy(s, key), key, v) == WithKey(init, key, v) + tail;
      WithKeySingle(x, key, v);
      WithKeyAppend(init, [x], key, v);
    }
  }

  lemma AppendAssoc<T>(a: seq<T>, b: seq<T>, c: seq<T>)
    ensures a + (b + c) == (a + b) + c
  {
  }

  lemma WithKeyCons<T>(y: T, t: seq<T>, key: T -> int, v: int)
    ensures WithKey([y] + t, key, v) == (if key(y) == v then [y] else []) + WithKey(t, key, v)
  {
    assert ([y] + t)[1..] == t;
  }

  lemma WithKeySingle<T>(x: T, key: T -> int, v: int)
    ensures WithKey([x], key, v) == if key(x) == v then [x] else []
  {
    assert WithKey([x], key, v) == (if key(x) == v then [x] else []) + WithKey([x][1..], key, v);
  }

}
