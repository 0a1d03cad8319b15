/** Folds over finite sequences (the semantics of lodash's `max`, `min`,
    `sum` and of concatenating chunks) and the integer-division facts the
    resamplers rely on. */
module SeqMath {

  function Max(a: int, b: int): int { if a >= b then a else b }

  function Min(a: int, b: int): int { if a <= b then a else b }

  /** Largest `f`-value of a non-empty sequence, folded left to right. */
  function MaxBy<T>(s: seq<T>, f: T -> int): (m: int)
    requires |s| > 0
    ensures exists i :: 0 <= i < |s| && m == f(s[i])
    ensures forall i :: 0 <= i < |s| ==> f(s[i]) <= m
    decreases |s|
  {
    if |s| == 1 then f(s[0])
    else
      var m' := MaxBy(s[..|s| - 1], f);
      assert forall i :: 0 <= i < |s| - 1 ==> s[..|s| - 1][i] == s[i];
      Max(m', f(s[|s| - 1]))
  }

  /** Smallest `f`-value of a non-empty sequence, folded left to right. */
  function MinBy<T>(s: seq<T>, f: T -> int): (m: int)
    requires |s| > 0
    ensures exists i :: 0 <= i < |s| && m == f(s[i])
    ensures forall i :: 0 <= i < |s| ==> m <= f(s[i])
    decreases |s|
  {
    if |s| == 1 then f(s[0])
    else
      var m' := MinBy(s[..|s| - 1], f);
      assert forall i :: 0 <= i < |s| - 1 ==> s[..|s| - 1][i] == s[i];
      Min(m', f(s[|s| - 1]))
  }

  /** Sum of the `f`-values, folded left to right; 0 for the empty sequence. */
  function SumBy<T>(s: seq<T>, f: T -> int): int
    decreases |s|
  {
    if |s| == 0 then 0 else SumBy(s[..|s| - 1], f) + f(s[|s| - 1])
  }

  lemma {:induction false} SumByAppend<T>(a: seq<T>, b: seq<T>, f: T -> int)
    ensures SumBy(a + b, f) == SumBy(a, f) + SumBy(b, f)
    decreases |b|
  {
    if |b| > 0 {
      assert (a + b)[..|a + b| - 1] == a + b[..|b| - 1];
      SumByAppend(a, b[..|b| - 1], f);
    } else {
      assert a + b == a;
    }
  }

  lemma SumBySnoc<T>(s: seq<T>, x: T, f: T -> int)
    ensures SumBy(s + [x], f) == SumBy(s, f) + f(x)
  {
    assert (s + [x])[..|s|] == s;
  }

  lemma SumByCons<T>(x: T, s: seq<T>, f: T -> int)
    ensures SumBy([x] + s, f) == f(x) + SumBy(s, f)
  {
    SumByAppend([x], s, f);
    assert [x][..0] == [];
  }

  /** The sequences of `ss`, one after the other. */
  function Flatten<T>(ss: seq<seq<T>>): seq<T>
    decreases |ss|
  {
    if |ss| == 0 then [] else ss[0] + Flatten(ss[1..])
  }

  lemma {:induction false} FlattenAppend<T>(a: seq<seq<T>>, b: seq<seq<T>>)
    ensures Flatten(a + b) == Flatten(a) + Flatten(b)
    decreases |a|
  {
    if |a| == 0 {
      assert a + b == b;
    } else {
      assert (a + b)[1..] == a[1..] + b;
      FlattenAppend(a[1..], b);
    }
  }

  lemma FlattenSnoc<T>(a: seq<seq<T>>, x: seq<T>)
    ensures Flatten(a + [x]) == Flatten(a) + x
  {
    FlattenAppend(a, [x]);
    assert Flatten([x]) == x + Flatten([x][1..]);
  }

  // Integer-division facts (divisor positive, so Dafny's / and % are floor division).

  lemma MulMono(a: int, b: int, m: nat)
    requires a <= b
    ensures a * m <= b * m
  {
    assert b * m - a * m == (b - a) * m;
  }

  /** `q` is the floor of `d / m` exactly when `q * m <= d < (q + 1) * m`. */
  lemma FloorDivUnique(d: int, m: nat, q: int)
    requires m > 0
    requires q * m <= d < q * m + m
    ensures d / m == q
  {
    var r := d / m;
    assert d == r * m + d % m;
    if r < q {
      assert (r + 1) * m == r * m + m;
      MulMono(r + 1, q, m);
    } else if r > q {
      assert (q + 1) * m == q * m + m;
      MulMono(q + 1, r, m);
    }
  }

  lemma DivPlusOne(x: int, m: nat)
    requires m > 0
    ensures (x + m) / m == x / m + 1
  {
    var q := x / m;
    assert x == q * m + x % m;
    assert (q + 1) * m == q * m + m;
    FloorDivUnique(x + m, m, q + 1);
  }

  lemma ModAddMultiple(a: nat, k: nat, m: nat)
    requires m > 0
    ensures (a + k * m) % m == a % m
  {
    var q := a / m;
    assert a == q * m + a % m;
    assert a + k * m == (q + k) * m + a % m;
    FloorDivUnique(a + k * m, m, q + k);
  }
}
