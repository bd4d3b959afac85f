/**
 * The Python built-ins the net-worth view is made of: `sorted` with a
 * key (a stable insertion sort by a total preorder), `sum` over a
 * projection, and `itertools.groupby` (maximal runs of equal keys).
 */
module Sequences {

  /** `le` orders every pair and is transitive. */
  ghost predicate TotalPreorder<T(!new)>(le: (T, T) -> bool)
  {
    && (forall a, b :: le(a, b) || le(b, a))
    && (forall a, b, c :: le(a, b) && le(b, c) ==> le(a, c))
  }

  predicate SortedBy<T>(s: seq<T>, le: (T, T) -> bool)
  {
    forall i, j :: 0 <= i < j < |s| ==> le(s[i], s[j])
  }

  /** `x` placed after every element that is not above it. */
  function Insert<T>(x: T, s: seq<T>, le: (T, T) -> bool): (r: seq<T>)
    ensures multiset(r) == multiset(s) + multiset{x} && |r| == |s| + 1
  {
    if s == [] then [x]
    else if le(s[0], x) then
      assert s == [s[0]] + s[1..];
      [s[0]] + Insert(x, s[1..], le)
    else [x] + s
  }

  lemma {:induction false} InsertSorted<T(!new)>(x: T, s: seq<T>, le: (T, T) -> bool)
    requires TotalPreorder(le) && SortedBy(s, le)
    ensures SortedBy(Insert(x, s, le), le)
  {
    if s != [] {
      if le(s[0], x) {
        var tail := s[1..];
        TailSorted(s, le);
        InsertSorted(x, tail, le);
        assert AllAbove(s[0], tail, le) by {
          forall k | 0 <= k < |tail| ensures le(s[0], tail[k]) {
            assert tail[k] == s[k + 1];
          }
        }
        InsertKeepsBound(s[0], x, tail, le);
        ConsSorted(s[0], Insert(x, tail, le), le);
      } else {
        assert AllAbove(x, s, le) by {
          forall k | 0 <= k < |s| ensures le(x, s[k]) {
            if k > 0 {
              assert le(s[0], s[k]);
            }
          }
        }
        ConsSorted(x, s, le);
      }
    }
  }

  /** Every element of `s` is at or above `y`. */
  ghost predicate AllAbove<T>(y: T, s: seq<T>, le: (T, T) -> bool)
  {
    forall k :: 0 <= k < |s| ==> le(y, s[k])
  }

  lemma {:induction false} TailSorted<T>(s: seq<T>, le: (T, T) -> bool)
    requires s != [] && SortedBy(s, le)
    ensures SortedBy(s[1..], le)
  {
    var tail := s[1..];
    forall i, j | 0 <= i < j < |tail| ensures le(tail[i], tail[j]) {
      assert tail[i] == s[i + 1] && tail[j] == s[j + 1];
    }
  }

  lemma {:induction false} InsertKeepsBound<T>(y: T, x: T, s: seq<T>, le: (T, T) -> bool)
    requires le(y, x) && AllAbove(y, s, le)
    ensures AllAbove(y, Insert(x, s, le), le)
  {
    var r := Insert(x, s, le);
    forall j | 0 <= j < |r| ensures le(y, r[j]) {
      assert r[j] in multiset(r);
      if r[j] != x {
        assert r[j] in multiset(s);
        var k :| 0 <= k < |s| && s[k] == r[j];
      }
    }
  }

  lemma {:induction false} ConsSorted<T>(y: T, t: seq<T>, le: (T, T) -> bool)
    requires SortedBy(t, le) && AllAbove(y, t, le)
    ensures SortedBy([y] + t, le)
  {
    var r := [y] + t;
    forall i, j | 0 <= i < j < |r| ensures le(r[i], r[j]) {
      assert r[j] == t[j - 1];
      if i > 0 {
        assert r[i] == t[i - 1];
      }
    }
  }

  /**
   * `sorted(s, key=…)`: the elements of `s` in `le` order. Each element
   * is inserted after those already placed that are not above it, so
   * elements `le` cannot tell apart keep their relative order
   * (`SortByStable`).
   */
  function SortBy<T>(s: seq<T>, le: (T, T) -> bool): (r: seq<T>)
    ensures multiset(r) == multiset(s) && |r| == |s|
  {
    if s == [] then []
    else
      var front := s[..|s| - 1];
      assert s == front + [s[|s| - 1]];
      Insert(s[|s| - 1], SortBy(front, le), le)
  }

  /** `sorted` returns a sorted permutation of its input. */
  lemma {:induction false} SortBySorted<T(!new)>(s: seq<T>, le: (T, T) -> bool)
    requires TotalPreorder(le)
    ensures SortedBy(SortBy(s, le), le)
  {
    if s != [] {
      SortBySorted(s[..|s| - 1], le);
      InsertSorted(s[|s| - 1], SortBy(s[..|s| - 1], le), le);
    }
  }

  /** The elements of `s` that `le` cannot tell apart from `k`, in their order in `s`. */
  function Equivalents<T>(s: seq<T>, k: T, le: (T, T) -> bool): (r: seq<T>)
    ensures |r| <= |s|
  {
    if s == [] then []
    else (if le(s[0], k) && le(k, s[0]) then [s[0]] else []) + Equivalents(s[1..], k, le)
  }

  lemma {:induction false} EquivalentsAppend<T>(a: seq<T>, b: seq<T>, k: T, le: (T, T) -> bool)
    ensures Equivalents(a + b, k, le) == Equivalents(a, k, le) + Equivalents(b, k, le)
    decreases |a|
  {
    if a != [] {
      assert (a + b)[0] == a[0] && (a + b)[1..] == a[1..] + b;
      EquivalentsAppend(a[1..], b, k, le);
    } else {
      assert a + b == b;
    }
  }

  /** A sorted sequence whose head is strictly above `x` holds nothing equivalent to `x`. */
  lemma {:induction false} NoEquivalentsAbove<T(!new)>(x: T, t: seq<T>, k: T, le: (T, T) -> bool)
    requires TotalPreorder(le) && SortedBy(t, le)
    requires t != [] && !le(t[0], x) && le(x, k) && le(k, x)
    ensures Equivalents(t, k, le) == []
    decreases |t|
  {
    var tail := t[1..];
    if tail != [] {
      TailSorted(t, le);
      assert le(t[0], tail[0]);
      assert !le(tail[0], x);
      NoEquivalentsAbove(x, tail, k, le);
    }
  }

  /** Inserting `x` into a sorted sequence puts it after every element equivalent to it. */
  lemma {:induction false} InsertStable<T(!new)>(x: T, t: seq<T>, k: T, le: (T, T) -> bool)
    requires TotalPreorder(le) && SortedBy(t, le)
    ensures Equivalents(Insert(x, t, le), k, le) == Equivalents(t, k, le) + EquivalentPart(x, k, le)
    decreases |t|
  {
    if t == [] {
      InsertIntoEmpty(x, k, le);
    } else if le(t[0], x) {
      TailSorted(t, le);
      InsertStable(x, t[1..], k, le);
      InsertBehindHead(x, t, k, le);
    } else {
      if le(x, k) && le(k, x) {
        NoEquivalentsAbove(x, t, k, le);
      }
      InsertInFront(x, t, k, le);
    }
  }

  /** `[x]` if `le` cannot tell `x` from `k`, else nothing. */
  function EquivalentPart<T>(x: T, k: T, le: (T, T) -> bool): (r: seq<T>)
    ensures r == Equivalents([x], k, le)
  {
    assert [x][1..] == [];
    if le(x, k) && le(k, x) then [x] else []
  }

  lemma InsertIntoEmpty<T>(x: T, k: T, le: (T, T) -> bool)
    ensures Equivalents(Insert(x, [], le), k, le) == Equivalents([], k, le) + EquivalentPart(x, k, le)
  {
    assert Insert(x, [], le) == [x];
  }

  /** `x` passes the head: the head's part comes first, the rest is the insertion into the tail. */
  lemma {:induction false} InsertBehindHead<T>(x: T, t: seq<T>, k: T, le: (T, T) -> bool)
    requires t != [] && le(t[0], x)
    requires Equivalents(Insert(x, t[1..], le), k, le) == Equivalents(t[1..], k, le) + EquivalentPart(x, k, le)
    ensures Equivalents(Insert(x, t, le), k, le) == Equivalents(t, k, le) + EquivalentPart(x, k, le)
  {
    var tail := t[1..];
    var inserted := Insert(x, tail, le);
    assert Insert(x, t, le) == [t[0]] + inserted;
    EquivalentsCons(t[0], inserted, k, le);
    assert t == [t[0]] + tail;
    EquivalentsCons(t[0], tail, k, le);
    AppendAssoc(EquivalentPart(t[0], k, le), Equivalents(tail, k, le), EquivalentPart(x, k, le));
  }

  lemma AppendAssoc<T>(a: seq<T>, b: seq<T>, c: seq<T>)
    ensures a + (b + c) == (a + b) + c
  {
  }

  lemma {:induction false} EquivalentsCons<T>(y: T, s: seq<T>, k: T, le: (T, T) -> bool)
    ensures Equivalents([y] + s, k, le) == EquivalentPart(y, k, le) + Equivalents(s, k, le)
  {
    var r := [y] + s;
    assert r[0] == y && r[1..] == s;
  }

  /** `x` stops in front: nothing behind it is equivalent to it, so its part may come last. */
  lemma {:induction false} InsertInFront<T>(x: T, t: seq<T>, k: T, le: (T, T) -> bool)
    requires t != [] && !le(t[0], x)
    requires EquivalentPart(x, k, le) != [] ==> Equivalents(t, k, le) == []
    ensures Equivalents(Insert(x, t, le), k, le) == Equivalents(t, k, le) + EquivalentPart(x, k, le)
  {
    assert Insert(x, t, le) == [x] + t;
    EquivalentsCons(x, t, k, le);
  }

  /**
   * `sorted` is stable: the elements `le` cannot tell apart come out in
   * the order they went in.
   */
  lemma {:induction false} SortByStable<T(!new)>(s: seq<T>, k: T, le: (T, T) -> bool)
    requires TotalPreorder(le)
    ensures Equivalents(SortBy(s, le), k, le) == Equivalents(s, k, le)
    decreases |s|
  {
    if s != [] {
      var front := s[..|s| - 1];
      var x := s[|s| - 1];
      assert s == front + [x];
      SortByStable(front, k, le);
      SortBySorted(front, le);
      InsertStable(x, SortBy(front, le), k, le);
      EquivalentsAppend(front, [x], k, le);
    }
  }

  // ------------------------------------------------------------ sums

  /** `sum(f(x) for x in s)` over integers. */
  function SumOf<T>(s: seq<T>, f: T -> int): int
  {
    if s == [] then 0 else f(s[0]) + SumOf(s[1..], f)
  }

  /** `sum(f(x) for x in s)` over exact reals. */
  function RealSumOf<T>(s: seq<T>, f: T -> real): real
  {
    if s == [] then 0.0 else f(s[0]) + RealSumOf(s[1..], f)
  }

  lemma {:induction false} SumOfAppend<T>(a: seq<T>, b: seq<T>, f: T -> int)
    ensures SumOf(a + b, f) == SumOf(a, f) + SumOf(b, f)
  {
    if a == [] {
      assert a + b == b;
    } else {
      assert (a + b)[0] == a[0] && (a + b)[1..] == a[1..] + b;
      SumOfAppend(a[1..], b, f);
    }
  }

  lemma {:induction false} RealSumOfAppend<T>(a: seq<T>, b: seq<T>, f: T -> real)
    ensures RealSumOf(a + b, f) == RealSumOf(a, f) + RealSumOf(b, f)
  {
    if a == [] {
      assert a + b == b;
    } else {
      assert (a + b)[0] == a[0] && (a + b)[1..] == a[1..] + b;
      RealSumOfAppend(a[1..], b, f);
    }
  }

  /** Taking the first element of `a` out of `b` leaves a permutation of the rest of `a`. */
  lemma PermutationRest<T>(a: seq<T>, b: seq<T>, k: int)
    requires multiset(a) == multiset(b) && a != [] && 0 <= k < |b| && b[k] == a[0]
    ensures multiset(a[1..]) == multiset(b[..k] + b[k + 1..])
  {
    var x := a[0];
    var rest := b[..k] + b[k + 1..];
    assert b == b[..k] + [x] + b[k + 1..];
    assert a == [x] + a[1..];
    assert multiset(b) == multiset(b[..k]) + multiset{x} + multiset(b[k + 1..]);
    assert multiset(a) == multiset{x} + multiset(a[1..]);
    assert multiset(rest) == multiset(b[..k]) + multiset(b[k + 1..]);
    assert multiset(rest) == multiset(b) - multiset{x};
    assert multiset(a[1..]) == multiset(a) - multiset{x};
  }

  /** A sum does not depend on the order of its terms. */
  lemma {:induction false} SumOfPermutation<T>(a: seq<T>, b: seq<T>, f: T -> int)
    requires multiset(a) == multiset(b)
    ensures SumOf(a, f) == SumOf(b, f)
    decreases |a|
  {
    if a == [] {
      assert |b| == |multiset(b)| == 0;
    } else {
      var x := a[0];
      assert x in multiset(b);
      var k :| 0 <= k < |b| && b[k] == x;
      var rest := b[..k] + b[k + 1..];
      PermutationRest(a, b, k);
      SumOfPermutation(a[1..], rest, f);
      assert b == b[..k] + [x] + b[k + 1..];
      SumOfAppend(b[..k] + [x], b[k + 1..], f);
      SumOfAppend(b[..k], [x], f);
      SumOfAppend(b[..k], b[k + 1..], f);
      assert SumOf([x], f) == f(x) + SumOf([], f);
    }
  }

  /** A sum does not depend on the order of its terms. */
  lemma {:induction false} RealSumOfPermutation<T>(a: seq<T>, b: seq<T>, f: T -> real)
    requires multiset(a) == multiset(b)
    ensures RealSumOf(a, f) == RealSumOf(b, f)
    decreases |a|
  {
    if a == [] {
      assert |b| == |multiset(b)| == 0;
    } else {
      var x := a[0];
      assert x in multiset(b);
      var k :| 0 <= k < |b| && b[k] == x;
      var rest := b[..k] + b[k + 1..];
      PermutationRest(a, b, k);
      RealSumOfPermutation(a[1..], rest, f);
      assert b == b[..k] + [x] + b[k + 1..];
      RealSumOfAppend(b[..k] + [x], b[k + 1..], f);
      RealSumOfAppend(b[..k], [x], f);
      RealSumOfAppend(b[..k], b[k + 1..], f);
      assert RealSumOf([x], f) == f(x) + RealSumOf([], f);
    }
  }

  // ------------------------------------------------------------ runs

  /**
   * `itertools.groupby(s, key)`: the maximal runs of consecutive
   * elements with equal keys.
   */
  function Runs<T, K(==)>(s: seq<T>, key: T -> K): (r: seq<seq<T>>)
    ensures |s| == 0 <==> |r| == 0
    ensures r != [] ==> r[0] != [] && r[0][0] == s[0]
    ensures forall k :: 0 <= k < |r| ==> r[k] != []
  {
    if s == [] then []
    else
      var rest := Runs(s[1..], key);
      if rest != [] && key(rest[0][0]) == key(s[0]) then [[s[0]] + rest[0]] + rest[1..]
      else [[s[0]]] + rest
  }

  function Flatten<T>(runs: seq<seq<T>>): seq<T>
  {
    if runs == [] then [] else runs[0] + Flatten(runs[1..])
  }

  /** Elements whose keys are equal are never separated by one with another key. */
  predicate Clustered<T, K(==)>(s: seq<T>, key: T -> K)
  {
    forall i, j, m :: 0 <= i < j < m < |s| && key(s[i]) == key(s[m]) ==> key(s[j]) == key(s[i])
  }

  /**
   * The runs put back together give the input; each run is non-empty
   * and of one key; neighbouring runs have different keys.
   */
  lemma RunsProperties<T, K>(s: seq<T>, key: T -> K)
    ensures Flatten(Runs(s, key)) == s
    ensures forall k :: 0 <= k < |Runs(s, key)| ==> Runs(s, key)[k] != []
    ensures forall k, i :: 0 <= k < |Runs(s, key)| && 0 <= i < |Runs(s, key)[k]| ==>
              key(Runs(s, key)[k][i]) == key(Runs(s, key)[k][0])
    ensures forall k :: 0 <= k < |Runs(s, key)| - 1 ==> key(Runs(s, key)[k][0]) != key(Runs(s, key)[k + 1][0])
    ensures forall k :: 0 <= k < |Runs(s, key)| ==> Runs(s, key)[k][0] in s
  {
    RunsFlatten(s, key);
    RunsUniform(s, key);
    RunsNeighboursDiffer(s, key);
    RunHeadsIn(s, key);
  }

  lemma {:induction false} RunsFlatten<T, K>(s: seq<T>, key: T -> K)
    ensures Flatten(Runs(s, key)) == s
  {
    if s != [] {
      var t := s[1..];
      RunsFlatten(t, key);
      var rest := Runs(t, key);
      var r := Runs(s, key);
      assert s == [s[0]] + t;
      if rest != [] && key(rest[0][0]) == key(s[0]) {
        var first := [s[0]] + rest[0];
        assert r == [first] + rest[1..];
        assert rest == [rest[0]] + rest[1..];
        assert Flatten(rest) == rest[0] + Flatten(rest[1..]);
        assert Flatten(r) == first + Flatten(rest[1..]);
      } else {
        assert r == [[s[0]]] + rest;
        assert Flatten(r) == [s[0]] + Flatten(r[1..]);
        assert r[1..] == rest;
      }
    }
  }

  lemma {:induction false} RunsUniform<T, K>(s: seq<T>, key: T -> K)
    ensures forall k, i :: 0 <= k < |Runs(s, key)| && 0 <= i < |Runs(s, key)[k]| ==>
              key(Runs(s, key)[k][i]) == key(Runs(s, key)[k][0])
  {
    if s != [] {
      var t := s[1..];
      RunsUniform(t, key);
      var rest := Runs(t, key);
      var r := Runs(s, key);
      if rest != [] && key(rest[0][0]) == key(s[0]) {
        var first := [s[0]] + rest[0];
        assert r == [first] + rest[1..];
        forall k, i | 0 <= k < |r| && 0 <= i < |r[k]| ensures key(r[k][i]) == key(r[k][0]) {
          if k == 0 {
            if i > 0 {
              assert first[i] == rest[0][i - 1];
            }
          } else {
            assert r[k] == rest[k];
          }
        }
      } else {
        assert r == [[s[0]]] + rest;
        forall k, i | 0 <= k < |r| && 0 <= i < |r[k]| ensures key(r[k][i]) == key(r[k][0]) {
          if k > 0 {
            assert r[k] == rest[k - 1];
          }
        }
      }
    }
  }

  lemma {:induction false} RunsNeighboursDiffer<T, K>(s: seq<T>, key: T -> K)
    ensures forall k :: 0 <= k < |Runs(s, key)| - 1 ==> key(Runs(s, key)[k][0]) != key(Runs(s, key)[k + 1][0])
  {
    if s != [] {
      var t := s[1..];
      RunsNeighboursDiffer(t, key);
      var rest := Runs(t, key);
      var r := Runs(s, key);
      if rest != [] && key(rest[0][0]) == key(s[0]) {
        assert r == [[s[0]] + rest[0]] + rest[1..];
        forall k | 0 <= k < |r| - 1 ensures key(r[k][0]) != key(r[k + 1][0]) {
          assert r[k + 1] == rest[k + 1];
          if k > 0 {
            assert r[k] == rest[k];
          }
        }
      } else {
        assert r == [[s[0]]] + rest;
        forall k | 0 <= k < |r| - 1 ensures key(r[k][0]) != key(r[k + 1][0]) {
          assert r[k + 1] == rest[k];
          if k > 0 {
            assert r[k] == rest[k - 1];
          }
        }
      }
    }
  }

  lemma {:induction false} RunHeadsIn<T, K>(s: seq<T>, key: T -> K)
    ensures forall k :: 0 <= k < |Runs(s, key)| ==> Runs(s, key)[k][0] in s
  {
    if s != [] {
      var t := s[1..];
      RunHeadsIn(t, key);
      var rest := Runs(t, key);
      var r := Runs(s, key);
      forall k | 0 <= k < |rest| ensures rest[k][0] in s {
        var j :| 0 <= j < |t| && t[j] == rest[k][0];
        assert s[j + 1] == t[j];
      }
      if rest != [] && key(rest[0][0]) == key(s[0]) {
        assert r == [[s[0]] + rest[0]] + rest[1..];
        forall k | 1 <= k < |r| ensures r[k] == rest[k] {}
      } else {
        assert r == [[s[0]]] + rest;
        forall k | 1 <= k < |r| ensures r[k] == rest[k - 1] {}
      }
    }
  }

  /** In clustered input, once the key changes the first key does not come back. */
  lemma {:induction false} FirstKeyLeft<T, K>(s: seq<T>, key: T -> K)
    requires Clustered(s, key) && |s| > 1 && key(s[1]) != key(s[0])
    ensures forall m :: 1 <= m < |s| ==> key(s[m]) != key(s[0])
  {
    var first, second := key(s[0]), key(s[1]);
    forall m | 1 < m < |s| ensures key(s[m]) != first {
      assert first == key(s[m]) ==> second == first;
    }
  }

  lemma {:induction false} ClusteredTail<T, K>(s: seq<T>, key: T -> K)
    requires Clustered(s, key) && s != []
    ensures Clustered(s[1..], key)
  {
    var t := s[1..];
    forall i, j, m | 0 <= i < j < m < |t| && key(t[i]) == key(t[m]) ensures key(t[j]) == key(t[i]) {
      assert t[i] == s[i + 1] && t[j] == s[j + 1] && t[m] == s[m + 1];
    }
  }

  /** A run merged into the first one leaves the keys heading the runs as they were. */
  lemma {:induction false} RunsDistinctMerged<T, K>(s: seq<T>, key: T -> K)
    requires s != []
    requires var rest := Runs(s[1..], key);
             && (forall k, l :: 0 <= k < l < |rest| ==> key(rest[k][0]) != key(rest[l][0]))
             && rest != [] && key(rest[0][0]) == key(s[0])
    ensures forall k, l :: 0 <= k < l < |Runs(s, key)| ==> key(Runs(s, key)[k][0]) != key(Runs(s, key)[l][0])
  {
    var rest := Runs(s[1..], key);
    var r := Runs(s, key);
    assert r == [[s[0]] + rest[0]] + rest[1..];
    forall k, l | 0 <= k < l < |r| ensures key(r[k][0]) != key(r[l][0]) {
      assert r[l] == rest[l];
      if k > 0 {
        assert r[k] == rest[k];
      } else {
        assert r[k][0] == s[0];
      }
    }
  }

  /** A key that starts a new run heads no later run. */
  lemma {:induction false} NewKeyAbsent<T, K>(s: seq<T>, key: T -> K)
    requires s != [] && Clustered(s, key)
    requires var rest := Runs(s[1..], key);
             !(rest != [] && key(rest[0][0]) == key(s[0]))
    ensures var rest := Runs(s[1..], key);
            forall l :: 0 <= l < |rest| ==> key(rest[l][0]) != key(s[0])
  {
    var t := s[1..];
    var rest := Runs(t, key);
    RunsProperties(t, key);
    if |s| > 1 {
      assert rest[0][0] == t[0] == s[1];
      FirstKeyLeft(s, key);
    }
    forall l | 0 <= l < |rest| ensures key(rest[l][0]) != key(s[0]) {
      var x := rest[l][0];
      assert x in t;
      var m :| 0 <= m < |t| && t[m] == x;
      assert s[m + 1] == x;
    }
  }

  /** A new run in front has a key no later run has. */
  lemma {:induction false} RunsDistinctNew<T, K>(s: seq<T>, key: T -> K)
    requires s != [] && Clustered(s, key)
    requires var rest := Runs(s[1..], key);
             && (forall k, l :: 0 <= k < l < |rest| ==> key(rest[k][0]) != key(rest[l][0]))
             && !(rest != [] && key(rest[0][0]) == key(s[0]))
    ensures forall k, l :: 0 <= k < l < |Runs(s, key)| ==> key(Runs(s, key)[k][0]) != key(Runs(s, key)[l][0])
  {
    var rest := Runs(s[1..], key);
    var r := Runs(s, key);
    NewKeyAbsent(s, key);
    assert r == [[s[0]]] + rest;
    forall k, l | 0 <= k < l < |r| ensures key(r[k][0]) != key(r[l][0]) {
      assert r[l] == rest[l - 1];
      if k > 0 {
        assert r[k] == rest[k - 1];
      }
    }
  }

  /** On clustered input every key heads exactly one run. */
  lemma {:induction false} RunsDistinct<T, K>(s: seq<T>, key: T -> K)
    requires Clustered(s, key)
    ensures forall k, l :: 0 <= k < l < |Runs(s, key)| ==> key(Runs(s, key)[k][0]) != key(Runs(s, key)[l][0])
  {
    if s != [] {
      ClusteredTail(s, key);
      RunsDistinct(s[1..], key);
      var rest := Runs(s[1..], key);
      if rest != [] && key(rest[0][0]) == key(s[0]) {
        RunsDistinctMerged(s, key);
      } else {
        RunsDistinctNew(s, key);
      }
    }
  }

  /** The runs of a sorted sequence start in sorted order. */
  lemma {:induction false} RunHeadsSorted<T, K>(s: seq<T>, key: T -> K, le: (T, T) -> bool)
    requires SortedBy(s, le)
    ensures forall k, l :: 0 <= k < l < |Runs(s, key)| ==> le(Runs(s, key)[k][0], Runs(s, key)[l][0])
  {
    if s != [] {
      var t := s[1..];
      TailSorted(s, le);
      RunHeadsSorted(t, key, le);
      RunHeadsIn(t, key);
      var rest := Runs(t, key);
      forall l | 0 <= l < |rest| ensures le(s[0], rest[l][0]) {
        var j :| 0 <= j < |t| && t[j] == rest[l][0];
        assert t[j] == s[j + 1];
      }
      if rest != [] && key(rest[0][0]) == key(s[0]) {
        HeadsSortedMerged(s[0], rest, le);
      } else {
        HeadsSortedNew(s[0], rest, le);
      }
    }
  }

  /** The heads of `runs` stay sorted when `y`, below every head, joins the first run. */
  lemma {:induction false} HeadsSortedMerged<T>(y: T, runs: seq<seq<T>>, le: (T, T) -> bool)
    requires runs != [] && forall k :: 0 <= k < |runs| ==> runs[k] != []
    requires forall l :: 0 <= l < |runs| ==> le(y, runs[l][0])
    requires forall k, l :: 0 <= k < l < |runs| ==> le(runs[k][0], runs[l][0])
    ensures var r := [[y] + runs[0]] + runs[1..];
            forall k, l :: 0 <= k < l < |r| ==> le(r[k][0], r[l][0])
  {
    var r := [[y] + runs[0]] + runs[1..];
    forall k, l | 0 <= k < l < |r| ensures le(r[k][0], r[l][0]) {
      assert r[l] == runs[l];
      if k > 0 {
        assert r[k] == runs[k];
      }
    }
  }

  /** The heads of `runs` stay sorted behind a new run `[y]` below every head. */
  lemma {:induction false} HeadsSortedNew<T>(y: T, runs: seq<seq<T>>, le: (T, T) -> bool)
    requires forall k :: 0 <= k < |runs| ==> runs[k] != []
    requires forall l :: 0 <= l < |runs| ==> le(y, runs[l][0])
    requires forall k, l :: 0 <= k < l < |runs| ==> le(runs[k][0], runs[l][0])
    ensures var r := [[y]] + runs;
            forall k, l :: 0 <= k < l < |r| ==> le(r[k][0], r[l][0])
  {
    var r := [[y]] + runs;
    forall k, l | 0 <= k < l < |r| ensures le(r[k][0], r[l][0]) {
      assert r[l] == runs[l - 1];
      if k > 0 {
        assert r[k] == runs[k - 1];
      }
    }
  }
}
