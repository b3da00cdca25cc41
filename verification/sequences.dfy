/**
 Sequence utilities shared by the packing engine and the loot scanner: a key-ordered
 insertion sort (the model of `List<T>.Sort` with a key comparison), a sum over a
 sequence (the model of `foreach` accumulation and `Aggregate`), and removal of the
 first element satisfying a predicate (the model of `List<T>.Remove` on a found element).
 */
module Sequences {

  /** `s` is ordered non-decreasingly by `key`. */
  predicate SortedBy<T>(s: seq<T>, key: T -> real) {
    forall i, j :: 0 <= i < j < |s| ==> key(s[i]) <= key(s[j])
  }

  /** Inserts `x` in front of the first element whose key is not smaller. */
  function Insert<T(==)>(x: T, s: seq<T>, key: T -> real): (r: seq<T>)
    requires SortedBy(s, key)
    ensures SortedBy(r, key)
    ensures multiset(r) == multiset(s) + multiset{x}
    ensures forall k :: 0 <= k < |r| ==> r[k] == x || r[k] in s
  {
    if |s| == 0 then [x]
    else if key(x) <= key(s[0]) then [x] + s
    else
      assert s == [s[0]] + s[1..];
      [s[0]] + Insert(x, s[1..], key)
  }

  /**
   Sorts `s` by `key`. List<T>.Sort is not stable, so callers may rely only on the
   result being an ordered permutation, never on the order of equal keys.
   */
  function SortBy<T(==)>(s: seq<T>, key: T -> real): (r: seq<T>)
    ensures SortedBy(r, key)
    ensures multiset(r) == multiset(s)
    ensures |r| == |s|
  {
    if |s| == 0 then []
    else
      assert s == [s[0]] + s[1..];
      Insert(s[0], SortBy(s[1..], key), key)
  }

  /**
   In a sorted permutation of `s`, the first element satisfying `p` has a key no larger
   than that of any element of `s` satisfying `p`.
   */
  lemma FirstMatchHasLeastKey<T>(s: seq<T>, sorted: seq<T>, key: T -> real, p: T -> bool, k: nat)
    requires multiset(sorted) == multiset(s) && SortedBy(sorted, key)
    requires k < |sorted| && p(sorted[k])
    requires forall j :: 0 <= j < k ==> !p(sorted[j])
    ensures forall i :: 0 <= i < |s| && p(s[i]) ==> key(sorted[k]) <= key(s[i])
  {
    forall i | 0 <= i < |s| && p(s[i]) ensures key(sorted[k]) <= key(s[i]) {
      assert s[i] in multiset(sorted);
      var m :| 0 <= m < |sorted| && sorted[m] == s[i];
      assert k <= m;
    }
  }

  /** Sum of `f` over the elements of `s`, front to back. */
  function SumOf<T>(s: seq<T>, f: T -> int): int {
    if |s| == 0 then 0 else f(s[0]) + SumOf(s[1..], f)
  }

  lemma SumOfSingleton<T>(x: T, f: T -> int)
    ensures SumOf([x], f) == f(x)
  {
    assert [x][1..] == [];
  }

  lemma {:induction false} SumOfAppend<T>(a: seq<T>, b: seq<T>, f: T -> int)
    ensures SumOf(a + b, f) == SumOf(a, f) + SumOf(b, f)
  {
    if |a| == 0 {
      assert a + b == b;
    } else {
      assert (a + b)[1..] == a[1..] + b;
      SumOfAppend(a[1..], b, f);
    }
  }

  /** A sum does not depend on the order of the summed elements. */
  lemma {:induction false} SumOfPermutation<T>(a: seq<T>, b: seq<T>, f: T -> int)
    requires multiset(a) == multiset(b)
    ensures SumOf(a, f) == SumOf(b, f)
    decreases |a|
  {
    if |a| == 0 {
      assert |multiset(b)| == 0;
    } else {
      var x := a[0];
      assert x in multiset(b);
      var k :| 0 <= k < |b| && b[k] == x;
      var rest := b[..k] + b[k + 1..];
      assert b == b[..k] + [x] + b[k + 1..];
      calc {
        multiset(rest) + multiset{x};
        multiset(b[..k]) + multiset(b[k + 1..]) + multiset{x};
        multiset(b);
        multiset(a);
        { assert a == [x] + a[1..]; }
        multiset(a[1..]) + multiset{x};
      }
      forall y ensures multiset(rest)[y] == multiset(a[1..])[y] {
        assert (multiset(rest) + multiset{x})[y] == (multiset(a[1..]) + multiset{x})[y];
      }
      assert multiset(rest) == multiset(a[1..]);
      SumOfPermutation(a[1..], rest, f);
      assert ([x] + b[k + 1..])[1..] == b[k + 1..];
      assert b == b[..k] + ([x] + b[k + 1..]);
      SumOfAppend(b[..k], [x] + b[k + 1..], f);
      SumOfAppend(b[..k], b[k + 1..], f);
    }
  }

  /** `s` without its first element satisfying `p`; `s` itself when there is none. */
  function RemoveFirst<T(==)>(s: seq<T>, p: T -> bool): (r: seq<T>)
    ensures multiset(r) <= multiset(s)
    ensures |r| == |s| || |r| + 1 == |s|
  {
    if |s| == 0 then []
    else if p(s[0]) then
      assert s == [s[0]] + s[1..];
      s[1..]
    else
      assert s == [s[0]] + s[1..];
      [s[0]] + RemoveFirst(s[1..], p)
  }

  lemma {:induction false} RemoveFirstWithoutMatch<T>(s: seq<T>, p: T -> bool)
    requires forall i :: 0 <= i < |s| ==> !p(s[i])
    ensures RemoveFirst(s, p) == s
  {
    if |s| > 0 {
      var tail := s[1..];
      assert forall i :: 0 <= i < |tail| ==> tail[i] == s[i + 1];
      RemoveFirstWithoutMatch(tail, p);
      assert s == [s[0]] + tail;
    }
  }

  lemma {:induction false} RemoveFirstRemovesFirstMatch<T>(s: seq<T>, p: T -> bool, k: nat)
    requires k < |s| && p(s[k])
    requires forall j :: 0 <= j < k ==> !p(s[j])
    ensures RemoveFirst(s, p) == s[..k] + s[k + 1..]
  {
    if k == 0 {
      assert s[..0] + s[1..] == s[1..];
    } else {
      var tail := s[1..];
      assert !p(s[0]);
      assert RemoveFirst(s, p) == [s[0]] + RemoveFirst(tail, p);
      forall j | 0 <= j < k - 1 ensures !p(tail[j]) {
        assert tail[j] == s[j + 1];
      }
      assert tail[k - 1] == s[k];
      RemoveFirstRemovesFirstMatch(tail, p, k - 1);
      assert s[..k] == [s[0]] + tail[..k - 1];
      assert s[k + 1..] == tail[k..];
      assert [s[0]] + (tail[..k - 1] + tail[k..]) == s[..k] + s[k + 1..];
    }
  }

  /** Index of the first element of `s` satisfying `p`. */
  function FirstIndex<T>(s: seq<T>, p: T -> bool): (k: nat)
    requires exists i :: 0 <= i < |s| && p(s[i])
    ensures k < |s| && p(s[k])
    ensures forall j :: 0 <= j < k ==> !p(s[j])
  {
    if p(s[0]) then 0
    else
      var i :| 0 <= i < |s| && p(s[i]);
      assert s[1..][i - 1] == s[i];
      1 + FirstIndex(s[1..], p)
  }

  /** Dropping the element at `k` removes exactly one occurrence of it. */
  lemma MultisetWithout<T>(s: seq<T>, k: nat)
    requires k < |s|
    ensures multiset(s[..k] + s[k + 1..]) + multiset{s[k]} == multiset(s)
  {
    assert s == s[..k] + [s[k]] + s[k + 1..];
  }

  /**
   Removing the first match from a key-sorted permutation of `s` removes exactly one
   element of `s` that satisfies `p`, one of least key among those.
   */
  lemma RemoveFirstOfSortedWithholdsLeast<T>(s: seq<T>, sorted: seq<T>, key: T -> real, p: T -> bool)
    requires multiset(sorted) == multiset(s) && SortedBy(sorted, key)
    requires exists i :: 0 <= i < |s| && p(s[i])
    ensures exists g :: (g in s && p(g) && multiset(RemoveFirst(sorted, p)) + multiset{g} == multiset(s)
      && forall h :: h in s && p(h) ==> key(g) <= key(h))
  {
    var i :| 0 <= i < |s| && p(s[i]);
    assert s[i] in multiset(sorted);
    var m :| 0 <= m < |sorted| && sorted[m] == s[i];
    var k := FirstIndex(sorted, p);
    RemoveFirstRemovesFirstMatch(sorted, p, k);
    MultisetWithout(sorted, k);
    FirstMatchHasLeastKey(s, sorted, key, p, k);
    assert sorted[k] in multiset(s);
    forall h | h in s && p(h) ensures key(sorted[k]) <= key(h) {
      var j :| 0 <= j < |s| && s[j] == h;
    }
  }
}
