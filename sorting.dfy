/** The bubble sort every ranking of the source uses, and the stable descending sort
    that specifies it. */
module Sorting {
  import opened Sequences

  /** Non-increasing by key. */
  ghost predicate SortedDesc<T>(s: seq<T>, key: T -> int)
  {
    forall i, j :: 0 <= i < j < |s| ==> key(s[i]) >= key(s[j])
  }

  /** Same elements, and elements with equal keys in the same relative order. */
  ghost predicate SameKeyClasses<T>(s: seq<T>, t: seq<T>, key: T -> int)
  {
    forall v :: WithKey(s, key, v) == WithKey(t, key, v)
  }

  /** Inserts x after every element whose key is at least its own. */
  function Insert<T>(x: T, s: seq<T>, key: T -> int): (r: seq<T>)
    ensures |r| == |s| + 1
  {
    if s == [] then [x]
    else if key(s[0]) >= key(x) then [s[0]] + Insert(x, s[1..], key)
    else [x] + s
  }

  /** Reference definition: insertion sort by non-increasing key, where elements with
      equal keys keep their input order. */
  function StableSortDesc<T>(s: seq<T>, key: T -> int): (r: seq<T>)
    ensures |r| == |s|
  {
    if s == [] then [] else Insert(s[|s| - 1], StableSortDesc(s[..|s| - 1], key), key)
  }

  lemma {:induction false} InsertMultiset<T>(x: T, s: seq<T>, key: T -> int)
    ensures multiset(Insert(x, s, key)) == multiset(s) + multiset{x}
    ensures |Insert(x, s, key)| == |s| + 1
  {
    if s != [] && key(s[0]) >= key(x) {
      InsertMultiset(x, s[1..], key);
      assert s == [s[0]] + s[1..];
    }
  }

  lemma {:induction false} InsertSorted<T>(x: T, s: seq<T>, key: T -> int)
    requires SortedDesc(s, key)
    ensures SortedDesc(Insert(x, s, key), key)
  {
    if s != [] && key(s[0]) >= key(x) {
      var r := Insert(x, s[1..], key);
      InsertSorted(x, s[1..], key);
      InsertMultiset(x, s[1..], key);
      forall y | y in r
        ensures key(s[0]) >= key(y)
      {
        assert y in multiset(r);
        assert y == x || y in multiset(s[1..]);
      }
      assert Insert(x, s, key) == [s[0]] + r;
    }
  }

  lemma {:induction false} InsertWithKey<T>(x: T, s: seq<T>, key: T -> int, v: int)
    requires SortedDesc(s, key)
    ensures WithKey(Insert(x, s, key), key, v) == WithKey(s, key, v) + WithKey([x], key, v)
  {
    if s == [] {
    } else if key(s[0]) >= key(x) {
      var r := Insert(x, s[1..], key);
      assert Insert(x, s, key) == [s[0]] + r;
      assert WithKey(r, key, v) == WithKey(s[1..], key, v) + WithKey([x], key, v) by {
        InsertWithKey(x, s[1..], key, v);
      }
      WithKeyConcat([s[0]], r, key, v);
      WithKeyConcat([s[0]], s[1..], key, v);
      assert [s[0]] + s[1..] == s;
    } else {
      assert Insert(x, s, key) == [x] + s;
      WithKeyConcat([x], s, key, v);
      if key(x) == v {
        WithKeyEmpty(s, key, v);
      }
    }
  }

  lemma {:induction false} StableSortDescProperties<T>(s: seq<T>, key: T -> int)
    ensures SortedDesc(StableSortDesc(s, key), key)
    ensures SameKeyClasses(StableSortDesc(s, key), s, key)
    ensures multiset(StableSortDesc(s, key)) == multiset(s)
    ensures |StableSortDesc(s, key)| == |s|
  {
    if s != [] {
      var s', x := s[..|s| - 1], s[|s| - 1];
      StableSortDescProperties(s', key);
      InsertSorted(x, StableSortDesc(s', key), key);
      InsertMultiset(x, StableSortDesc(s', key), key);
      assert s == s' + [x];
      forall v ensures WithKey(StableSortDesc(s, key), key, v) == WithKey(s, key, v) {
        InsertWithKey(x, StableSortDesc(s', key), key, v);
        WithKeyConcat(s', [x], key, v);
      }
    }
  }

  lemma {:induction false} InsertSum<T>(x: T, s: seq<T>, key: T -> int, f: T -> int)
    ensures SumOf(Insert(x, s, key), f) == SumOf(s, f) + f(x)
  {
    if s == [] {
      assert Insert(x, s, key) == [] + [x];
    } else if key(s[0]) >= key(x) {
      InsertSum(x, s[1..], key, f);
      SumOfConcat([s[0]], Insert(x, s[1..], key), f);
      SumOfConcat([s[0]], s[1..], f);
      assert [s[0]] + s[1..] == s;
      assert [s[0]] == [] + [s[0]];
    } else {
      SumOfConcat([x], s, f);
      assert [x] == [] + [x];
    }
  }

  /** Sorting does not change a sum over the elements. */
  lemma {:induction false} StableSortDescSum<T>(s: seq<T>, key: T -> int, f: T -> int)
    ensures SumOf(StableSortDesc(s, key), f) == SumOf(s, f)
  {
    if s != [] {
      StableSortDescSum(s[..|s| - 1], key, f);
      InsertSum(s[|s| - 1], StableSortDesc(s[..|s| - 1], key), key, f);
    }
  }

  /** A sorted sequence is determined by its per-key subsequences. */
  lemma {:induction false} SortedUnique<T>(a: seq<T>, b: seq<T>, key: T -> int)
    requires SortedDesc(a, key) && SortedDesc(b, key)
    requires SameKeyClasses(a, b, key)
    ensures a == b
    decreases |a|
  {
    SameKeyClassesEmpty(a, b, key);
    if a != [] {
      SameHead(a, b, key);
      SameTails(a, b, key);
      SortedUnique(a[1..], b[1..], key);
      assert a == [a[0]] + a[1..];
      assert b == [b[0]] + b[1..];
    }
  }

  lemma SameKeyClassesEmpty<T>(a: seq<T>, b: seq<T>, key: T -> int)
    requires SameKeyClasses(a, b, key)
    ensures a == [] <==> b == []
  {
    if a != [] {
      WithKeyMember(a, key, key(a[0]), a[0]);
      assert WithKey(a, key, key(a[0])) == WithKey(b, key, key(a[0]));
    }
    if b != [] {
      WithKeyMember(b, key, key(b[0]), b[0]);
      assert WithKey(a, key, key(b[0])) == WithKey(b, key, key(b[0]));
    }
  }

  /** The first element of a sorted sequence has the largest key. */
  lemma SortedHeadMax<T>(a: seq<T>, key: T -> int, x: T)
    requires SortedDesc(a, key) && x in a
    ensures key(x) <= key(a[0])
  {
    var i :| 0 <= i < |a| && a[i] == x;
    if i > 0 {
      assert key(a[0]) >= key(a[i]);
    }
  }

  /** Sorted sequences with the same per-key subsequences start alike. */
  lemma SameHead<T>(a: seq<T>, b: seq<T>, key: T -> int)
    requires SortedDesc(a, key) && SortedDesc(b, key) && SameKeyClasses(a, b, key)
    requires a != [] && b != []
    ensures a[0] == b[0]
  {
    var ka, kb := key(a[0]), key(b[0]);
    assert WithKey(a, key, kb) == WithKey(b, key, kb);
    assert WithKey(a, key, ka) == WithKey(b, key, ka);
    WithKeyMember(b, key, kb, b[0]);
    WithKeyMember(a, key, kb, b[0]);
    WithKeyMember(a, key, ka, a[0]);
    WithKeyMember(b, key, ka, a[0]);
    SortedHeadMax(a, key, b[0]);
    SortedHeadMax(b, key, a[0]);
    assert ka == kb;
    assert WithKey(a, key, ka) == [a[0]] + WithKey(a[1..], key, ka);
    assert WithKey(b, key, ka) == [b[0]] + WithKey(b[1..], key, ka);
    assert WithKey(a, key, ka)[0] == a[0];
    assert WithKey(b, key, ka)[0] == b[0];
  }

  /** Equal heads removed, the per-key subsequences still agree. */
  lemma SameTails<T>(a: seq<T>, b: seq<T>, key: T -> int)
    requires a != [] && b != [] && a[0] == b[0] && SameKeyClasses(a, b, key)
    ensures SameKeyClasses(a[1..], b[1..], key)
  {
    forall v ensures WithKey(a[1..], key, v) == WithKey(b[1..], key, v) {
      var p := if key(a[0]) == v then [a[0]] else [];
      assert WithKey(a, key, v) == p + WithKey(a[1..], key, v);
      assert WithKey(b, key, v) == p + WithKey(b[1..], key, v);
      assert WithKey(a[1..], key, v) == WithKey(a, key, v)[|p|..];
      assert WithKey(b[1..], key, v) == WithKey(b, key, v)[|p|..];
    }
  }

  /** Any sorted rearrangement that keeps equal keys in order is the stable sort. */
  lemma StableSortCharacterization<T>(s: seq<T>, t: seq<T>, key: T -> int)
    requires SortedDesc(t, key) && SameKeyClasses(t, s, key)
    ensures t == StableSortDesc(s, key)
  {
    StableSortDescProperties(s, key);
    SortedUnique(t, StableSortDesc(s, key), key);
  }

  lemma SameKeyClassesTrans<T>(s: seq<T>, t: seq<T>, u: seq<T>, key: T -> int)
    requires SameKeyClasses(s, t, key) && SameKeyClasses(t, u, key)
    ensures SameKeyClasses(s, u, key)
  {
  }

  /** Swapping two neighbours with different keys keeps every per-key subsequence. */
  lemma SwapKeepsKeyClasses<T>(s: seq<T>, j: nat, key: T -> int)
    requires j + 1 < |s| && key(s[j]) != key(s[j + 1])
    ensures SameKeyClasses(s[j := s[j + 1]][j + 1 := s[j]], s, key)
  {
    var t := s[j := s[j + 1]][j + 1 := s[j]];
    assert s == s[..j] + ([s[j]] + [s[j + 1]]) + s[j + 2..];
    assert t == s[..j] + ([s[j + 1]] + [s[j]]) + s[j + 2..];
    forall v ensures WithKey(t, key, v) == WithKey(s, key, v) {
      WithKeyConcat(s[..j] + ([s[j]] + [s[j + 1]]), s[j + 2..], key, v);
      WithKeyConcat(s[..j], [s[j]] + [s[j + 1]], key, v);
      WithKeyConcat([s[j]], [s[j + 1]], key, v);
      WithKeyConcat(s[..j] + ([s[j + 1]] + [s[j]]), s[j + 2..], key, v);
      WithKeyConcat(s[..j], [s[j + 1]] + [s[j]], key, v);
      WithKeyConcat([s[j + 1]], [s[j]], key, v);
    }
  }

  /** The suffix s[lo..] is non-increasing and no key in front of it is smaller. */
  ghost predicate SettledFrom<T>(s: seq<T>, lo: int, key: T -> int)
  {
    && 0 <= lo <= |s|
    && (forall p, q :: lo <= p < q < |s| ==> key(s[p]) >= key(s[q]))
    && (forall p, q :: 0 <= p < lo <= q < |s| ==> key(s[p]) >= key(s[q]))
  }

  /** s[j] has the smallest key of s[..j + 1]. */
  ghost predicate SmallestAt<T>(s: seq<T>, j: int, key: T -> int)
  {
    forall p :: 0 <= p <= j < |s| ==> key(s[p]) >= key(s[j])
  }

  /** One comparison of the inner loop: s[j] and s[j + 1] swap places when s[j] has the
      smaller key. */
  function CompareSwap<T>(s: seq<T>, j: nat, key: T -> int): (r: seq<T>)
    requires j + 1 < |s|
    ensures |r| == |s|
  {
    if key(s[j]) < key(s[j + 1]) then s[j := s[j + 1]][j + 1 := s[j]] else s
  }

  /** The sequence after the first j comparisons of a pass. */
  function PassUpTo<T>(s: seq<T>, j: nat, key: T -> int): (r: seq<T>)
    requires j < |s|
    ensures |r| == |s|
  {
    if j == 0 then s else CompareSwap(PassUpTo(s, j - 1, key), j - 1, key)
  }

  /** One comparison keeps the settled suffix and moves the smallest key seen so far one
      place on. */
  lemma CompareSwapSettles<T>(s: seq<T>, j: nat, lo: nat, key: T -> int)
    requires j + 1 < lo <= |s| && SettledFrom(s, lo, key) && SmallestAt(s, j, key)
    ensures SettledFrom(CompareSwap(s, j, key), lo, key) && SmallestAt(CompareSwap(s, j, key), j + 1, key)
  {
    var t := CompareSwap(s, j, key);
    forall p, q | 0 <= p < lo <= q < |t|
      ensures key(t[p]) >= key(t[q])
    {
      assert t[q] == s[q];
      if p == j || p == j + 1 {
        assert t[p] == s[j] || t[p] == s[j + 1];
      }
    }
  }

  /** One comparison keeps the per-key subsequences: it swaps only different keys. */
  lemma CompareSwapKeeps<T>(s: seq<T>, j: nat, key: T -> int)
    requires j + 1 < |s|
    ensures SameKeyClasses(CompareSwap(s, j, key), s, key)
  {
    if key(s[j]) < key(s[j + 1]) {
      SwapKeepsKeyClasses(s, j, key);
    }
  }

  /** After j comparisons of a pass over a sequence settled from lo > j, the suffix is
      still settled and the smallest key of the first j + 1 places sits at j. */
  lemma {:induction false} PassUpToSettles<T>(s: seq<T>, j: nat, lo: nat, key: T -> int)
    requires j < lo <= |s| && SettledFrom(s, lo, key)
    ensures SettledFrom(PassUpTo(s, j, key), lo, key) && SmallestAt(PassUpTo(s, j, key), j, key)
  {
    if j > 0 {
      var t := PassUpTo(s, j - 1, key);
      assert SettledFrom(t, lo, key) && SmallestAt(t, j - 1, key) by {
        PassUpToSettles(s, j - 1, lo, key);
      }
      CompareSwapSettles(t, j - 1, lo, key);
      assert PassUpTo(s, j, key) == CompareSwap(t, j - 1, key);
    }
  }

  /** The comparisons of a pass keep the per-key subsequences. */
  lemma {:induction false} PassUpToKeeps<T>(s: seq<T>, j: nat, key: T -> int)
    requires j < |s|
    ensures SameKeyClasses(PassUpTo(s, j, key), s, key)
  {
    if j > 0 {
      PassUpToKeeps(s, j - 1, key);
      CompareSwapKeeps(PassUpTo(s, j - 1, key), j - 1, key);
      SameKeyClassesTrans(PassUpTo(s, j, key), PassUpTo(s, j - 1, key), s, key);
    }
  }

  /** After the last comparison the settled suffix is one longer. */
  lemma PassEnd<T>(s: seq<T>, lo: nat, key: T -> int)
    requires 0 < lo <= |s| && SettledFrom(s, lo, key) && SmallestAt(s, lo - 1, key)
    ensures SettledFrom(s, lo - 1, key)
  {
  }

  /** The loop body of the inner loop. */
  method CompareAndSwap<T>(a: array<T>, j: nat, key: T -> int)
    requires j + 1 < a.Length
    modifies a
    ensures a[..] == CompareSwap(old(a[..]), j, key)
  {
    if key(a[j]) < key(a[j + 1]) {
      a[j], a[j + 1] := a[j + 1], a[j];
    }
  }

  /** One pass of the inner loop: neighbours a[j], a[j+1] for j < n-i-1 are swapped when
      key(a[j]) < key(a[j+1]), which carries a smallest key of a[..n-i] to position n-i-1. */
  method BubblePass<T>(a: array<T>, key: T -> int, i: int)
    requires 0 <= i < a.Length
    modifies a
    ensures a[..] == PassUpTo(old(a[..]), a.Length - i - 1, key)
  {
    var n := a.Length;
    var j := 0;
    while j < n - i - 1
      invariant 0 <= j <= n - i - 1
      invariant a[..] == PassUpTo(old(a[..]), j, key)
    {
      CompareAndSwap(a, j, key);
      j := j + 1;
    }
  }

  /** A whole pass over a sequence settled from |s| - i settles one more place and keeps
      the per-key subsequences. */
  lemma PassProperties<T>(s: seq<T>, i: nat, key: T -> int)
    requires i < |s| && SettledFrom(s, |s| - i, key)
    ensures SettledFrom(PassUpTo(s, |s| - i - 1, key), |s| - i - 1, key)
    ensures SameKeyClasses(PassUpTo(s, |s| - i - 1, key), s, key)
  {
    PassUpToSettles(s, |s| - i - 1, |s| - i, key);
    PassUpToKeeps(s, |s| - i - 1, key);
    PassEnd(PassUpTo(s, |s| - i - 1, key), |s| - i, key);
  }

  /** The sequence after the first i passes of the bubble sort. */
  function SortUpTo<T>(s: seq<T>, i: nat, key: T -> int): (r: seq<T>)
    requires i <= |s|
    ensures |r| == |s|
  {
    if i == 0 then s else PassUpTo(SortUpTo(s, i - 1, key), |s| - i, key)
  }

  /** After i passes the last i places are settled and the per-key subsequences are
      unchanged. */
  lemma {:induction false} SortUpToProperties<T>(s: seq<T>, i: nat, key: T -> int)
    requires i <= |s|
    ensures SettledFrom(SortUpTo(s, i, key), |s| - i, key)
    ensures SameKeyClasses(SortUpTo(s, i, key), s, key)
  {
    if i > 0 {
      SortUpToProperties(s, i - 1, key);
      PassProperties(SortUpTo(s, i - 1, key), i - 1, key);
      SameKeyClassesTrans(SortUpTo(s, i, key), SortUpTo(s, i - 1, key), s, key);
    }
  }

  /** The passes of the bubble sort, n - 1 of them for n > 0 elements, give the stable
      descending sort. */
  lemma SortUpToIsStableSort<T>(s: seq<T>, key: T -> int)
    ensures SortUpTo(s, if |s| == 0 then 0 else |s| - 1, key) == StableSortDesc(s, key)
  {
    var t := SortUpTo(s, if |s| == 0 then 0 else |s| - 1, key);
    SortUpToProperties(s, if |s| == 0 then 0 else |s| - 1, key);
    assert SortedDesc(t, key);
    StableSortCharacterization(s, t, key);
  }

  /** The source's bubble sort: passes i = 0 .. n-2, each one a BubblePass. The outer bound
      n - 1 is computed on signed integers here, so an empty array is left alone. */
  method BubbleSortDesc<T>(a: array<T>, key: T -> int)
    modifies a
    ensures a[..] == StableSortDesc(old(a[..]), key)
  {
    var n := a.Length;
    var i := 0;
    while i < n - 1
      invariant 0 <= i <= n && (n > 0 ==> i < n)
      invariant a[..] == SortUpTo(old(a[..]), i, key)
    {
      BubblePass(a, key, i);
      i := i + 1;
    }
    SortUpToIsStableSort(old(a[..]), key);
  }

  /** One more than the largest `std::size_t`, the unsigned type of `vector::size()`. */
  const SizeModulus: nat := 0x1_0000_0000_0000_0000

  /** Subtraction on `std::size_t`: it wraps around below zero. */
  function SizeSub(a: nat, b: nat): (d: nat)
    requires a < SizeModulus && b < SizeModulus
    ensures d < SizeModulus
    ensures b <= a ==> d == a - b
    ensures a < b ==> d == SizeModulus - (b - a)
  {
    if b <= a then a - b else SizeModulus - (b - a)
  }

  /** The outer test of the source's bubble sorts as written, `i < v.size() - 1`, where
      the non-negative `int i` is converted to `std::size_t`. */
  predicate OuterTestAsWritten(i: nat, size: nat)
    requires i < SizeModulus && size < SizeModulus
  {
    i < SizeSub(size, 1)
  }

  /** The inner test as written, `j < v.size() - i - 1`. */
  predicate InnerTestAsWritten(j: nat, i: nat, size: nat)
    requires j < SizeModulus && i <= size < SizeModulus
  {
    j < SizeSub(SizeSub(size, i), 1)
  }

  /** On an empty vector both tests hold for i = j = 0, so the first pass compares
      v[0] with v[1] although v has no elements: the unsigned bound wraps around. */
  lemma EmptyVectorEntersSortAsWritten()
    ensures OuterTestAsWritten(0, 0) && InnerTestAsWritten(0, 0, 0)
    ensures SizeSub(0, 1) == SizeModulus - 1
  {
  }

  /** On a non-empty vector the tests as written are the signed bounds that
      BubbleSortDesc and BubblePass use, so the two agree there. */
  lemma SortBoundsAgreeWhenNonEmpty(i: nat, j: nat, size: nat)
    requires 1 <= size < SizeModulus && i < size && j < SizeModulus
    ensures OuterTestAsWritten(i, size) <==> i < size - 1
    ensures InnerTestAsWritten(j, i, size) <==> j < size - i - 1
  {
  }
}
