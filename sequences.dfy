/** Generic facts about sequences used throughout the model: sums, first-appearance
    de-duplication and key filters. */
module Sequences {

  /** Sum of f over the elements of s, accumulated from the left as the source's loops do. */
  function SumOf<T>(s: seq<T>, f: T -> int): int
  {
    if s == [] then 0 else SumOf(s[..|s| - 1], f) + f(s[|s| - 1])
  }

  lemma SumOfAppend<T>(s: seq<T>, x: T, f: T -> int)
    ensures SumOf(s + [x], f) == SumOf(s, f) + f(x)
  {
    assert (s + [x])[..|s|] == s;
  }

  lemma {:induction false} SumOfConcat<T>(s: seq<T>, t: seq<T>, f: T -> int)
    ensures SumOf(s + t, f) == SumOf(s, f) + SumOf(t, f)
    decreases |t|
  {
    if t == [] {
      assert s + t == s;
    } else {
      var t' := t[..|t| - 1];
      assert s + t == (s + t') + [t[|t| - 1]];
      assert t == t' + [t[|t| - 1]];
      SumOfConcat(s, t', f);
      SumOfAppend(s + t', t[|t| - 1], f);
      SumOfAppend(t', t[|t| - 1], f);
    }
  }

  /** Replacing one element changes the sum by the difference of the two values. */
  lemma {:induction false} SumOfUpdate<T>(s: seq<T>, i: nat, x: T, f: T -> int)
    requires i < |s|
    ensures SumOf(s[i := x], f) == SumOf(s, f) - f(s[i]) + f(x)
  {
    assert s == s[..i] + [s[i]] + s[i + 1..];
    assert s[i := x] == s[..i] + [x] + s[i + 1..];
    SumOfConcat(s[..i] + [s[i]], s[i + 1..], f);
    SumOfConcat(s[..i] + [x], s[i + 1..], f);
    SumOfAppend(s[..i], s[i], f);
    SumOfAppend(s[..i], x, f);
  }

  lemma {:induction false} SumOfNonNegative<T>(s: seq<T>, f: T -> int)
    requires forall i :: 0 <= i < |s| ==> f(s[i]) >= 0
    ensures SumOf(s, f) >= 0
  {
    if s != [] {
      SumOfNonNegative(s[..|s| - 1], f);
    }
  }

  /** The sum of non-negative values is at least any one of them. */
  lemma {:induction false} SumOfAtLeastElement<T>(s: seq<T>, f: T -> int, k: nat)
    requires forall i :: 0 <= i < |s| ==> f(s[i]) >= 0
    requires k < |s|
    ensures SumOf(s, f) >= f(s[k])
  {
    if k == |s| - 1 {
      SumOfNonNegative(s[..|s| - 1], f);
    } else {
      SumOfAtLeastElement(s[..|s| - 1], f, k);
    }
  }

  predicate NoDup<T(==)>(s: seq<T>)
  {
    forall i, j :: 0 <= i < j < |s| ==> s[i] != s[j]
  }

  /** The distinct elements of s in order of first appearance (a linear found-flag scan
      before each append, as the source does it). */
  function Dedup<T(==)>(s: seq<T>): (d: seq<T>)
    ensures |d| <= |s|
  {
    if s == [] then []
    else
      var d := Dedup(s[..|s| - 1]);
      if s[|s| - 1] in d then d else d + [s[|s| - 1]]
  }

  /** Dedup keeps every element of s once and adds none. */
  lemma {:induction false} DedupProperties<T>(s: seq<T>)
    ensures NoDup(Dedup(s))
    ensures forall i :: 0 <= i < |Dedup(s)| ==> Dedup(s)[i] in s
    ensures forall i :: 0 <= i < |s| ==> s[i] in Dedup(s)
  {
    if s != [] {
      var s', last := s[..|s| - 1], s[|s| - 1];
      var d := Dedup(s');
      DedupProperties(s');
      assert s == s' + [last];
      assert Dedup(s) == if last in d then d else d + [last];
      forall i | 0 <= i < |s|
        ensures s[i] in Dedup(s)
      {
        if i < |s'| {
          assert s[i] == s'[i];
        }
      }
      forall i | 0 <= i < |Dedup(s)|
        ensures Dedup(s)[i] in s
      {
        if i < |d| {
          assert d[i] in s';
        }
      }
    }
  }

  lemma DedupAppend<T>(s: seq<T>, x: T)
    ensures Dedup(s + [x]) == if x in Dedup(s) then Dedup(s) else Dedup(s) + [x]
  {
    assert (s + [x])[..|s|] == s;
  }

  /** A sequence without duplicates has as many elements as the set of its elements. */
  lemma {:induction false} NoDupCardinality<T>(s: seq<T>)
    requires NoDup(s)
    ensures |set x | x in s| == |s|
  {
    if s != [] {
      var s' := s[..|s| - 1];
      var last := s[|s| - 1];
      assert NoDup(s');
      NoDupCardinality(s');
      assert (set x | x in s) == (set x | x in s') + {last};
      assert last !in (set x | x in s');
    }
  }

  lemma DedupMember<T>(s: seq<T>, x: T)
    ensures x in Dedup(s) <==> x in s
  {
    DedupProperties(s);
    if x in s {
      var i :| 0 <= i < |s| && s[i] == x;
    }
  }

  /** The number of distinct elements of s. */
  lemma DedupCardinality<T>(s: seq<T>)
    ensures |Dedup(s)| == |set x | x in s|
  {
    DedupProperties(s);
    NoDupCardinality(Dedup(s));
    forall x ensures x in Dedup(s) <==> x in s {
      DedupMember(s, x);
    }
    assert (set x | x in Dedup(s)) == (set x | x in s);
  }

  /** The elements of s whose key is v, in order. Two sequences with the same such
      subsequence for every v are rearrangements that keep equal keys in order. */
  function WithKey<T>(s: seq<T>, key: T -> int, v: int): (r: seq<T>)
    ensures |r| <= |s|
  {
    if s == [] then [] else (if key(s[0]) == v then [s[0]] else []) + WithKey(s[1..], key, v)
  }

  lemma {:induction false} WithKeyConcat<T>(s: seq<T>, t: seq<T>, key: T -> int, v: int)
    ensures WithKey(s + t, key, v) == WithKey(s, key, v) + WithKey(t, key, v)
  {
    if s == [] {
      assert s + t == t;
    } else {
      var h := if key(s[0]) == v then [s[0]] else [];
      assert (s + t)[0] == s[0];
      assert (s + t)[1..] == s[1..] + t;
      WithKeyConcat(s[1..], t, key, v);
      assert WithKey(s + t, key, v) == h + WithKey(s[1..] + t, key, v);
      assert WithKey(s, key, v) == h + WithKey(s[1..], key, v);
    }
  }

  lemma {:induction false} WithKeyMember<T>(s: seq<T>, key: T -> int, v: int, x: T)
    ensures x in WithKey(s, key, v) <==> x in s && key(x) == v
  {
    if s != [] {
      WithKeyMember(s[1..], key, v, x);
      assert s == [s[0]] + s[1..];
    }
  }

  lemma {:induction false} WithKeyEmpty<T>(s: seq<T>, key: T -> int, v: int)
    requires forall i :: 0 <= i < |s| ==> key(s[i]) != v
    ensures WithKey(s, key, v) == []
  {
    if s != [] {
      WithKeyEmpty(s[1..], key, v);
    }
  }

  lemma {:induction false} NoDupCount<T>(s: seq<T>, x: T)
    requires NoDup(s)
    ensures multiset(s)[x] <= 1
  {
    if s != [] {
      var s', last := s[..|s| - 1], s[|s| - 1];
      assert s == s' + [last];
      assert NoDup(s');
      NoDupCount(s', x);
      if last == x {
        assert x !in s';
      }
    }
  }

  /** A rearrangement of a duplicate-free sequence is duplicate-free. */
  lemma NoDupPermutation<T>(s: seq<T>, t: seq<T>)
    requires NoDup(s) && multiset(s) == multiset(t)
    ensures NoDup(t)
  {
    forall i, j | 0 <= i < j < |t|
      ensures t[i] != t[j]
    {
      if t[i] == t[j] {
        assert t == t[..j] + t[j..];
        assert t[i] in t[..j] && t[j] in t[j..];
        assert multiset(t)[t[i]] == multiset(t[..j])[t[i]] + multiset(t[j..])[t[i]];
        NoDupCount(s, t[i]);
        assert false;
      }
    }
  }

  /** less is a strict total order on T. */
  ghost predicate StrictTotalOrder<T(!new)>(less: (T, T) -> bool)
  {
    (forall a :: !less(a, a)) &&
    (forall a, b, c :: less(a, b) && less(b, c) ==> less(a, c)) &&
    (forall a, b :: a != b ==> less(a, b) || less(b, a))
  }

  ghost predicate StrictlyAscending<T>(s: seq<T>, less: (T, T) -> bool)
  {
    forall i, j :: 0 <= i < j < |s| ==> less(s[i], s[j])
  }

  ghost predicate IsMinimum<T>(m: T, s: set<T>, less: (T, T) -> bool)
  {
    m in s && forall x :: x in s && x != m ==> less(m, x)
  }

  lemma {:induction false} MinimumExists<T(!new)>(s: set<T>, less: (T, T) -> bool)
    requires s != {} && StrictTotalOrder(less)
    ensures exists m :: IsMinimum(m, s, less)
    decreases |s|
  {
    var y :| y in s;
    var rest := s - {y};
    if rest == {} {
      forall x | x in s
        ensures x == y
      {
        assert x !in rest;
      }
      assert IsMinimum(y, s, less);
    } else {
      MinimumExists(rest, less);
      var m :| IsMinimum(m, rest, less);
      if less(m, y) {
        assert IsMinimum(m, s, less);
      } else {
        assert less(y, m);
        forall x | x in s && x != y
          ensures less(y, x)
        {
          assert x in rest;
          if x != m {
            assert less(m, x);
          }
        }
        assert IsMinimum(y, s, less);
      }
    }
  }

  /** The elements of a finite set listed in ascending order, as the ordered containers
      `std::map` and `std::set` visit them. */
  ghost function SortedElements<T(!new)>(s: set<T>, less: (T, T) -> bool): seq<T>
    requires StrictTotalOrder(less)
    decreases |s|
  {
    if s == {} then []
    else
      MinimumExists(s, less);
      var m :| IsMinimum(m, s, less);
      [m] + SortedElements(s - {m}, less)
  }

  /** SortedElements lists every element of the set once, in strictly ascending order. */
  lemma {:induction false} SortedElementsProperties<T(!new)>(s: set<T>, less: (T, T) -> bool)
    requires StrictTotalOrder(less)
    ensures (set x | x in SortedElements(s, less)) == s
    ensures |SortedElements(s, less)| == |s|
    ensures StrictlyAscending(SortedElements(s, less), less)
    decreases |s|
  {
    if s != {} {
      var r := SortedElements(s, less);
      var m := r[0];
      assert IsMinimum(m, s, less);
      var t := SortedElements(s - {m}, less);
      SortedElementsProperties(s - {m}, less);
      assert r == [m] + t;
      forall x
        ensures x in r <==> x in s
      {
        assert x in r <==> x == m || x in t;
        assert x in t <==> x in (set y | y in t);
        assert x in (set y | y in t) <==> x in s - {m};
      }
      forall i, j | 0 <= i < j < |r|
        ensures less(r[i], r[j])
      {
        if i > 0 {
          assert r[i] == t[i - 1] && r[j] == t[j - 1];
        } else {
          assert r[j] == t[j - 1];
          assert r[j] in (set y | y in t);
        }
      }
    }
  }

  lemma ElementsEmpty<T>(s: seq<T>)
    ensures (set x | x in s) == {} <==> s == []
  {
    var e := set x | x in s;
    if s != [] {
      assert s[0] in e;
      assert e != {};
    } else {
      assert forall x :: x !in e;
    }
  }

  /** A strictly ascending sequence is determined by its set of elements. */
  lemma AscendingUnique<T(!new)>(a: seq<T>, b: seq<T>, less: (T, T) -> bool)
    requires StrictTotalOrder(less)
    requires StrictlyAscending(a, less) && StrictlyAscending(b, less)
    requires (set x | x in a) == (set x | x in b)
    ensures a == b
  {
    ghost var sa, sb := set x | x in a, set x | x in b;
    forall x
      ensures x in a <==> x in b
    {
      assert x in a <==> x in sa;
      assert x in b <==> x in sb;
    }
    AscendingUniqueMembers(a, b, less);
  }

  lemma {:induction false} AscendingUniqueMembers<T(!new)>(a: seq<T>, b: seq<T>, less: (T, T) -> bool)
    requires StrictTotalOrder(less)
    requires StrictlyAscending(a, less) && StrictlyAscending(b, less)
    requires forall x :: x in a <==> x in b
    ensures a == b
  {
    if a != [] {
      assert a[0] in b;
      AscendingHeads(a, b, less);
      AscendingTails(a, b, less);
      AscendingUniqueMembers(a[1..], b[1..], less);
      assert a == [a[0]] + a[1..] && b == [b[0]] + b[1..];
    } else {
      assert (set x | x in b) == {};
      ElementsEmpty(b);
    }
  }

  /** Strictly ascending sequences with the same elements start alike. */
  lemma AscendingHeads<T(!new)>(a: seq<T>, b: seq<T>, less: (T, T) -> bool)
    requires StrictTotalOrder(less)
    requires StrictlyAscending(a, less) && StrictlyAscending(b, less)
    requires forall x :: x in a <==> x in b
    requires a != [] && b != []
    ensures a[0] == b[0]
  {
    assert a[0] in b && b[0] in a;
    AscendingFirst(b, a[0], less);
    AscendingFirst(a, b[0], less);
  }

  /** Every element of an ascending sequence other than its first is above the first. */
  lemma AscendingFirst<T>(s: seq<T>, x: T, less: (T, T) -> bool)
    requires StrictlyAscending(s, less) && x in s
    ensures x == s[0] || less(s[0], x)
  {
    var i :| 0 <= i < |s| && s[i] == x;
    if i > 0 {
      assert less(s[0], s[i]);
    }
  }

  /** Equal heads removed, the tails have the same elements. */
  lemma AscendingTails<T(!new)>(a: seq<T>, b: seq<T>, less: (T, T) -> bool)
    requires StrictTotalOrder(less)
    requires StrictlyAscending(a, less) && StrictlyAscending(b, less)
    requires forall x :: x in a <==> x in b
    requires a != [] && b != [] && a[0] == b[0]
    ensures StrictlyAscending(a[1..], less) && StrictlyAscending(b[1..], less)
    ensures forall x :: x in a[1..] <==> x in b[1..]
  {
    forall x
      ensures x in a[1..] <==> x in b[1..]
    {
      if x in a[1..] {
        var i :| 1 <= i < |a| && a[i] == x;
        assert less(a[0], x);
        assert x in b;
        var j :| 0 <= j < |b| && b[j] == x;
        assert j != 0;
      }
      if x in b[1..] {
        var j :| 1 <= j < |b| && b[j] == x;
        assert less(b[0], x);
        assert x in a;
        var i :| 0 <= i < |a| && a[i] == x;
        assert i != 0;
      }
    }
  }
}
