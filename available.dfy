/** `getAvailableElections` of src/main.cpp: for each country its distinct years, in
    order of first appearance, then each list bubble-sorted ascending. */
module Available {
  import opened Sequences
  import opened Sorting
  import opened Records
  import opened Store
  import opened Http

  /** The years of the records of country c, in record order, repeats included. */
  function YearsOf(rs: seq<Record>, c: string): (ys: seq<int>)
    ensures |ys| <= |rs|
  {
    if rs == [] then []
    else YearsOf(rs[..|rs| - 1], c) + (if rs[|rs| - 1].country == c then [rs[|rs| - 1].year] else [])
  }

  /** The year lists before sorting: a record of a new country opens an empty list, and a
      year not yet in its country's list is appended. */
  function YearLists(rs: seq<Record>): map<string, seq<int>>
  {
    if rs == [] then map[]
    else
      var m := YearLists(rs[..|rs| - 1]);
      var r := rs[|rs| - 1];
      var years := if r.country in m then m[r.country] else [];
      m[r.country := if r.year in years then years else years + [r.year]]
  }

  /** The sort key that makes the descending bubble sort swap on `years[j] > years[j + 1]`. */
  function Neg(y: int): int
  {
    -y
  }

  /** Reference definition of `getAvailableElections`. */
  function AvailableElections(rs: seq<Record>): map<string, seq<int>>
  {
    var m := YearLists(rs);
    map c | c in m :: StableSortDesc(m[c], Neg)
  }

  /** The found-flag search of the year list. */
  method ContainsYear(years: seq<int>, year: int) returns (found: bool)
    ensures found <==> year in years
  {
    found := false;
    var j := 0;
    while j < |years|
      invariant 0 <= j <= |years|
      invariant !found && year !in years[..j]
    {
      if years[j] == year {
        found := true;
        return;
      }
      assert years[..j + 1] == years[..j] + [years[j]];
      j := j + 1;
    }
    assert years[..j] == years;
  }

  /** The in-place ascending bubble sort of one year list. */
  method SortYears(years: seq<int>) returns (sorted: seq<int>)
    ensures sorted == StableSortDesc(years, Neg)
  {
    var a := new int[|years|](k requires 0 <= k < |years| => years[k]);
    assert a[..] == years;
    BubbleSortDesc(a, Neg);
    sorted := a[..];
  }

  /** `getAvailableElections`: the collecting loop, then the sort of every list. */
  method GetAvailableElections(data: ElectionData) returns (result: map<string, seq<int>>)
    ensures result == AvailableElections(data.records)
  {
    var records := data.GetAllRecords();
    var lists: map<string, seq<int>> := map[];
    for i := 0 to |records|
      invariant lists == YearLists(records[..i])
    {
      YearListsStep(records, i);
      var country := records[i].country;
      var year := records[i].year;
      if country !in lists {
        lists := lists[country := []];
      }
      var found := ContainsYear(lists[country], year);
      if !found {
        lists := lists[country := lists[country] + [year]];
      }
    }
    assert records[..|records|] == records;
    result := SortLists(lists);
  }

  /** The sorting loop of `getAvailableElections`: every list sorted ascending. */
  method SortLists(lists: map<string, seq<int>>) returns (result: map<string, seq<int>>)
    ensures result == map c | c in lists :: StableSortDesc(lists[c], Neg)
  {
    result := map[];
    var pending := lists.Keys;
    while pending != {}
      invariant pending <= lists.Keys
      invariant result.Keys == lists.Keys - pending
      invariant forall c :: c in result ==> result[c] == StableSortDesc(lists[c], Neg)
      decreases |pending|
    {
      var c :| c in pending;
      var sorted := SortYears(lists[c]);
      result := result[c := sorted];
      pending := pending - {c};
    }
  }

  lemma YearListsStep(rs: seq<Record>, i: nat)
    requires i < |rs|
    ensures var m := YearLists(rs[..i]);
      var years := if rs[i].country in m then m[rs[i].country] else [];
      YearLists(rs[..i + 1]) == m[rs[i].country := if rs[i].year in years then years else years + [rs[i].year]]
  {
    assert rs[..i + 1][..i] == rs[..i];
  }

  /** The keys before sorting are the countries of the records. */
  lemma {:induction false} YearListsKeys(rs: seq<Record>)
    ensures YearLists(rs).Keys == set r | r in rs :: r.country
  {
    if rs != [] {
      var init, last := rs[..|rs| - 1], rs[|rs| - 1];
      YearListsKeys(init);
      assert rs == init + [last];
      assert (set r | r in rs :: r.country) == (set r | r in init :: r.country) + {last.country};
    }
  }

  /** A country without a list has no years. */
  lemma {:induction false} YearListsAbsent(rs: seq<Record>, c: string)
    requires c !in YearLists(rs)
    ensures YearsOf(rs, c) == []
  {
    if rs != [] {
      YearListsAbsent(rs[..|rs| - 1], c);
    }
  }

  /** Before sorting, each list holds its country's distinct years in order of first
      appearance. */
  lemma {:induction false} YearListsEntry(rs: seq<Record>, c: string)
    requires c in YearLists(rs)
    ensures YearLists(rs)[c] == Dedup(YearsOf(rs, c))
  {
    var init, last := rs[..|rs| - 1], rs[|rs| - 1];
    var m' := YearLists(init);
    if c == last.country {
      var years := if c in m' then m'[c] else [];
      assert years == Dedup(YearsOf(init, c)) by {
        if c in m' {
          YearListsEntry(init, c);
        } else {
          YearListsAbsent(init, c);
        }
      }
      assert YearLists(rs)[c] == if last.year in years then years else years + [last.year];
      assert YearsOf(rs, c) == YearsOf(init, c) + [last.year];
      DedupAppend(YearsOf(init, c), last.year);
    } else {
      YearListsEntry(init, c);
      assert YearLists(rs)[c] == m'[c];
      assert YearsOf(rs, c) == YearsOf(init, c) + [];
      assert YearsOf(init, c) + [] == YearsOf(init, c);
    }
  }

  /** Before sorting, the keys are the countries of the records and each list holds
      that country's distinct years in order of first appearance. */
  lemma YearListsProperties(rs: seq<Record>)
    ensures YearLists(rs).Keys == set r | r in rs :: r.country
    ensures forall c :: c in YearLists(rs) ==> YearLists(rs)[c] == Dedup(YearsOf(rs, c))
  {
    YearListsKeys(rs);
    forall c | c in YearLists(rs)
      ensures YearLists(rs)[c] == Dedup(YearsOf(rs, c))
    {
      YearListsEntry(rs, c);
    }
  }

  /** The years of country c are exactly the years of its records. */
  lemma {:induction false} YearsOfMembers(rs: seq<Record>, c: string)
    ensures forall y :: y in YearsOf(rs, c) <==> exists r :: r in rs && r.country == c && r.year == y
  {
    if rs != [] {
      var init, last := rs[..|rs| - 1], rs[|rs| - 1];
      YearsOfMembers(init, c);
      assert rs == init + [last];
    }
  }

  /** Sorting a duplicate-free year list keeps its years, once each, and puts them in
      strictly ascending order. */
  lemma SortYearsProperties(pre: seq<int>)
    requires NoDup(pre)
    ensures var ys := StableSortDesc(pre, Neg);
      && multiset(ys) == multiset(pre)
      && NoDup(ys)
      && (forall y :: y in ys <==> y in pre)
      && StrictlyAscending(ys, IntLess)
  {
    var ys := StableSortDesc(pre, Neg);
    StableSortDescProperties(pre, Neg);
    NoDupPermutation(pre, ys);
    forall y
      ensures y in ys <==> y in pre
    {
      assert y in ys <==> y in multiset(ys);
      assert y in pre <==> y in multiset(pre);
    }
    forall i, j | 0 <= i < j < |ys|
      ensures ys[i] < ys[j]
    {
      assert Neg(ys[i]) >= Neg(ys[j]);
      assert ys[i] != ys[j];
    }
  }

  /** Every country of the records is a key and no other key is present; each list is
      non-empty, holds each distinct year of that country once, and is strictly ascending;
      and it is a rearrangement of the list collected before sorting. */
  lemma AvailableProperties(rs: seq<Record>, c: string)
    ensures c in AvailableElections(rs) <==> exists r :: r in rs && r.country == c
    ensures c in AvailableElections(rs) ==>
      var ys := AvailableElections(rs)[c];
      && |ys| >= 1
      && NoDup(ys)
      && (forall y :: y in ys <==> exists r :: r in rs && r.country == c && r.year == y)
      && StrictlyAscending(ys, IntLess)
      && multiset(ys) == multiset(YearLists(rs)[c])
  {
    YearListsKeys(rs);
    var m := YearLists(rs);
    assert c in m <==> c in (set r | r in rs :: r.country);
    if c in m {
      var pre := m[c];
      YearListsEntry(rs, c);
      DedupProperties(YearsOf(rs, c));
      SortYearsProperties(pre);
      YearsOfMembers(rs, c);
      forall y
        ensures y in pre <==> exists r :: r in rs && r.country == c && r.year == y
      {
        DedupMember(YearsOf(rs, c), y);
      }
      var r :| r in rs && r.country == c;
      assert r.year in pre;
    }
  }

  /** The first year gives the loop bound `years.size() - 1` a value: no list is empty,
      so the wrap-around of an empty vector's size cannot happen here. */
  lemma AvailableBoundsSafe(rs: seq<Record>, c: string, i: nat, j: nat)
    requires c in AvailableElections(rs)
    requires |AvailableElections(rs)[c]| < SizeModulus && i < |AvailableElections(rs)[c]| && j < SizeModulus
    ensures OuterTestAsWritten(i, |AvailableElections(rs)[c]|) <==> i < |AvailableElections(rs)[c]| - 1
  {
    AvailableProperties(rs, c);
    SortBoundsAgreeWhenNonEmpty(i, j, |AvailableElections(rs)[c]|);
  }

  /** `getAvailableElections` and the `/api/countries` listing agree: each country's
      sorted year list is the ascending listing of its year set. */
  lemma AvailableMatchesCountryYears(rs: seq<Record>, c: string)
    ensures StrictTotalOrder(IntLess)
    ensures c in AvailableElections(rs) <==> c in CountryYearsOf(rs)
    ensures c in AvailableElections(rs) ==>
      AvailableElections(rs)[c] == SortedElements(CountryYearsOf(rs)[c], IntLess)
  {
    IntLessOrder();
    AvailableProperties(rs, c);
    CountryYearsProperties(rs);
    assert c in CountryYearsOf(rs) <==> c in (set r | r in rs :: r.country);
    if c in AvailableElections(rs) {
      var ys := AvailableElections(rs)[c];
      var years := CountryYearsOf(rs)[c];
      assert years == set r | r in rs && r.country == c :: r.year;
      var zs := SortedElements(years, IntLess);
      SortedElementsProperties(years, IntLess);
      forall y
        ensures y in ys <==> y in years
      {
        if y in ys {
          var r :| r in rs && r.country == c && r.year == y;
          assert y in years;
        }
        if y in years {
          var r :| r in rs && r.country == c && r.year == y;
          assert y in ys;
        }
      }
      assert (set x | x in ys) == years;
      AscendingUnique(ys, zs, IntLess);
    }
  }
}
