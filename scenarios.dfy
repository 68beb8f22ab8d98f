/** The analyzer scenarios of tests/test_main.cpp, with each record stored by AddRecord
    (the test file's `insertRecord` is not part of the shown store). */
module Scenarios {
  import opened Sequences
  import opened Records
  import opened Store
  import opened Statistics
  import opened Analyzer

  /** A store holding rs, filled one AddRecord at a time. */
  method StoreOf(rs: seq<Record>) returns (data: ElectionData)
    ensures fresh(data) && data.records == rs
  {
    data := new ElectionData();
    for i := 0 to |rs|
      invariant data.records == rs[..i]
    {
      data.AddRecord(rs[i]);
      assert rs[..i + 1] == rs[..i] + [rs[i]];
    }
    assert rs[..|rs|] == rs;
  }

  /** Records that all belong to one election are that election. */
  lemma {:induction false} ElectionOfOne(rs: seq<Record>, country: string, year: int)
    requires forall i :: 0 <= i < |rs| ==> rs[i].country == country && rs[i].year == year
    ensures ElectionOf(rs, country, year) == rs
  {
    if rs != [] {
      ElectionOfOne(rs[..|rs| - 1], country, year);
      assert rs == rs[..|rs| - 1] + [rs[|rs| - 1]];
    }
  }

  /** The three records of the statistics and vote-share scenarios. */
  function Election2020(): seq<Record>
  {
    [Record("TestCountry", 2020, "Const1", "Cand1", "Party1", 1000, true),
     Record("TestCountry", 2020, "Const2", "Cand2", "Party1", 2000, true),
     Record("TestCountry", 2020, "Const3", "Cand3", "Party2", 1500, false)]
  }

  lemma TotalsOfOne(a: Record)
    ensures TotalVotes([a]) == a.votes && SeatCount([a]) == SeatOf(a)
  {
    assert [a][..0] == [];
    assert SumOf([a], VotesOf) == SumOf([a][..0], VotesOf) + VotesOf(a);
    assert SumOf([a], SeatOf) == SumOf([a][..0], SeatOf) + SeatOf(a);
  }

  lemma TotalsOfTwo(a: Record, b: Record)
    ensures TotalVotes([a, b]) == a.votes + b.votes && SeatCount([a, b]) == SeatOf(a) + SeatOf(b)
  {
    assert [a, b][..1] == [a];
    TotalsOfOne(a);
  }

  lemma TotalsOfThree(a: Record, b: Record, c: Record)
    ensures TotalVotes([a, b, c]) == a.votes + b.votes + c.votes
    ensures SeatCount([a, b, c]) == SeatOf(a) + SeatOf(b) + SeatOf(c)
  {
    assert [a, b, c][..2] == [a, b];
    TotalsOfTwo(a, b);
  }

  /** The election-query scenario: two records of 2020 and one of 2021 give queries of
      2 and 1 records; a further record with an existing key is stored as well, and after
      Clear the query is empty. */
  method QueryScenario() returns (n2020: int, n2021: int, total: int, cleared: int)
    ensures n2020 == 2 && n2021 == 1
    ensures total == 4
    ensures cleared == 0
  {
    var a := Record("TestCountry", 2020, "Const1", "Cand1", "Party1", 1000, true);
    var b := Record("TestCountry", 2020, "Const2", "Cand2", "Party2", 2000, true);
    var c := Record("TestCountry", 2021, "Const1", "Cand3", "Party1", 1500, false);
    assert [a, b] + [c] == [a, b, c];
    TwoElections([a, b], [c], "TestCountry", 2020, 2021);
    var data := StoreOf([a, b, c]);
    var r2020 := data.GetElectionRecords("TestCountry", 2020);
    var r2021 := data.GetElectionRecords("TestCountry", 2021);
    n2020, n2021 := |r2020|, |r2021|;
    data.AddRecord(c.(votes := 9));
    total := data.GetTotalRecords();
    data.Clear();
    var none := data.GetElectionRecords("TestCountry", 2020);
    cleared := |none|;
  }

  /** The party-query scenario: Party1 holds two of the three 2020 records, Party2 one. */
  method PartyQueryScenario() returns (n1: int, n2: int)
    ensures n1 == 2 && n2 == 1
  {
    var data := StoreOf(Election2020());
    Election2020Alone();
    PartyOfIsElectionFilteredByParty(Election2020(), "TestCountry", 2020, "Party1");
    PartyOfIsElectionFilteredByParty(Election2020(), "TestCountry", 2020, "Party2");
    var e := Election2020();
    WithPartyOfThree(e[0], e[1], e[2], "Party1");
    WithPartyOfThree(e[0], e[1], e[2], "Party2");
    var p1 := data.GetPartyRecords("TestCountry", 2020, "Party1");
    var p2 := data.GetPartyRecords("TestCountry", 2020, "Party2");
    n1, n2 := |p1|, |p2|;
  }

  /** The three records form one election. */
  lemma Election2020Alone()
    ensures ElectionOf(Election2020(), "TestCountry", 2020) == Election2020()
  {
    ElectionOfOne(Election2020(), "TestCountry", 2020);
  }

  lemma WithPartyOfTwo(a: Record, b: Record, party: string)
    ensures WithParty([a, b], party) == (if a.party == party then [a] else []) + (if b.party == party then [b] else [])
  {
    assert [a, b][..1] == [a] && [a][..0] == [];
  }

  lemma WithPartyOfThree(a: Record, b: Record, c: Record, party: string)
    ensures WithParty([a, b, c], party) ==
      (if a.party == party then [a] else []) + (if b.party == party then [b] else []) +
      (if c.party == party then [c] else [])
  {
    assert [a, b, c][..2] == [a, b];
    WithPartyOfTwo(a, b, party);
  }

  /** A party with a single record r has r's votes and seat and one candidate. */
  lemma StatsOfSingle(rs: seq<Record>, r: Record, party: string)
    requires WithParty(rs, party) == [r]
    ensures StatsOf(party, rs) == PartyStats(party, r.votes, SeatOf(r), 1)
  {
    TotalsOfOne(r);
  }

  /** A store holding election e1 of year1 followed by election e2 of year2 yields each. */
  lemma TwoElections(e1: seq<Record>, e2: seq<Record>, country: string, year1: int, year2: int)
    requires year1 != year2
    requires forall i :: 0 <= i < |e1| ==> e1[i].country == country && e1[i].year == year1
    requires forall i :: 0 <= i < |e2| ==> e2[i].country == country && e2[i].year == year2
    ensures ElectionOf(e1 + e2, country, year1) == e1
    ensures ElectionOf(e1 + e2, country, year2) == e2
  {
    ElectionOfConcat(e1, e2, country, year1);
    ElectionOfConcat(e1, e2, country, year2);
    ElectionOfOne(e1, country, year1);
    ElectionOfOne(e2, country, year2);
    ElectionOfOtherYear(e1, country, year2);
    ElectionOfOtherYear(e2, country, year1);
    assert e1 + [] == e1 && [] + e2 == e2;
  }

  /** The three records hold 4500 votes and 2 seats. */
  lemma TotalsValues()
    ensures TotalVotes(Election2020()) == 4500 && SeatCount(Election2020()) == 2
  {
    var rs := Election2020();
    TotalsOfThree(rs[0], rs[1], rs[2]);
  }

  /** The three records lie in 3 constituencies. */
  lemma ConstituencyValues()
    ensures |set r | r in Election2020() :: r.constituency| == 3
  {
    var rs := Election2020();
    assert forall r :: r in rs <==> r == rs[0] || r == rs[1] || r == rs[2];
    assert (set r | r in rs :: r.constituency) == {"Const1", "Const2", "Const3"};
  }

  /** The statistics of the three records: 4500 votes, 2 seats, 3 candidates in 3 constituencies. */
  lemma StatisticsValues()
    ensures var st := ElectionStatsOf("TestCountry", 2020, Election2020());
      st.totalVotes == 4500 && st.totalSeats == 2 && st.totalCandidates == 3 && st.constituencies == 3
  {
    TotalsValues();
    ConstituencyValues();
  }

  /** The statistics scenario run through the store and the analyzer. */
  method StatisticsScenario() returns (totalVotes: int, totalSeats: int, stats: ElectionStats)
    ensures totalVotes == 4500 && totalSeats == 2
    ensures stats.totalVotes == 4500 && stats.totalSeats == 2
    ensures stats.totalCandidates == 3 && stats.constituencies == 3
  {
    var data := StoreOf(Election2020());
    Election2020Alone();
    StatisticsValues();
    totalVotes := CalculateTotalVotes(data, "TestCountry", 2020);
    totalSeats := CalculateTotalSeats(data, "TestCountry", 2020);
    stats := CalculateElectionStats(data, "TestCountry", 2020);
  }

  /** The parties of the three records, in order of first appearance. */
  lemma PartiesValues()
    ensures DistinctParties(Election2020()) == ["Party1", "Party2"]
  {
    assert PartyNames(Election2020()) == ["Party1", "Party1", "Party2"];
    DedupValues();
  }

  lemma DedupValues()
    ensures Dedup(["Party1", "Party1", "Party2"]) == ["Party1", "Party2"]
  {
    DedupAppend([], "Party1");
    DedupAppend(["Party1"], "Party1");
    DedupAppend(["Party1", "Party1"], "Party2");
    assert [] + ["Party1"] == ["Party1"];
    assert ["Party1"] + ["Party1"] == ["Party1", "Party1"];
    assert ["Party1", "Party1"] + ["Party2"] == ["Party1", "Party1", "Party2"];
  }

  /** Party1 holds 3000 votes and both seats in two candidacies; Party2 1500 votes in one. */
  lemma PartyStatsValues()
    ensures StatsOf("Party1", Election2020()) == PartyStats("Party1", 3000, 2, 2)
    ensures StatsOf("Party2", Election2020()) == PartyStats("Party2", 1500, 0, 1)
  {
    var rs := Election2020();
    WithPartyOfThree(rs[0], rs[1], rs[2], "Party1");
    WithPartyOfThree(rs[0], rs[1], rs[2], "Party2");
    assert rs == [rs[0], rs[1], rs[2]];
    TotalsOfTwo(rs[0], rs[1]);
    TotalsOfOne(rs[2]);
  }


  /** With two parties, the one with more votes is ranked first. */
  lemma RankedOfTwo(rs: seq<Record>, p: string, q: string)
    requires DistinctParties(rs) == [p, q] || DistinctParties(rs) == [q, p]
    requires StatsOf(p, rs).totalVotes > StatsOf(q, rs).totalVotes
    ensures RankedParties(rs) == [StatsOf(p, rs), StatsOf(q, rs)]
  {
    var ps := RankedParties(rs);
    RankedDescribes(rs);
    RankedPartiesOrder(rs);
    TwoRanked(ps, p, q, rs);
  }

  lemma TwoRanked(ps: seq<PartyStats>, p: string, q: string, rs: seq<Record>)
    requires |ps| == 2 && ps[0].totalVotes >= ps[1].totalVotes
    requires ps[0] == StatsOf(ps[0].party, rs) && ps[1] == StatsOf(ps[1].party, rs)
    requires forall x :: x in Names(ps) <==> x == p || x == q
    requires StatsOf(p, rs).totalVotes > StatsOf(q, rs).totalVotes
    ensures ps == [StatsOf(p, rs), StatsOf(q, rs)]
  {
    assert p in Names(ps) && q in Names(ps);
  }

  /** The vote-share list: Party1 with 3000 votes and 2 seats first, then Party2. */
  lemma SharesValues()
    ensures RankedParties(Election2020()) ==
      [PartyStats("Party1", 3000, 2, 2), PartyStats("Party2", 1500, 0, 1)]
  {
    PartiesValues();
    PartyStatsValues();
    RankedOfTwo(Election2020(), "Party1", "Party2");
  }

  /** The vote-share scenario run through the store and the analyzer. */
  method SharesScenario() returns (partyStats: seq<PartyStats>)
    ensures |partyStats| == 2
    ensures partyStats[0].totalVotes >= partyStats[1].totalVotes
    ensures partyStats[0] == PartyStats("Party1", 3000, 2, 2)
    ensures partyStats[1] == PartyStats("Party2", 1500, 0, 1)
  {
    var data := StoreOf(Election2020());
    Election2020Alone();
    SharesValues();
    partyStats := CalculatePartyVoteShares(data, "TestCountry", 2020);
  }

  /** Elections are collected piecewise over a concatenation of stores. */
  lemma {:induction false} ElectionOfConcat(a: seq<Record>, b: seq<Record>, country: string, year: int)
    ensures ElectionOf(a + b, country, year) == ElectionOf(a, country, year) + ElectionOf(b, country, year)
  {
    if b != [] {
      var b', last := b[..|b| - 1], b[|b| - 1];
      ElectionOfConcat(a, b', country, year);
      assert a + b == (a + b') + [last];
      assert b == b' + [last];
      ElectionOfAppend(a + b', last, country, year);
      ElectionOfAppend(b', last, country, year);
    } else {
      assert a + b == a;
    }
  }

  /** Records of other years hold no election of this year. */
  lemma {:induction false} ElectionOfOtherYear(rs: seq<Record>, country: string, year: int)
    requires forall i :: 0 <= i < |rs| ==> rs[i].year != year
    ensures ElectionOf(rs, country, year) == []
  {
    if rs != [] {
      ElectionOfOtherYear(rs[..|rs| - 1], country, year);
    }
  }

  /** A list without repeats whose only member is x is [x]. */
  lemma OnlyMember(a: seq<string>, x: string)
    requires NoDup(a) && forall p :: p in a <==> p == x
    ensures a == [x]
  {
    assert (set y | y in a) == {x};
    NoDupCardinality(a);
    assert a[0] in a;
  }

  /** The two elections of the comparison scenario. */
  function Comparison2020(): seq<Record>
  {
    [Record("TestCountry", 2020, "Const1", "Cand1", "Party1", 1000, true),
     Record("TestCountry", 2020, "Const2", "Cand2", "Party2", 2000, true)]
  }

  function Comparison2021(): seq<Record>
  {
    [Record("TestCountry", 2021, "Const1", "Cand3", "Party1", 1500, true),
     Record("TestCountry", 2021, "Const2", "Cand4", "Party2", 2500, true),
     Record("TestCountry", 2021, "Const3", "Cand5", "Party3", 1000, false)]
  }

  /** The store holding both elections yields each of them. */
  lemma ComparisonElections()
    ensures ElectionOf(Comparison2020() + Comparison2021(), "TestCountry", 2020) == Comparison2020()
    ensures ElectionOf(Comparison2020() + Comparison2021(), "TestCountry", 2021) == Comparison2021()
  {
    TwoElections(Comparison2020(), Comparison2021(), "TestCountry", 2020, 2021);
  }


  /** Party1 and Party2 stand in 2020, in that order. */
  lemma Comparison2020Parties()
    ensures DistinctParties(Comparison2020()) == ["Party1", "Party2"]
  {
    assert PartyNames(Comparison2020()) == ["Party1", "Party2"];
    DedupAppend([], "Party1");
    DedupAppend(["Party1"], "Party2");
    assert [] + ["Party1"] == ["Party1"];
    assert ["Party1"] + ["Party2"] == ["Party1", "Party2"];
  }

  /** Party1, Party2 and Party3 stand in 2021. */
  lemma Comparison2021Parties()
    ensures forall p :: p in DistinctParties(Comparison2021()) <==> p == "Party1" || p == "Party2" || p == "Party3"
  {
    var e2 := Comparison2021();
    DistinctPartiesMembers(e2);
    assert e2[0] in e2 && e2[1] in e2 && e2[2] in e2;
  }

  /** The 2020 party totals: Party1 1000 votes, Party2 2000, one seat each. */
  lemma Comparison2020Stats()
    ensures StatsOf("Party1", Comparison2020()) == PartyStats("Party1", 1000, 1, 1)
    ensures StatsOf("Party2", Comparison2020()) == PartyStats("Party2", 2000, 1, 1)
  {
    var rs := Comparison2020();
    WithPartyOfTwo(rs[0], rs[1], "Party1");
    WithPartyOfTwo(rs[0], rs[1], "Party2");
    assert rs == [rs[0], rs[1]];
    StatsOfSingle(rs, rs[0], "Party1");
    StatsOfSingle(rs, rs[1], "Party2");
  }


  /** Both parties of 2020 gain 500 votes and keep their seat. */
  lemma ComparisonChangeValues()
    ensures ChangeOf("Party1", Comparison2020(), Comparison2021()) == PartyChange("Party1", 500, 0)
    ensures ChangeOf("Party2", Comparison2020(), Comparison2021()) == PartyChange("Party2", 500, 0)
  {
    Comparison2020Stats();
    var rs := Comparison2021();
    WithPartyOfThree(rs[0], rs[1], rs[2], "Party1");
    WithPartyOfThree(rs[0], rs[1], rs[2], "Party2");
    assert rs == [rs[0], rs[1], rs[2]];
    StatsOfSingle(rs, rs[0], "Party1");
    StatsOfSingle(rs, rs[1], "Party2");
  }


  /** 2020 ranks Party2 (2000 votes) before Party1 (1000 votes). */
  lemma Comparison2020Ranked()
    ensures Names(RankedParties(Comparison2020())) == ["Party2", "Party1"]
  {
    Comparison2020Parties();
    Comparison2020Stats();
    RankedOfTwo(Comparison2020(), "Party2", "Party1");
  }

  /** Both 2020 parties, Party2 first, gain 500 votes and keep their seat. */
  lemma ComparisonChangesValues()
    ensures Comparison("TestCountry", 2020, 2021, Comparison2020(), Comparison2021()).partyChanges ==
      [PartyChange("Party2", 500, 0), PartyChange("Party1", 500, 0)]
  {
    Comparison2020Ranked();
    ComparisonChangeValues();
    ChangesOfTwo("TestCountry", 2020, 2021, Comparison2020(), Comparison2021(), "Party2", "Party1");
  }

  /** With year-1 parties ranked x, y, the party changes are those of x and y. */
  lemma ChangesOfTwo(country: string, year1: int, year2: int, e1: seq<Record>, e2: seq<Record>, x: string, y: string)
    requires Names(RankedParties(e1)) == [x, y]
    ensures Comparison(country, year1, year2, e1, e2).partyChanges == [ChangeOf(x, e1, e2), ChangeOf(y, e1, e2)]
  {
  }


  /** A comparison where x is the only party new in e2 and none of e1 is missing from e2. */
  lemma OnlyNewParty(country: string, year1: int, year2: int, e1: seq<Record>, e2: seq<Record>, x: string)
    requires forall p :: p in DistinctParties(e2) && p !in DistinctParties(e1) <==> p == x
    requires forall p :: p in DistinctParties(e1) ==> p in DistinctParties(e2)
    ensures Comparison(country, year1, year2, e1, e2).newParties == [x]
    ensures Comparison(country, year1, year2, e1, e2).disappearedParties == []
  {
    var a := Comparison(country, year1, year2, e1, e2);
    ComparisonNewAndDisappeared(country, year1, year2, e1, e2);
    OnlyMember(a.newParties, x);
    assert (set y | y in a.disappearedParties) == {};
    ElementsEmpty(a.disappearedParties);
  }

  /** Party3 is the one new party, and no 2020 party is gone. */
  lemma ComparisonNewValues()
    ensures Comparison("TestCountry", 2020, 2021, Comparison2020(), Comparison2021()).newParties == ["Party3"]
    ensures Comparison("TestCountry", 2020, 2021, Comparison2020(), Comparison2021()).disappearedParties == []
  {
    var e1, e2 := Comparison2020(), Comparison2021();
    Comparison2020Parties();
    Comparison2021Parties();
    OnlyNewParty("TestCountry", 2020, 2021, e1, e2, "Party3");
  }

  /** The comparison of the two elections: 2000 more votes, 500 more for each 2020
      party, Party3 new and no party gone. */
  lemma ComparisonValues()
    ensures Comparison("TestCountry", 2020, 2021, Comparison2020(), Comparison2021()) ==
      ComparativeAnalysis("TestCountry", 2020, 2021, 2000,
        [PartyChange("Party2", 500, 0), PartyChange("Party1", 500, 0)], ["Party3"], [])
  {
    var e1, e2 := Comparison2020(), Comparison2021();
    TotalsOfTwo(e1[0], e1[1]);
    TotalsOfThree(e2[0], e2[1], e2[2]);
    ComparisonChangesValues();
    ComparisonNewValues();
  }

  /** The comparison scenario run through the store and the analyzer. */
  method ComparisonScenario() returns (analysis: ComparativeAnalysis)
    ensures analysis.voteChange == 2000
    ensures analysis.partyChanges == [PartyChange("Party2", 500, 0), PartyChange("Party1", 500, 0)]
    ensures analysis.newParties == ["Party3"] && analysis.disappearedParties == []
  {
    var data := StoreOf(Comparison2020() + Comparison2021());
    ComparisonElections();
    ComparisonValues();
    analysis := CompareElections(data, "TestCountry", 2020, 2021);
  }
}
