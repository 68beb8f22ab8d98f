/** The aggregation engine of src/ElectionAnalyzer.cpp: each operation runs the source's
    loops (accumulators, found-flag searches with `break`, updates by index and the
    in-place bubble sort) over the store's election query, and is proved equal to the
    reference definition in module Statistics. */
module Analyzer {
  import opened Sequences
  import opened Sorting
  import opened Records
  import opened Store
  import opened Statistics

  method CalculateTotalVotes(data: ElectionData, country: string, year: int) returns (total: int)
    ensures total == TotalVotes(ElectionOf(data.records, country, year))
  {
    var records := data.GetElectionRecords(country, year);
    total := 0;
    for i := 0 to |records|
      invariant total == TotalVotes(records[..i])
    {
      assert records[..i + 1] == records[..i] + [records[i]];
      SumOfAppend(records[..i], records[i], VotesOf);
      total := total + records[i].votes;
    }
    assert records[..|records|] == records;
  }

  method CalculateTotalSeats(data: ElectionData, country: string, year: int) returns (seats: int)
    ensures seats == SeatCount(ElectionOf(data.records, country, year))
    ensures seats == |ElectedOf(ElectionOf(data.records, country, year))|
  {
    var records := data.GetElectionRecords(country, year);
    seats := 0;
    for i := 0 to |records|
      invariant seats == SeatCount(records[..i])
    {
      assert records[..i + 1] == records[..i] + [records[i]];
      SumOfAppend(records[..i], records[i], SeatOf);
      if records[i].elected {
        seats := seats + 1;
      }
    }
    assert records[..|records|] == records;
    SeatCountIsElectedCount(records);
  }

  /** The grouping loop of `calculatePartyVoteShares`, one record at a time. */
  method GroupByParty(records: seq<Record>) returns (partyList: seq<PartyStats>)
    ensures partyList == PartyGroups(records)
  {
    partyList := [];
    for i := 0 to |records|
      invariant partyList == PartyGroups(records[..i])
    {
      assert records[..i + 1] == records[..i] + [records[i]];
      partyList := GroupRecord(partyList, records[..i], records[i]);
    }
    assert records[..|records|] == records;
  }

  /** One step of the grouping loop: find the record's party in the list (or append a
      zeroed entry) and add the record to that entry. */
  method GroupRecord(partyList: seq<PartyStats>, ghost rs: seq<Record>, r: Record) returns (updated: seq<PartyStats>)
    requires partyList == PartyGroups(rs)
    ensures updated == PartyGroups(rs + [r])
  {
    PartyGroupsNames(rs);
    var partyIndex := -1;
    var j := 0;
    while j < |partyList|
      invariant 0 <= j <= |partyList|
      invariant partyIndex == -1
      invariant forall k :: 0 <= k < j ==> partyList[k].party != r.party
    {
      if partyList[j].party == r.party {
        partyIndex := j;
        break;
      }
      j := j + 1;
    }
    updated := partyList;
    if partyIndex == -1 {
      assert r.party !in Names(partyList);
      updated := updated + [PartyStats(r.party, 0, 0, 0)];
      partyIndex := |updated| - 1;
    }
    ghost var pre := updated;
    updated := updated[partyIndex := updated[partyIndex].(totalVotes := updated[partyIndex].totalVotes + r.votes)];
    updated := updated[partyIndex := updated[partyIndex].(candidatesCount := updated[partyIndex].candidatesCount + 1)];
    if r.elected {
      updated := updated[partyIndex := updated[partyIndex].(seatsWon := updated[partyIndex].seatsWon + 1)];
    }
    assert updated == pre[partyIndex := Tally(pre[partyIndex], r)];
    GroupStep(rs, r, partyIndex, pre);
  }

  /** Tallying the record into the entry the search found, or into a zeroed entry
      appended for a party not found, gives the grouping of the longer sequence. */
  lemma GroupStep(rs: seq<Record>, r: Record, k: nat, pre: seq<PartyStats>)
    requires var g := PartyGroups(rs);
      || (k < |g| && g[k].party == r.party && pre == g)
      || (k == |g| && r.party !in Names(g) && pre == g + [PartyStats(r.party, 0, 0, 0)])
    ensures k < |pre| && pre[k := Tally(pre[k], r)] == PartyGroups(rs + [r])
  {
    var g := PartyGroups(rs);
    PartyGroupsNames(rs);
    if k < |g| {
      assert Names(g)[k] == r.party;
      PartyGroupsAppendKnown(rs, r, k);
    } else {
      PartyGroupsAppendNew(rs, r);
      ghost var z := PartyStats(r.party, 0, 0, 0);
      assert pre[|g| := Tally(z, r)] == g + [Tally(z, r)];
    }
  }

  /** The party totals, sorted in place by the bubble sort on `totalVotes`. The vote
      shares are not computed. */
  method CalculatePartyVoteShares(data: ElectionData, country: string, year: int) returns (partyList: seq<PartyStats>)
    ensures partyList == RankedParties(ElectionOf(data.records, country, year))
  {
    var records := data.GetElectionRecords(country, year);
    var groups := GroupByParty(records);
    var a := new PartyStats[|groups|](k requires 0 <= k < |groups| => groups[k]);
    assert a[..] == groups;
    BubbleSortDesc(a, PartyTotalVotes);
    partyList := a[..];
  }

  /** The found-flag loop collecting each constituency name once, in order of first
      appearance. */
  method UniqueConstituencies(records: seq<Record>) returns (constituencies: seq<string>)
    ensures constituencies == Dedup(Constituencies(records))
    ensures |constituencies| == |set r | r in records :: r.constituency|
  {
    constituencies := [];
    for i := 0 to |records|
      invariant constituencies == Dedup(Constituencies(records[..i]))
    {
      var c := records[i].constituency;
      assert Constituencies(records[..i + 1]) == Constituencies(records[..i]) + [c];
      DedupAppend(Constituencies(records[..i]), c);
      var found := false;
      var j := 0;
      while j < |constituencies|
        invariant 0 <= j <= |constituencies|
        invariant !found
        invariant forall k :: 0 <= k < j ==> constituencies[k] != c
      {
        if constituencies[j] == c {
          found := true;
          break;
        }
        j := j + 1;
      }
      if !found {
        constituencies := constituencies + [c];
      }
    }
    assert records[..|records|] == records;
    assert |constituencies| == ConstituencyCount(records);
  }

  method CalculateElectionStats(data: ElectionData, country: string, year: int) returns (stats: ElectionStats)
    ensures stats == ElectionStatsOf(country, year, ElectionOf(data.records, country, year))
    ensures stats.totalCandidates == |ElectionOf(data.records, country, year)|
    ensures stats.constituencies == |set r | r in ElectionOf(data.records, country, year) :: r.constituency|
  {
    var records := data.GetElectionRecords(country, year);
    var totalVotes := CalculateTotalVotes(data, country, year);
    var totalSeats := CalculateTotalSeats(data, country, year);
    var constituencies := UniqueConstituencies(records);
    var partyStats := CalculatePartyVoteShares(data, country, year);
    stats := ElectionStats(country, year, totalVotes, totalSeats, |records|, |constituencies|, partyStats);
  }

  method GetSeatDistribution(data: ElectionData, country: string, year: int) returns (seatList: seq<SeatInfo>)
    ensures seatList == SeatDistribution(ElectionOf(data.records, country, year))
  {
    var records := data.GetElectionRecords(country, year);
    seatList := [];
    for i := 0 to |records|
      invariant seatList == SeatDistribution(records[..i])
    {
      assert records[..i + 1] == records[..i] + [records[i]];
      seatList := CountSeat(seatList, records[..i], records[i]);
    }
    assert records[..|records|] == records;
  }

  /** One step of the seat-distribution loop: an elected record adds a seat to its
      party's entry, appending the entry when the party has none yet. */
  method CountSeat(seatList: seq<SeatInfo>, ghost rs: seq<Record>, r: Record) returns (updated: seq<SeatInfo>)
    requires seatList == SeatDistribution(rs)
    ensures updated == SeatDistribution(rs + [r])
  {
    updated := seatList;
    if r.elected {
      var partyIndex := -1;
      var j := 0;
      while j < |seatList|
        invariant 0 <= j <= |seatList|
        invariant partyIndex == -1
        invariant forall k :: 0 <= k < j ==> seatList[k].party != r.party
      {
        if seatList[j].party == r.party {
          partyIndex := j;
          break;
        }
        j := j + 1;
      }
      SeatDistributionAppend(rs, r, partyIndex);
      if partyIndex == -1 {
        updated := seatList + [SeatInfo(r.party, 1)];
      } else {
        updated := seatList[partyIndex := seatList[partyIndex].(seats := seatList[partyIndex].seats + 1)];
      }
    } else {
      SeatDistributionAppend(rs, r, -1);
    }
  }

  method RankPartiesByVotes(data: ElectionData, country: string, year: int) returns (ranked: seq<PartyStats>)
    ensures ranked == RankedParties(ElectionOf(data.records, country, year))
  {
    ranked := CalculatePartyVoteShares(data, country, year);
  }

  /** The election's records sorted in place by votes, then the first n of them (none
      when n <= 0, all when n exceeds the count). */
  method GetTopCandidates(data: ElectionData, country: string, year: int, n: int) returns (topN: seq<Record>)
    ensures topN == TopCandidates(ElectionOf(data.records, country, year), n)
  {
    var records := data.GetElectionRecords(country, year);
    var a := new Record[|records|](k requires 0 <= k < |records| => records[k]);
    assert a[..] == records;
    BubbleSortDesc(a, VotesOf);
    topN := [];
    var i := 0;
    while i < n && i < a.Length
      invariant 0 <= i <= a.Length
      invariant i <= n || i == 0
      invariant topN == a[..i]
    {
      topN := topN + [a[i]];
      assert a[..i + 1] == a[..i] + [a[i]];
      i := i + 1;
    }
  }

  method GetWinningCandidates(data: ElectionData, country: string, year: int) returns (winners: seq<Record>)
    ensures winners == Winners(ElectionOf(data.records, country, year))
  {
    var records := data.GetElectionRecords(country, year);
    var elected: seq<Record> := [];
    for i := 0 to |records|
      invariant elected == ElectedOf(records[..i])
    {
      assert records[..i + 1] == records[..i] + [records[i]];
      ElectedOfAppend(records[..i], records[i]);
      if records[i].elected {
        elected := elected + [records[i]];
      }
    }
    assert records[..|records|] == records;
    var a := new Record[|elected|](k requires 0 <= k < |elected| => elected[k]);
    assert a[..] == elected;
    BubbleSortDesc(a, VotesOf);
    winners := a[..];
  }

  /** The found-flag search of a party list for one party, stopping at the first match. */
  method FindParty(ps: seq<PartyStats>, ghost rs: seq<Record>, party: string) returns (found: bool, stats: PartyStats)
    requires Describes(ps, rs)
    ensures found <==> party in DistinctParties(rs)
    ensures found ==> stats == StatsOf(party, rs)
    ensures !found ==> StatsOf(party, rs) == PartyStats(party, 0, 0, 0)
  {
    found, stats := false, PartyStats(party, 0, 0, 0);
    var j := 0;
    while j < |ps|
      invariant 0 <= j <= |ps|
      invariant !found
      invariant forall k :: 0 <= k < j ==> ps[k].party != party
    {
      if ps[j].party == party {
        stats := ps[j];
        found := true;
        assert Names(ps)[j] == party;
        break;
      }
      j := j + 1;
    }
    if !found {
      assert party !in Names(ps);
      WithPartyAbsent(rs, party);
    }
  }

  /** The per-party changes and the disappeared parties: one pass over the year-1 list,
      searching each party in the year-2 list. */
  method ChangesAndDisappeared(p1: seq<PartyStats>, p2: seq<PartyStats>, ghost e1: seq<Record>, ghost e2: seq<Record>)
    returns (changes: seq<PartyChange>, disappeared: seq<string>)
    requires Describes(p1, e1) && Describes(p2, e2)
    ensures changes == Changes(Names(p1), e1, e2)
    ensures disappeared == Absent(Names(p1), e2)
  {
    changes, disappeared := [], [];
    ghost var names := Names(p1);
    for i := 0 to |p1|
      invariant changes == Changes(names[..i], e1, e2)
      invariant disappeared == Absent(names[..i], e2)
    {
      var party := p1[i].party;
      assert names[..i + 1] == names[..i] + [party];
      var change, gone := CompareParty(p1[i], p2, e1, e2);
      ChangesAppend(names[..i], party, e1, e2);
      AbsentAppend(names[..i], party, e2);
      changes := changes + [change];
      if gone {
        disappeared := disappeared + [party];
      }
    }
    assert names[..|p1|] == names;
  }

  /** One step of the change loop: the year-1 entry of a party against its year-2 entry,
      or zero votes and seats when the party is not in the year-2 list. */
  method CompareParty(stats1: PartyStats, p2: seq<PartyStats>, ghost e1: seq<Record>, ghost e2: seq<Record>)
    returns (change: PartyChange, gone: bool)
    requires stats1 == StatsOf(stats1.party, e1) && Describes(p2, e2)
    ensures change == ChangeOf(stats1.party, e1, e2)
    ensures gone <==> stats1.party !in DistinctParties(e2)
  {
    var party := stats1.party;
    var votes1 := stats1.totalVotes;
    var seats1 := stats1.seatsWon;
    var foundInYear2, stats2 := FindParty(p2, e2, party);
    var votes2, seats2 := 0, 0;
    if foundInYear2 {
      votes2, seats2 := stats2.totalVotes, stats2.seatsWon;
    }
    change := PartyChange(party, votes2 - votes1, seats2 - seats1);
    gone := !foundInYear2;
  }

  /** The new parties: the year-2 parties, in year-2 ranked order, not found in the
      year-1 list. */
  method NewParties(p1: seq<PartyStats>, p2: seq<PartyStats>, ghost e1: seq<Record>, ghost e2: seq<Record>)
    returns (newParties: seq<string>)
    requires Describes(p1, e1)
    ensures newParties == Absent(Names(p2), e1)
  {
    newParties := [];
    ghost var names := Names(p2);
    for i := 0 to |p2|
      invariant newParties == Absent(names[..i], e1)
    {
      var party := p2[i].party;
      assert names[..i + 1] == names[..i] + [party];
      var foundInYear1, _ := FindParty(p1, e1, party);
      AbsentAppend(names[..i], party, e1);
      if !foundInYear1 {
        newParties := newParties + [party];
      }
    }
    assert names[..|p2|] == names;
  }

  /** `compareElections` without the floating-point percentage. */
  method CompareElections(data: ElectionData, country: string, year1: int, year2: int) returns (analysis: ComparativeAnalysis)
    ensures analysis == Comparison(country, year1, year2,
      ElectionOf(data.records, country, year1), ElectionOf(data.records, country, year2))
  {
    ghost var e1 := ElectionOf(data.records, country, year1);
    ghost var e2 := ElectionOf(data.records, country, year2);
    var stats1 := CalculateElectionStats(data, country, year1);
    var stats2 := CalculateElectionStats(data, country, year2);
    var voteChange := stats2.totalVotes - stats1.totalVotes;
    RankedDescribes(e1);
    RankedDescribes(e2);
    var changes, disappeared := ChangesAndDisappeared(stats1.partyStats, stats2.partyStats, e1, e2);
    var newParties := NewParties(stats1.partyStats, stats2.partyStats, e1, e2);
    analysis := ComparativeAnalysis(country, year1, year2, voteChange, changes, newParties, disappeared);
  }

  /** For each requested year in turn, the party's entry of that year's ranked list,
      when there is one. */
  method GetPartyTrend(data: ElectionData, country: string, party: string, years: seq<int>) returns (trend: seq<PartyTrend>)
    ensures trend == TrendOf(data.records, country, party, years)
  {
    trend := [];
    for i := 0 to |years|
      invariant trend == TrendOf(data.records, country, party, years[..i])
    {
      assert years[..i + 1] == years[..i] + [years[i]];
      TrendOfAppend(data.records, country, party, years[..i], years[i]);
      ghost var e := ElectionOf(data.records, country, years[i]);
      var allParties := CalculatePartyVoteShares(data, country, years[i]);
      RankedDescribes(e);
      var found, stats := FindParty(allParties, e, party);
      if found {
        trend := trend + [PartyTrend(years[i], stats)];
      }
    }
    assert years[..|years|] == years;
  }
}
