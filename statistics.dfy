/** Result types of include/ElectionAnalyzer.h and reference definitions of what each
    analyzer operation of src/ElectionAnalyzer.cpp computes, with their properties. */
module Statistics {
  import opened Sequences
  import opened Sorting
  import opened Records

  /** `PartyStats` without the floating-point `voteShare`. */
  datatype PartyStats = PartyStats(party: string, totalVotes: int, seatsWon: int, candidatesCount: int)

  /** `ElectionStats` without the floating-point `turnout`. */
  datatype ElectionStats = ElectionStats(
    country: string,
    year: int,
    totalVotes: int,
    totalSeats: int,
    totalCandidates: int,
    constituencies: int,
    partyStats: seq<PartyStats>)

  datatype SeatInfo = SeatInfo(party: string, seats: int)

  datatype PartyChange = PartyChange(party: string, voteChange: int, seatChange: int)

  /** `ComparativeAnalysis` without the floating-point `voteChangePercent`. */
  datatype ComparativeAnalysis = ComparativeAnalysis(
    country: string,
    year1: int,
    year2: int,
    voteChange: int,
    partyChanges: seq<PartyChange>,
    newParties: seq<string>,
    disappearedParties: seq<string>)

  datatype PartyTrend = PartyTrend(year: int, stats: PartyStats)

  function PartyTotalVotes(ps: PartyStats): int { ps.totalVotes }
  function PartySeats(ps: PartyStats): int { ps.seatsWon }
  function PartyCandidates(ps: PartyStats): int { ps.candidatesCount }

  function Names(ps: seq<PartyStats>): (names: seq<string>)
    ensures |names| == |ps| && forall i :: 0 <= i < |ps| ==> names[i] == ps[i].party
  {
    seq(|ps|, i requires 0 <= i < |ps| => ps[i].party)
  }

  /** The totals of one party over rs. */
  function StatsOf(party: string, rs: seq<Record>): PartyStats
  {
    var mine := WithParty(rs, party);
    PartyStats(party, TotalVotes(mine), SeatCount(mine), |mine|)
  }

  /** Reference grouping: one entry per distinct party, in order of first appearance. */
  function PartyGroups(rs: seq<Record>): (g: seq<PartyStats>)
    ensures |g| == |DistinctParties(rs)|
    ensures forall i :: 0 <= i < |g| ==> g[i] == StatsOf(DistinctParties(rs)[i], rs)
  {
    var ps := DistinctParties(rs);
    seq(|ps|, i requires 0 <= i < |ps| => StatsOf(ps[i], rs))
  }

  /** The party list of `calculatePartyVoteShares`: the grouping sorted by total votes,
      non-increasing, parties with equal totals in order of first appearance. */
  function RankedParties(rs: seq<Record>): (r: seq<PartyStats>)
    ensures |r| == |DistinctParties(rs)|
  {
    StableSortDesc(PartyGroups(rs), PartyTotalVotes)
  }

  /** One record added to a party's running totals, as the source's loop body does. */
  function Tally(ps: PartyStats, r: Record): PartyStats
  {
    ps.(totalVotes := ps.totalVotes + r.votes,
        candidatesCount := ps.candidatesCount + 1,
        seatsWon := ps.seatsWon + (if r.elected then 1 else 0))
  }

  lemma StatsOfAppend(party: string, rs: seq<Record>, r: Record)
    ensures StatsOf(party, rs + [r]) == if r.party == party then Tally(StatsOf(party, rs), r) else StatsOf(party, rs)
  {
    var mine, mine' := WithParty(rs, party), WithParty(rs + [r], party);
    assert mine' == mine + (if r.party == party then [r] else []) by {
      WithPartyAppend(rs, r, party);
    }
    if r.party == party {
      assert TotalVotes(mine') == TotalVotes(mine) + r.votes by {
        SumOfAppend(mine, r, VotesOf);
      }
      assert SeatCount(mine') == SeatCount(mine) + SeatOf(r) by {
        SumOfAppend(mine, r, SeatOf);
      }
    } else {
      assert mine' == mine;
    }
  }

  /** A record of a party already in the list updates that party's entry only. */
  lemma PartyGroupsAppendKnown(rs: seq<Record>, r: Record, k: nat)
    requires k < |DistinctParties(rs)| && DistinctParties(rs)[k] == r.party
    ensures PartyGroups(rs + [r]) == PartyGroups(rs)[k := Tally(PartyGroups(rs)[k], r)]
  {
    var ps := DistinctParties(rs);
    DistinctPartiesAppend(rs, r);
    DistinctPartiesNoDup(rs);
    assert DistinctParties(rs + [r]) == ps;
    var g, g' := PartyGroups(rs), PartyGroups(rs + [r]);
    var h := g[k := Tally(g[k], r)];
    assert |g'| == |h|;
    forall i | 0 <= i < |g'|
      ensures g'[i] == h[i]
    {
      assert g'[i] == StatsOf(ps[i], rs + [r]);
      assert g[i] == StatsOf(ps[i], rs);
      StatsOfAppend(ps[i], rs, r);
      if i != k {
        assert ps[i] != ps[k];
      }
    }
  }

  /** A record of a new party appends an entry holding that record alone. */
  lemma PartyGroupsAppendNew(rs: seq<Record>, r: Record)
    requires r.party !in DistinctParties(rs)
    ensures PartyGroups(rs + [r]) == PartyGroups(rs) + [Tally(PartyStats(r.party, 0, 0, 0), r)]
  {
    var ps := DistinctParties(rs);
    DistinctPartiesAppend(rs, r);
    assert DistinctParties(rs + [r]) == ps + [r.party];
    var g, g' := PartyGroups(rs), PartyGroups(rs + [r]);
    var h := g + [Tally(PartyStats(r.party, 0, 0, 0), r)];
    assert |g'| == |h|;
    forall i | 0 <= i < |ps|
      ensures g'[i] == h[i]
    {
      assert g'[i] == StatsOf(ps[i], rs + [r]);
      assert g[i] == StatsOf(ps[i], rs);
      StatsOfAppend(ps[i], rs, r);
    }
    assert g'[|ps|] == h[|ps|] by {
      assert g'[|ps|] == StatsOf(r.party, rs + [r]);
      StatsOfAppend(r.party, rs, r);
      WithPartyAbsent(rs, r.party);
    }
  }

  lemma PartyGroupsNames(rs: seq<Record>)
    ensures Names(PartyGroups(rs)) == DistinctParties(rs)
    ensures NoDup(PartyGroups(rs))
  {
    var g := PartyGroups(rs);
    assert Names(g) == DistinctParties(rs);
    DistinctPartiesNoDup(rs);
    forall i, j | 0 <= i < j < |g|
      ensures g[i] != g[j]
    {
      assert Names(g)[i] != Names(g)[j];
    }
  }

  /** Names of a rearrangement are a rearrangement of the names. */
  lemma NamesPermutation(s: seq<PartyStats>, t: seq<PartyStats>, p: string)
    requires multiset(s) == multiset(t)
    ensures p in Names(s) <==> p in Names(t)
  {
    if p in Names(s) {
      var i :| 0 <= i < |s| && Names(s)[i] == p;
      assert s[i] in multiset(t);
      var j :| 0 <= j < |t| && t[j] == s[i];
      assert Names(t)[j] == p;
    }
    if p in Names(t) {
      var i :| 0 <= i < |t| && Names(t)[i] == p;
      assert t[i] in multiset(s);
      var j :| 0 <= j < |s| && s[j] == t[i];
      assert Names(s)[j] == p;
    }
  }

  /** Entries of a duplicate-free list of party totals, each holding its own party's
      totals, have distinct names. */
  lemma NamesNoDup(t: seq<PartyStats>, rs: seq<Record>)
    requires forall e :: e in t ==> e == StatsOf(e.party, rs)
    requires NoDup(t)
    ensures NoDup(Names(t))
  {
    forall i, j | 0 <= i < j < |t|
      ensures Names(t)[i] != Names(t)[j]
    {
      assert t[i] in t && t[j] in t;
    }
  }

  /** Each entry of the ranked list holds its party's totals over rs, every party of rs
      appears, and each appears exactly once. */
  lemma RankedPartiesEntries(rs: seq<Record>)
    ensures forall e :: e in RankedParties(rs) ==> e == StatsOf(e.party, rs)
    ensures forall p :: p in Names(RankedParties(rs)) <==> exists r :: r in rs && r.party == p
    ensures NoDup(Names(RankedParties(rs)))
  {
    var g := PartyGroups(rs);
    var ranked := RankedParties(rs);
    assert multiset(ranked) == multiset(g) by {
      StableSortDescProperties(g, PartyTotalVotes);
    }
    PartyGroupsNames(rs);
    DistinctPartiesMembers(rs);
    forall e | e in ranked
      ensures e == StatsOf(e.party, rs)
    {
      assert e in multiset(g);
      var i :| 0 <= i < |g| && g[i] == e;
    }
    forall p
      ensures p in Names(ranked) <==> exists r :: r in rs && r.party == p
    {
      NamesPermutation(g, ranked, p);
    }
    NoDupPermutation(g, ranked);
    NamesNoDup(ranked, rs);
  }

  /** The ranked list is the first-appearance grouping, sorted non-increasing by total
      votes, with parties of equal total kept in first-appearance order. */
  lemma RankedPartiesOrder(rs: seq<Record>)
    ensures SortedDesc(RankedParties(rs), PartyTotalVotes)
    ensures multiset(RankedParties(rs)) == multiset(PartyGroups(rs))
    ensures SameKeyClasses(RankedParties(rs), PartyGroups(rs), PartyTotalVotes)
  {
    StableSortDescProperties(PartyGroups(rs), PartyTotalVotes);
  }

  /** Adding one record to rs adds its votes, seat and candidate to the groups' sums. */
  lemma PartyGroupsSumsStep(rs: seq<Record>, r: Record)
    ensures SumOf(PartyGroups(rs + [r]), PartyTotalVotes) == SumOf(PartyGroups(rs), PartyTotalVotes) + r.votes
    ensures SumOf(PartyGroups(rs + [r]), PartySeats) == SumOf(PartyGroups(rs), PartySeats) + SeatOf(r)
    ensures SumOf(PartyGroups(rs + [r]), PartyCandidates) == SumOf(PartyGroups(rs), PartyCandidates) + 1
  {
    var g := PartyGroups(rs);
    if r.party in DistinctParties(rs) {
      var k :| 0 <= k < |DistinctParties(rs)| && DistinctParties(rs)[k] == r.party;
      PartyGroupsAppendKnown(rs, r, k);
      var e := Tally(g[k], r);
      SumOfUpdate(g, k, e, PartyTotalVotes);
      SumOfUpdate(g, k, e, PartySeats);
      SumOfUpdate(g, k, e, PartyCandidates);
    } else {
      PartyGroupsAppendNew(rs, r);
      var e := Tally(PartyStats(r.party, 0, 0, 0), r);
      SumOfAppend(g, e, PartyTotalVotes);
      SumOfAppend(g, e, PartySeats);
      SumOfAppend(g, e, PartyCandidates);
    }
  }

  lemma {:induction false} PartyGroupsSums(rs: seq<Record>)
    ensures SumOf(PartyGroups(rs), PartyTotalVotes) == TotalVotes(rs)
    ensures SumOf(PartyGroups(rs), PartySeats) == SeatCount(rs)
    ensures SumOf(PartyGroups(rs), PartyCandidates) == |rs|
  {
    if rs != [] {
      var rs', r := rs[..|rs| - 1], rs[|rs| - 1];
      assert rs == rs' + [r];
      PartyGroupsSums(rs');
      SumOfAppend(rs', r, VotesOf);
      SumOfAppend(rs', r, SeatOf);
      PartyGroupsSumsStep(rs', r);
    }
  }

  /** Across the ranked list, votes, seats and candidates add up to the election's totals
      (so the vote shares add up to 100 whenever the total is positive). */
  lemma RankedPartiesSums(rs: seq<Record>)
    ensures SumOf(RankedParties(rs), PartyTotalVotes) == TotalVotes(rs)
    ensures SumOf(RankedParties(rs), PartySeats) == SeatCount(rs)
    ensures SumOf(RankedParties(rs), PartyCandidates) == |rs|
  {
    PartyGroupsSums(rs);
    StableSortDescSum(PartyGroups(rs), PartyTotalVotes, PartyTotalVotes);
    StableSortDescSum(PartyGroups(rs), PartyTotalVotes, PartySeats);
    StableSortDescSum(PartyGroups(rs), PartyTotalVotes, PartyCandidates);
  }

  /** A ranked entry is its party's totals. */
  lemma RankedEntry(rs: seq<Record>, i: nat)
    requires i < |RankedParties(rs)|
    ensures RankedParties(rs)[i] == StatsOf(RankedParties(rs)[i].party, rs)
    ensures RankedParties(rs)[i].party in DistinctParties(rs)
  {
    var e := RankedParties(rs)[i];
    assert e == StatsOf(e.party, rs) by {
      RankedPartiesEntries(rs);
      assert e in RankedParties(rs);
    }
    assert e.party in DistinctParties(rs) by {
      RankedNames(rs);
      assert Names(RankedParties(rs))[i] == e.party;
    }
  }

  /** ps lists exactly the parties of rs, each entry holding its own party's totals. */
  ghost predicate Describes(ps: seq<PartyStats>, rs: seq<Record>)
  {
    && (forall k :: 0 <= k < |ps| ==> ps[k] == StatsOf(ps[k].party, rs))
    && (forall p :: p in Names(ps) <==> p in DistinctParties(rs))
  }

  lemma RankedDescribes(rs: seq<Record>)
    ensures Describes(RankedParties(rs), rs)
  {
    forall k | 0 <= k < |RankedParties(rs)|
      ensures RankedParties(rs)[k] == StatsOf(RankedParties(rs)[k].party, rs)
    {
      RankedEntry(rs, k);
    }
    RankedNames(rs);
  }

  /** A party found nowhere in the ranked list has no record, so its totals are zero. */
  lemma RankedMissing(rs: seq<Record>, p: string)
    requires forall k :: 0 <= k < |RankedParties(rs)| ==> RankedParties(rs)[k].party != p
    ensures p !in DistinctParties(rs)
    ensures StatsOf(p, rs) == PartyStats(p, 0, 0, 0)
  {
    RankedNames(rs);
    assert p !in Names(RankedParties(rs));
    WithPartyAbsent(rs, p);
  }

  /** The number of distinct constituency names of rs, counted by first appearance. */
  function ConstituencyCount(rs: seq<Record>): (n: nat)
    ensures n == |set r | r in rs :: r.constituency|
  {
    var cs := Constituencies(rs);
    DedupCardinality(cs);
    assert (set x | x in cs) == (set r | r in rs :: r.constituency) by {
      forall x ensures x in cs <==> exists r :: r in rs && r.constituency == x {
        if x in cs {
          var i :| 0 <= i < |cs| && cs[i] == x;
          assert rs[i] in rs;
        }
      }
    }
    |Dedup(cs)|
  }

  /** The summary of `calculateElectionStats` for the records rs of one election. */
  function ElectionStatsOf(country: string, year: int, rs: seq<Record>): (st: ElectionStats)
    ensures st.totalCandidates == |rs|
    ensures st.constituencies == |set r | r in rs :: r.constituency|
  {
    ElectionStats(country, year, TotalVotes(rs), SeatCount(rs), |rs|, ConstituencyCount(rs), RankedParties(rs))
  }

  function Seats(s: SeatInfo): int { s.seats }

  /** One seat entry per group, holding the group's record count. */
  function SeatTable(g: seq<PartyStats>): (t: seq<SeatInfo>)
    ensures |t| == |g|
    ensures forall i :: 0 <= i < |g| ==> t[i] == SeatInfo(g[i].party, g[i].candidatesCount)
  {
    seq(|g|, i requires 0 <= i < |g| => SeatInfo(g[i].party, g[i].candidatesCount))
  }

  /** The seat table: the grouping of the elected records, one entry per party with at
      least one seat, in order of the party's first elected record. */
  function SeatDistribution(rs: seq<Record>): (t: seq<SeatInfo>)
    ensures |t| == |DistinctParties(ElectedOf(rs))|
  {
    SeatTable(PartyGroups(ElectedOf(rs)))
  }

  lemma {:induction false} ElectedOfParty(rs: seq<Record>, party: string)
    ensures |WithParty(ElectedOf(rs), party)| == SeatCount(WithParty(rs, party))
  {
    if rs != [] {
      var rs', r := rs[..|rs| - 1], rs[|rs| - 1];
      assert rs == rs' + [r];
      ElectedOfParty(rs', party);
      ElectedOfAppend(rs', r);
      WithPartyAppend(rs', r, party);
      var w := WithParty(rs', party);
      if r.elected {
        assert ElectedOf(rs) == ElectedOf(rs') + [r];
        WithPartyAppend(ElectedOf(rs'), r, party);
      } else {
        assert ElectedOf(rs) == ElectedOf(rs');
      }
      if r.party == party {
        assert WithParty(rs, party) == w + [r];
        SumOfAppend(w, r, SeatOf);
      } else {
        assert WithParty(rs, party) == w;
      }
    }
  }

  lemma SeatTableKnown(g: seq<PartyStats>, k: nat, r: Record)
    requires k < |g|
    ensures SeatTable(g[k := Tally(g[k], r)]) == SeatTable(g)[k := SeatInfo(g[k].party, SeatTable(g)[k].seats + 1)]
  {
  }

  lemma SeatTableNew(g: seq<PartyStats>, e: PartyStats)
    ensures SeatTable(g + [e]) == SeatTable(g) + [SeatInfo(e.party, e.candidatesCount)]
  {
  }

  /** One more record: a seat for a party already listed adds one to its count, a seat
      for a new party appends it with one seat, and a record not elected changes nothing. */
  lemma SeatDistributionAppend(rs: seq<Record>, r: Record, k: int)
    requires r.elected && k == -1 ==> forall j :: 0 <= j < |SeatDistribution(rs)| ==> SeatDistribution(rs)[j].party != r.party
    requires r.elected && k != -1 ==> 0 <= k < |SeatDistribution(rs)| && SeatDistribution(rs)[k].party == r.party
    ensures SeatDistribution(rs + [r]) ==
      if !r.elected then SeatDistribution(rs)
      else if k == -1 then SeatDistribution(rs) + [SeatInfo(r.party, 1)]
      else SeatDistribution(rs)[k := SeatDistribution(rs)[k].(seats := SeatDistribution(rs)[k].seats + 1)]
  {
    var el := ElectedOf(rs);
    var g := PartyGroups(el);
    ElectedOfAppend(rs, r);
    if r.elected {
      PartyGroupsNames(el);
      assert SeatDistribution(rs) == SeatTable(g);
      assert ElectedOf(rs + [r]) == el + [r];
      if k == -1 {
        assert forall j :: 0 <= j < |g| ==> Names(g)[j] == SeatDistribution(rs)[j].party;
        assert r.party !in Names(g);
        PartyGroupsAppendNew(el, r);
        SeatTableNew(g, Tally(PartyStats(r.party, 0, 0, 0), r));
      } else {
        assert Names(g)[k] == r.party;
        PartyGroupsAppendKnown(el, r, k);
        SeatTableKnown(g, k, r);
      }
    } else {
      assert ElectedOf(rs + [r]) == el;
    }
  }

  lemma {:induction false} SeatTableSum(g: seq<PartyStats>)
    ensures SumOf(SeatTable(g), Seats) == SumOf(g, PartyCandidates)
  {
    if g != [] {
      var g' := g[..|g| - 1];
      SeatTableSum(g');
      assert SeatTable(g)[..|g| - 1] == SeatTable(g');
    }
  }

  /** The i-th seat entry is for the i-th party to win a seat, and its count is that
      party's `seatsWon`, at least one. The parties are those with an elected record,
      each once, and the counts add up to the total number of seats. */
  lemma SeatDistributionProperties(rs: seq<Record>)
    ensures forall i :: 0 <= i < |SeatDistribution(rs)| ==>
      SeatDistribution(rs)[i].party == DistinctParties(ElectedOf(rs))[i] &&
      SeatDistribution(rs)[i].seats == StatsOf(SeatDistribution(rs)[i].party, rs).seatsWon >= 1
    ensures forall p :: p in DistinctParties(ElectedOf(rs)) <==> exists r :: r in rs && r.elected && r.party == p
    ensures NoDup(DistinctParties(ElectedOf(rs)))
    ensures SumOf(SeatDistribution(rs), Seats) == SeatCount(rs)
  {
    var el := ElectedOf(rs);
    var t := SeatDistribution(rs);
    var g := PartyGroups(el);
    forall i | 0 <= i < |t|
      ensures t[i].party == DistinctParties(el)[i]
      ensures t[i].seats == StatsOf(t[i].party, rs).seatsWon >= 1
    {
      var p := DistinctParties(el)[i];
      assert g[i] == StatsOf(p, el);
      ElectedOfParty(rs, p);
      DistinctPartyHasRecords(el, p);
    }
    forall p
      ensures p in DistinctParties(el) <==> exists r :: r in rs && r.elected && r.party == p
    {
      DistinctPartiesMembers(el);
      ElectedOfMembers(rs);
    }
    DistinctPartiesNoDup(el);
    PartyGroupsSums(el);
    SeatCountIsElectedCount(rs);
    SeatTableSum(g);
  }

  function RecordVotes(r: Record): int { r.votes }

  /** How many of the sorted records `getTopCandidates` returns for a request of n:
      none for n <= 0, at most all of them. */
  function TopCount(n: int, available: nat): (m: nat)
    ensures m <= available
    ensures m == if n <= 0 then 0 else if n < available then n else available
  {
    if n <= 0 then 0 else if n < available then n else available
  }

  /** The top candidates: the first TopCount(n, |rs|) records of rs sorted stably by
      votes, non-increasing. */
  function TopCandidates(rs: seq<Record>, n: int): (t: seq<Record>)
    ensures |t| == TopCount(n, |rs|)
  {
    StableSortDesc(rs, VotesOf)[..TopCount(n, |rs|)]
  }

  /** Cutting a rearrangement s of orig, sorted by key, at m: the kept prefix is sorted,
      drawn from orig, holds a maximum of orig first, and nothing cut off has a larger
      key than anything kept. */
  lemma SortedCut<T>(s: seq<T>, key: T -> int, m: nat, orig: seq<T>)
    requires SortedDesc(s, key) && m <= |s| && multiset(s) == multiset(orig)
    ensures SortedDesc(s[..m], key)
    ensures multiset(s[..m]) <= multiset(orig)
    ensures 0 < m ==> forall x :: x in orig ==> key(x) <= key(s[..m][0])
    ensures forall i, x :: 0 <= i < m && x in multiset(orig) - multiset(s[..m]) ==> key(x) <= key(s[..m][i])
  {
    assert SortedDesc(s[..m], key) by {
      SortedPrefix(s, key, m);
    }
    assert multiset(s[..m]) <= multiset(orig) by {
      CutMultiset(s, m);
    }
    assert forall i, x :: 0 <= i < m && x in multiset(orig) - multiset(s[..m]) ==> key(x) <= key(s[..m][i]) by {
      CutMultiset(s, m);
      SortedTailBelow(s, key, m);
    }
    assert 0 < m ==> forall x :: x in orig ==> key(x) <= key(s[..m][0]) by {
      if 0 < m {
        SortedFirstMax(s, key, orig);
      }
    }
  }

  lemma SortedPrefix<T>(s: seq<T>, key: T -> int, m: nat)
    requires SortedDesc(s, key) && m <= |s|
    ensures SortedDesc(s[..m], key)
  {
  }

  lemma SortedFirstMax<T>(s: seq<T>, key: T -> int, orig: seq<T>)
    requires SortedDesc(s, key) && 0 < |s| && multiset(s) == multiset(orig)
    ensures forall x :: x in orig ==> key(x) <= key(s[0])
  {
    forall x | x in orig
      ensures key(x) <= key(s[0])
    {
      assert x in multiset(s);
    }
  }

  lemma CutMultiset<T>(s: seq<T>, m: nat)
    requires m <= |s|
    ensures multiset(s) - multiset(s[..m]) == multiset(s[m..])
    ensures multiset(s[..m]) <= multiset(s)
  {
    assert s == s[..m] + s[m..];
  }

  /** In a sorted sequence, nothing after position m has a larger key than anything before. */
  lemma SortedTailBelow<T>(s: seq<T>, key: T -> int, m: nat)
    requires SortedDesc(s, key) && m <= |s|
    ensures forall i, x :: 0 <= i < m && x in multiset(s[m..]) ==> key(x) <= key(s[i])
  {
    forall i, x | 0 <= i < m && x in multiset(s[m..])
      ensures key(x) <= key(s[i])
    {
      assert x in s[m..];
      var k :| 0 <= k < |s[m..]| && s[m..][k] == x;
      assert s[m + k] == x;
    }
  }

  /** The top list is non-increasing by votes, drawn from rs, its first entry has the
      most votes of all of rs, and every record left out has no more votes than every
      record kept. */
  lemma TopCandidatesProperties(rs: seq<Record>, n: int)
    ensures SortedDesc(TopCandidates(rs, n), VotesOf)
    ensures multiset(TopCandidates(rs, n)) <= multiset(rs)
    ensures TopCandidates(rs, n) != [] ==> forall r :: r in rs ==> r.votes <= TopCandidates(rs, n)[0].votes
    ensures forall i, r ::
      0 <= i < |TopCandidates(rs, n)| && r in multiset(rs) - multiset(TopCandidates(rs, n)) ==>
        r.votes <= TopCandidates(rs, n)[i].votes
  {
    var sorted := StableSortDesc(rs, VotesOf);
    StableSortDescProperties(rs, VotesOf);
    SortedCut(sorted, VotesOf, TopCount(n, |rs|), rs);
  }

  /** The winners: the elected records sorted stably by votes, non-increasing. */
  function Winners(rs: seq<Record>): seq<Record>
  {
    StableSortDesc(ElectedOf(rs), VotesOf)
  }

  /** Exactly the elected records, one per seat, non-increasing by votes, with equal
      votes kept in stored order. */
  lemma WinnersProperties(rs: seq<Record>)
    ensures forall r :: r in Winners(rs) <==> r in rs && r.elected
    ensures |Winners(rs)| == SeatCount(rs)
    ensures multiset(Winners(rs)) == multiset(ElectedOf(rs))
    ensures SortedDesc(Winners(rs), VotesOf)
    ensures SameKeyClasses(Winners(rs), ElectedOf(rs), VotesOf)
  {
    StableSortDescProperties(ElectedOf(rs), VotesOf);
    SeatCountIsElectedCount(rs);
    ElectedOfMembers(rs);
    forall r ensures r in Winners(rs) <==> r in ElectedOf(rs) {
      assert r in Winners(rs) <==> r in multiset(Winners(rs));
    }
  }

  /** The names of `names` carried by no record of rs, in order. */
  function Absent(names: seq<string>, rs: seq<Record>): (a: seq<string>)
    ensures forall p :: p in a <==> p in names && p !in DistinctParties(rs)
  {
    if names == [] then []
    else
      var last := names[|names| - 1];
      assert forall p :: p in names <==> p in names[..|names| - 1] || p == last;
      Absent(names[..|names| - 1], rs) + (if last !in DistinctParties(rs) then [last] else [])
  }

  lemma {:induction false} AbsentNoDup(names: seq<string>, rs: seq<Record>)
    requires NoDup(names)
    ensures NoDup(Absent(names, rs))
  {
    if names != [] {
      var names', last := names[..|names| - 1], names[|names| - 1];
      assert NoDup(names');
      AbsentNoDup(names', rs);
      assert last !in names';
    }
  }

  lemma AbsentAppend(names: seq<string>, p: string, rs: seq<Record>)
    ensures Absent(names + [p], rs) == Absent(names, rs) + (if p !in DistinctParties(rs) then [p] else [])
  {
    assert (names + [p])[..|names|] == names;
  }

  /** The change of one party from e1 to e2, a party absent from an election counting 0. */
  function ChangeOf(party: string, e1: seq<Record>, e2: seq<Record>): PartyChange
  {
    PartyChange(party,
      TotalVotes(WithParty(e2, party)) - TotalVotes(WithParty(e1, party)),
      SeatCount(WithParty(e2, party)) - SeatCount(WithParty(e1, party)))
  }

  /** The change of each named party, in order. */
  function Changes(names: seq<string>, e1: seq<Record>, e2: seq<Record>): (c: seq<PartyChange>)
    ensures |c| == |names|
    ensures forall i :: 0 <= i < |names| ==> c[i] == ChangeOf(names[i], e1, e2)
  {
    seq(|names|, i requires 0 <= i < |names| => ChangeOf(names[i], e1, e2))
  }

  lemma ChangesAppend(names: seq<string>, p: string, e1: seq<Record>, e2: seq<Record>)
    ensures Changes(names + [p], e1, e2) == Changes(names, e1, e2) + [ChangeOf(p, e1, e2)]
  {
  }

  /** The comparison of `compareElections` between elections e1 and e2. */
  function Comparison(country: string, year1: int, year2: int, e1: seq<Record>, e2: seq<Record>): ComparativeAnalysis
  {
    var r1 := RankedParties(e1);
    ComparativeAnalysis(country, year1, year2,
      TotalVotes(e2) - TotalVotes(e1),
      Changes(Names(r1), e1, e2),
      Absent(Names(RankedParties(e2)), e1),
      Absent(Names(r1), e2))
  }

  /** The names of the ranked list are the parties of rs, each once. */
  lemma RankedNames(rs: seq<Record>)
    ensures forall p :: p in Names(RankedParties(rs)) <==> p in DistinctParties(rs)
    ensures NoDup(Names(RankedParties(rs)))
  {
    RankedPartiesEntries(rs);
    DistinctPartiesMembers(rs);
  }

  /** A party without records in e2 loses all its e1 votes and seats. */
  lemma ChangeOfMissing(party: string, e1: seq<Record>, e2: seq<Record>)
    requires party !in DistinctParties(e2)
    ensures ChangeOf(party, e1, e2).voteChange == -StatsOf(party, e1).totalVotes
    ensures ChangeOf(party, e1, e2).seatChange == -StatsOf(party, e1).seatsWon
  {
    WithPartyAbsent(e2, party);
  }

  lemma ChangesFacts(e1: seq<Record>, e2: seq<Record>)
    ensures var c := Changes(Names(RankedParties(e1)), e1, e2);
      && |c| == |DistinctParties(e1)|
      && (forall i :: 0 <= i < |c| ==> c[i].party == RankedParties(e1)[i].party)
      && (forall i :: 0 <= i < |c| ==> c[i].party in DistinctParties(e1))
      && (forall i, j :: 0 <= i < j < |c| ==> c[i].party != c[j].party)
      && (forall i :: 0 <= i < |c| && c[i].party !in DistinctParties(e2) ==>
            c[i].voteChange == -StatsOf(c[i].party, e1).totalVotes &&
            c[i].seatChange == -StatsOf(c[i].party, e1).seatsWon)
  {
    var names := Names(RankedParties(e1));
    var c := Changes(names, e1, e2);
    RankedNames(e1);
    forall i | 0 <= i < |c|
      ensures c[i].party in DistinctParties(e1)
    {
      assert c[i].party == names[i];
    }
    forall i, j | 0 <= i < j < |c|
      ensures c[i].party != c[j].party
    {
      assert c[i].party == names[i] && c[j].party == names[j];
    }
    forall i | 0 <= i < |c| && c[i].party !in DistinctParties(e2)
      ensures c[i].voteChange == -StatsOf(c[i].party, e1).totalVotes
      ensures c[i].seatChange == -StatsOf(c[i].party, e1).seatsWon
    {
      ChangeOfMissing(names[i], e1, e2);
    }
  }

  /** The party changes cover the year-1 parties only, once each, in ranked order, and a
      party missing from year 2 counts as zero there. */
  lemma ComparisonChanges(country: string, year1: int, year2: int, e1: seq<Record>, e2: seq<Record>)
    ensures var c := Comparison(country, year1, year2, e1, e2).partyChanges;
      && |c| == |DistinctParties(e1)|
      && (forall i :: 0 <= i < |c| ==> c[i].party == RankedParties(e1)[i].party)
      && (forall i :: 0 <= i < |c| ==> c[i].party in DistinctParties(e1))
      && (forall i, j :: 0 <= i < j < |c| ==> c[i].party != c[j].party)
      && (forall i :: 0 <= i < |c| && c[i].party !in DistinctParties(e2) ==>
            c[i].voteChange == -StatsOf(c[i].party, e1).totalVotes &&
            c[i].seatChange == -StatsOf(c[i].party, e1).seatsWon)
  {
    assert Comparison(country, year1, year2, e1, e2).partyChanges == Changes(Names(RankedParties(e1)), e1, e2);
    ChangesFacts(e1, e2);
  }

  /** A new party is one of year 2 without a record in year 1, a disappeared party one of
      year 1 without a record in year 2; each is listed once. */
  lemma ComparisonNewAndDisappeared(country: string, year1: int, year2: int, e1: seq<Record>, e2: seq<Record>)
    ensures var a := Comparison(country, year1, year2, e1, e2);
      && (forall p :: p in a.newParties <==> p in DistinctParties(e2) && p !in DistinctParties(e1))
      && (forall p :: p in a.disappearedParties <==> p in DistinctParties(e1) && p !in DistinctParties(e2))
      && NoDup(a.newParties) && NoDup(a.disappearedParties)
  {
    RankedNames(e1);
    RankedNames(e2);
    AbsentNoDup(Names(RankedParties(e2)), e1);
    AbsentNoDup(Names(RankedParties(e1)), e2);
  }

  /** The trend entries for `years`, in the given order, one for each year (duplicates
      included) in which the party has a record. */
  function TrendOf(rs: seq<Record>, country: string, party: string, years: seq<int>): seq<PartyTrend>
  {
    if years == [] then []
    else
      var y := years[|years| - 1];
      var e := ElectionOf(rs, country, y);
      TrendOf(rs, country, party, years[..|years| - 1]) +
      (if party in DistinctParties(e) then [PartyTrend(y, StatsOf(party, e))] else [])
  }

  lemma TrendOfAppend(rs: seq<Record>, country: string, party: string, years: seq<int>, y: int)
    ensures TrendOf(rs, country, party, years + [y]) == TrendOf(rs, country, party, years) +
      (if party in DistinctParties(ElectionOf(rs, country, y))
       then [PartyTrend(y, StatsOf(party, ElectionOf(rs, country, y)))] else [])
  {
    assert (years + [y])[..|years|] == years;
  }

  /** Every trend entry is for a requested year in which the party ran, and holds its
      totals for that year; every requested year in which it ran has its entry. */
  lemma {:induction false} TrendOfProperties(rs: seq<Record>, country: string, party: string, years: seq<int>)
    ensures |TrendOf(rs, country, party, years)| <= |years|
    ensures forall t :: t in TrendOf(rs, country, party, years) ==>
      t.year in years && t.stats == StatsOf(party, ElectionOf(rs, country, t.year)) && t.stats.candidatesCount >= 1
    ensures forall i :: 0 <= i < |years| && party in DistinctParties(ElectionOf(rs, country, years[i])) ==>
      PartyTrend(years[i], StatsOf(party, ElectionOf(rs, country, years[i]))) in TrendOf(rs, country, party, years)
  {
    if years != [] {
      var ys, y := years[..|years| - 1], years[|years| - 1];
      TrendOfProperties(rs, country, party, ys);
      assert years == ys + [y];
      var e := ElectionOf(rs, country, y);
      if party in DistinctParties(e) {
        DistinctPartyHasRecords(e, party);
      }
      forall i | 0 <= i < |years| && party in DistinctParties(ElectionOf(rs, country, years[i]))
        ensures PartyTrend(years[i], StatsOf(party, ElectionOf(rs, country, years[i]))) in TrendOf(rs, country, party, years)
      {
        if i < |ys| {
          assert years[i] == ys[i];
        }
      }
    }
  }
}
