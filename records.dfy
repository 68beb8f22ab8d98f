/** The election record (include/ElectionRecord.h), its identity comparison and its
    sort order, plus the per-record quantities the statistics add up. */
module Records {
  import opened Sequences

  /** One candidate's result in one constituency of one election. The parameterised
      constructor of the source is the datatype constructor. Votes are unbounded
      integers; the source's 32-bit `int` is not modelled. */
  datatype Record = Record(
    country: string,
    year: int,
    constituency: string,
    candidate: string,
    party: string,
    votes: int,
    elected: bool)

  /** The default-constructed record. */
  function DefaultRecord(): (r: Record)
    ensures r.year == 0 && r.votes == 0 && !r.elected
    ensures r.country == "" && r.constituency == "" && r.candidate == "" && r.party == ""
  {
    Record("", 0, "", "", "", 0, false)
  }

  /** `operator==`: records are equal when their identity key is. */
  predicate SameKey(a: Record, b: Record)
  {
    a.country == b.country && a.year == b.year &&
    a.constituency == b.constituency && a.candidate == b.candidate
  }

  /** `operator==` holds exactly on equal keys; party, votes and elected play no part. */
  lemma SameKeyIff(a: Record, b: Record)
    ensures SameKey(a, b) <==>
      a.(party := "", votes := 0, elected := false) == b.(party := "", votes := 0, elected := false)
  {
  }

  lemma SameKeyIsEquivalence(a: Record, b: Record, c: Record)
    ensures SameKey(a, a)
    ensures SameKey(a, b) ==> SameKey(b, a)
    ensures SameKey(a, b) && SameKey(b, c) ==> SameKey(a, c)
  {
  }

  /** `std::string::operator<`: lexicographic order on character codes. */
  predicate StrLess(a: string, b: string)
  {
    if a == [] then b != []
    else if b == [] then false
    else if a[0] != b[0] then a[0] < b[0]
    else StrLess(a[1..], b[1..])
  }

  lemma {:induction false} StrLessIrreflexive(a: string)
    ensures !StrLess(a, a)
  {
    if a != [] {
      StrLessIrreflexive(a[1..]);
    }
  }

  lemma {:induction false} StrLessTransitive(a: string, b: string, c: string)
    requires StrLess(a, b) && StrLess(b, c)
    ensures StrLess(a, c)
  {
    if a != [] && b != [] && c != [] && a[0] == b[0] && b[0] == c[0] {
      StrLessTransitive(a[1..], b[1..], c[1..]);
    }
  }

  /** Distinct strings are always ordered one way or the other. */
  lemma {:induction false} StrLessTotal(a: string, b: string)
    requires a != b
    ensures StrLess(a, b) || StrLess(b, a)
  {
    if a != [] && b != [] && a[0] == b[0] {
      assert a == [a[0]] + a[1..] && b == [b[0]] + b[1..];
      StrLessTotal(a[1..], b[1..]);
    }
  }

  lemma {:induction false} StrLessAsymmetric(a: string, b: string)
    requires StrLess(a, b)
    ensures !StrLess(b, a)
  {
    if a != [] && b != [] && a[0] == b[0] {
      StrLessAsymmetric(a[1..], b[1..]);
    }
  }

  /** `operator<`: by year, then country, then constituency, then votes descending. */
  predicate Less(a: Record, b: Record)
  {
    if a.year != b.year then a.year < b.year
    else if a.country != b.country then StrLess(a.country, b.country)
    else if a.constituency != b.constituency then StrLess(a.constituency, b.constituency)
    else a.votes > b.votes
  }

  lemma LessIrreflexive(a: Record)
    ensures !Less(a, a)
  {
  }

  lemma LessTransitive(a: Record, b: Record, c: Record)
    requires Less(a, b) && Less(b, c)
    ensures Less(a, c)
  {
    if a.year == b.year == c.year {
      if a.country != b.country && b.country != c.country {
        StrLessTransitive(a.country, b.country, c.country);
        if a.country == c.country {
          StrLessAsymmetric(a.country, b.country);
        }
      } else if a.country == b.country == c.country {
        if a.constituency != b.constituency && b.constituency != c.constituency {
          StrLessTransitive(a.constituency, b.constituency, c.constituency);
          if a.constituency == c.constituency {
            StrLessAsymmetric(a.constituency, b.constituency);
          }
        }
      }
    }
  }

  /** Two records that agree on year, country, constituency and votes are unordered,
      whatever their candidate, party and elected flag. */
  lemma LessIgnoresCandidatePartyElected(a: Record, b: Record)
    requires a.year == b.year && a.country == b.country
    requires a.constituency == b.constituency && a.votes == b.votes
    ensures !Less(a, b) && !Less(b, a)
  {
  }

  /** Two records with equal keys are ordered by votes alone, so `operator<` and
      `operator==` disagree: equal records can be strictly ordered. */
  lemma EqualKeysOrderedByVotes(a: Record, b: Record)
    requires SameKey(a, b)
    ensures Less(a, b) <==> a.votes > b.votes
  {
  }

  /** The records of one election (country and year), in stored order. */
  function ElectionOf(rs: seq<Record>, country: string, year: int): (r: seq<Record>)
    ensures |r| <= |rs|
  {
    if rs == [] then []
    else
      var last := rs[|rs| - 1];
      ElectionOf(rs[..|rs| - 1], country, year) +
      (if last.country == country && last.year == year then [last] else [])
  }

  /** An election's records are exactly the stored records of that country and year. */
  lemma {:induction false} ElectionOfMembers(rs: seq<Record>, country: string, year: int)
    ensures forall x :: x in ElectionOf(rs, country, year) <==> x in rs && x.country == country && x.year == year
  {
    if rs != [] {
      ElectionOfMembers(rs[..|rs| - 1], country, year);
      assert rs == rs[..|rs| - 1] + [rs[|rs| - 1]];
    }
  }

  /** The records of one party, in order. */
  function WithParty(rs: seq<Record>, party: string): (r: seq<Record>)
    ensures |r| <= |rs|
  {
    if rs == [] then []
    else
      var last := rs[|rs| - 1];
      WithParty(rs[..|rs| - 1], party) + (if last.party == party then [last] else [])
  }

  lemma {:induction false} WithPartyMembers(rs: seq<Record>, party: string)
    ensures forall x :: x in WithParty(rs, party) <==> x in rs && x.party == party
  {
    if rs != [] {
      WithPartyMembers(rs[..|rs| - 1], party);
      assert rs == rs[..|rs| - 1] + [rs[|rs| - 1]];
    }
  }

  /** The elected records, in order. */
  function ElectedOf(rs: seq<Record>): (r: seq<Record>)
    ensures |r| <= |rs|
  {
    if rs == [] then []
    else
      var last := rs[|rs| - 1];
      ElectedOf(rs[..|rs| - 1]) + (if last.elected then [last] else [])
  }

  lemma {:induction false} ElectedOfMembers(rs: seq<Record>)
    ensures forall x :: x in ElectedOf(rs) <==> x in rs && x.elected
  {
    if rs != [] {
      ElectedOfMembers(rs[..|rs| - 1]);
      assert rs == rs[..|rs| - 1] + [rs[|rs| - 1]];
    }
  }

  lemma {:induction false} WithPartyNone(rs: seq<Record>, party: string)
    requires forall r :: r in rs ==> r.party != party
    ensures WithParty(rs, party) == []
  {
    if rs != [] {
      WithPartyNone(rs[..|rs| - 1], party);
    }
  }

  lemma ElectionOfAppend(rs: seq<Record>, r: Record, country: string, year: int)
    ensures ElectionOf(rs + [r], country, year) ==
      ElectionOf(rs, country, year) + (if r.country == country && r.year == year then [r] else [])
  {
    assert (rs + [r])[..|rs|] == rs;
  }

  lemma WithPartyAppend(rs: seq<Record>, r: Record, party: string)
    ensures WithParty(rs + [r], party) == WithParty(rs, party) + (if r.party == party then [r] else [])
  {
    assert (rs + [r])[..|rs|] == rs;
  }

  lemma ElectedOfAppend(rs: seq<Record>, r: Record)
    ensures ElectedOf(rs + [r]) == ElectedOf(rs) + (if r.elected then [r] else [])
  {
    assert (rs + [r])[..|rs|] == rs;
  }

  function VotesOf(r: Record): int { r.votes }

  function SeatOf(r: Record): int { if r.elected then 1 else 0 }

  /** Total votes of a sequence of records. */
  function TotalVotes(rs: seq<Record>): int { SumOf(rs, VotesOf) }

  /** Number of elected records in a sequence. */
  function SeatCount(rs: seq<Record>): int { SumOf(rs, SeatOf) }

  /** Counting seats is counting elected records. */
  lemma {:induction false} SeatCountIsElectedCount(rs: seq<Record>)
    ensures SeatCount(rs) == |ElectedOf(rs)|
  {
    if rs != [] {
      SeatCountIsElectedCount(rs[..|rs| - 1]);
    }
  }

  function PartyNames(rs: seq<Record>): (ps: seq<string>)
    ensures |ps| == |rs| && forall i :: 0 <= i < |rs| ==> ps[i] == rs[i].party
  {
    seq(|rs|, i requires 0 <= i < |rs| => rs[i].party)
  }

  function Constituencies(rs: seq<Record>): (cs: seq<string>)
    ensures |cs| == |rs| && forall i :: 0 <= i < |rs| ==> cs[i] == rs[i].constituency
  {
    seq(|rs|, i requires 0 <= i < |rs| => rs[i].constituency)
  }

  /** The parties of rs in order of first appearance. */
  function DistinctParties(rs: seq<Record>): (ps: seq<string>)
  {
    Dedup(PartyNames(rs))
  }

  /** Each party of rs is listed once, and nothing else is listed. */
  lemma DistinctPartiesMembers(rs: seq<Record>)
    ensures NoDup(DistinctParties(rs))
    ensures forall p :: p in DistinctParties(rs) <==> exists r :: r in rs && r.party == p
  {
    var d := DistinctParties(rs);
    DedupProperties(PartyNames(rs));
    forall p ensures p in d <==> exists r :: r in rs && r.party == p {
      DedupMember(PartyNames(rs), p);
      if p in PartyNames(rs) {
        var i :| 0 <= i < |rs| && PartyNames(rs)[i] == p;
        assert rs[i] in rs;
      }
    }
  }

  lemma DistinctPartiesNoDup(rs: seq<Record>)
    ensures NoDup(DistinctParties(rs))
  {
    DedupProperties(PartyNames(rs));
  }

  lemma PartyOfOwn(rs: seq<Record>, r: Record)
    requires r in rs
    ensures r.party in DistinctParties(rs)
  {
    DistinctPartiesMembers(rs);
  }

  /** A listed party has at least one record. */
  lemma DistinctPartyHasRecords(rs: seq<Record>, party: string)
    requires party in DistinctParties(rs)
    ensures |WithParty(rs, party)| >= 1
  {
    DistinctPartiesMembers(rs);
    WithPartyMembers(rs, party);
    var r :| r in rs && r.party == party;
    assert r in WithParty(rs, party);
  }

  /** A party listed nowhere has no records. */
  lemma WithPartyAbsent(rs: seq<Record>, party: string)
    requires party !in DistinctParties(rs)
    ensures WithParty(rs, party) == []
  {
    DistinctPartiesMembers(rs);
    WithPartyNone(rs, party);
  }

  lemma DistinctPartiesAppend(rs: seq<Record>, r: Record)
    ensures DistinctParties(rs + [r]) ==
      if r.party in DistinctParties(rs) then DistinctParties(rs) else DistinctParties(rs) + [r.party]
  {
    assert PartyNames(rs + [r]) == PartyNames(rs) + [r.party];
    DedupAppend(PartyNames(rs), r.party);
  }
}
