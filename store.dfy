/** The record store (src/ElectionData.cpp): one growable sequence of records with
    linear-scan queries. There are no indices, no keyed lookup and no duplicate check. */
module Store {
  import opened Records

  /** The records of one party in one election, in stored order. */
  function PartyOf(rs: seq<Record>, country: string, year: int, party: string): (r: seq<Record>)
    ensures |r| <= |rs|
  {
    if rs == [] then []
    else
      var last := rs[|rs| - 1];
      PartyOf(rs[..|rs| - 1], country, year, party) +
      (if last.country == country && last.year == year && last.party == party then [last] else [])
  }

  /** A party query holds exactly the stored records of that country, year and party. */
  lemma {:induction false} PartyOfMembers(rs: seq<Record>, country: string, year: int, party: string)
    ensures forall x :: x in PartyOf(rs, country, year, party) <==>
      x in rs && x.country == country && x.year == year && x.party == party
  {
    if rs != [] {
      PartyOfMembers(rs[..|rs| - 1], country, year, party);
      assert rs == rs[..|rs| - 1] + [rs[|rs| - 1]];
    }
  }

  /** Party records are the election's records filtered by party: a subsequence of
      the election query, in the same order. */
  lemma {:induction false} PartyOfIsElectionFilteredByParty(rs: seq<Record>, country: string, year: int, party: string)
    ensures PartyOf(rs, country, year, party) == WithParty(ElectionOf(rs, country, year), party)
  {
    if rs != [] {
      var rs', last := rs[..|rs| - 1], rs[|rs| - 1];
      var e' := ElectionOf(rs', country, year);
      PartyOfIsElectionFilteredByParty(rs', country, year, party);
      if last.country == country && last.year == year {
        assert ElectionOf(rs, country, year) == e' + [last];
        WithPartyAppend(e', last, party);
      } else {
        assert ElectionOf(rs, country, year) == e';
      }
    }
  }

  class ElectionData {
    /** `std::vector<ElectionRecord> records`, in insertion order. */
    var records: seq<Record>

    constructor ()
      ensures records == []
    {
      records := [];
    }

    /** `push_back`: appends unconditionally, a record with an existing key included. */
    method AddRecord(record: Record)
      modifies this
      ensures records == old(records) + [record]
      ensures |records| == |old(records)| + 1
      ensures records[..|old(records)|] == old(records)
    {
      records := records + [record];
    }

    method GetElectionRecords(country: string, year: int) returns (result: seq<Record>)
      ensures result == ElectionOf(records, country, year)
    {
      result := [];
      for i := 0 to |records|
        invariant result == ElectionOf(records[..i], country, year)
      {
        ElectionOfAppend(records[..i], records[i], country, year);
        assert records[..i + 1] == records[..i] + [records[i]];
        if records[i].country == country && records[i].year == year {
          result := result + [records[i]];
        }
      }
      assert records[..|records|] == records;
    }

    method GetPartyRecords(country: string, year: int, party: string) returns (result: seq<Record>)
      ensures result == PartyOf(records, country, year, party)
    {
      result := [];
      for i := 0 to |records|
        invariant result == PartyOf(records[..i], country, year, party)
      {
        assert records[..i + 1][..i] == records[..i];
        if records[i].country == country && records[i].year == year && records[i].party == party {
          result := result + [records[i]];
        }
      }
      assert records[..|records|] == records;
    }

    method GetTotalRecords() returns (n: int)
      ensures n == |records|
    {
      n := |records|;
    }

    /** A copy of the whole sequence; the store is not changed. */
    method GetAllRecords() returns (all: seq<Record>)
      ensures all == records
    {
      all := records;
    }

    /** Empties the store; afterwards every query is empty. */
    method Clear()
      modifies this
      ensures records == []
      ensures forall c, y :: ElectionOf(records, c, y) == []
    {
      records := [];
    }
  }
}
