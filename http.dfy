/** The request helpers of src/HTTPServer.cpp: URL decoding, query-string parsing,
    the content type of a static file, the split of a request path into an API call or
    a static file, and the country/year index behind `/api/countries`. */
module Http {
  import opened Sequences
  import opened Records
  import opened Store
  import opened Csv

  /** Reading a hexadecimal int with `std::istringstream >> std::hex` from the two
      characters after a '%', cast to char; None when the read fails. */
  type HexReader = string -> Option<char>

  /** Reference definition of `urlDecode`, read from the left. A '%' with at least two
      characters after it is replaced by the character the reader gives for those two,
      all three consumed; when the read fails, or fewer than two characters follow, the '%'
      is copied. A '+' becomes a space; everything else is copied. */
  function Decoded(s: string, extract: HexReader): (r: string)
    ensures |r| <= |s|
    decreases |s|
  {
    if s == [] then []
    else if s[0] == '%' && 2 < |s| && extract(s[1..3]).Some? then [extract(s[1..3]).value] + Decoded(s[3..], extract)
    else [if s[0] == '+' then ' ' else s[0]] + Decoded(s[1..], extract)
  }

  /** Decoded on the suffix from index i, one step unfolded: a decoded escape. */
  lemma DecodedAtEscape(s: string, i: nat, extract: HexReader)
    requires i + 2 < |s| && s[i] == '%' && extract(s[i + 1..i + 3]).Some?
    ensures Decoded(s[i..], extract) == [extract(s[i + 1..i + 3]).value] + Decoded(s[i + 3..], extract)
  {
    var rest := s[i..];
    assert rest[1..3] == s[i + 1..i + 3];
    assert rest[3..] == s[i + 3..];
  }

  /** One step unfolded: one character decoded on its own. */
  lemma DecodedAtChar(s: string, i: nat, extract: HexReader, c: char)
    requires i < |s|
    requires s[i] == '%' ==> c == '%' && (i + 2 < |s| ==> extract(s[i + 1..i + 3]).None?)
    requires s[i] != '%' ==> c == if s[i] == '+' then ' ' else s[i]
    ensures Decoded(s[i..], extract) == [c] + Decoded(s[i + 1..], extract)
  {
    var rest := s[i..];
    assert rest[1..] == s[i + 1..];
    if i + 2 < |s| {
      assert rest[1..3] == s[i + 1..i + 3];
    }
  }

  /** A loop invariant of the form "output so far + rest == whole" carried over one piece. */
  lemma Advance<T>(result: seq<T>, piece: seq<T>, rest: seq<T>, tail: seq<T>, whole: seq<T>)
    requires result + rest == whole && rest == piece + tail
    ensures (result + piece) + tail == whole
  {
    assert (result + piece) + tail == result + (piece + tail);
  }

  /** `urlDecode`: the index loop that appends to `result`, skipping two more
      characters after a decoded escape. */
  method UrlDecode(str: string, extract: HexReader) returns (result: string)
    ensures result == Decoded(str, extract)
  {
    result := [];
    var i := 0;
    while i < |str|
      invariant 0 <= i <= |str|
      invariant result + Decoded(str[i..], extract) == Decoded(str, extract)
    {
      ghost var rest, whole := Decoded(str[i..], extract), Decoded(str, extract);
      if str[i] == '%' && i + 2 < |str| {
        var v := extract(str[i + 1..i + 3]);
        if v.Some? {
          DecodedAtEscape(str, i, extract);
          Advance(result, [v.value], rest, Decoded(str[i + 3..], extract), whole);
          result := result + [v.value];
          i := i + 2;
        } else {
          DecodedAtChar(str, i, extract, '%');
          Advance(result, ['%'], rest, Decoded(str[i + 1..], extract), whole);
          result := result + [str[i]];
        }
      } else if str[i] == '+' {
        DecodedAtChar(str, i, extract, ' ');
        Advance(result, [' '], rest, Decoded(str[i + 1..], extract), whole);
        result := result + [' '];
      } else {
        DecodedAtChar(str, i, extract, str[i]);
        Advance(result, [str[i]], rest, Decoded(str[i + 1..], extract), whole);
        result := result + [str[i]];
      }
      i := i + 1;
    }
    assert result + [] == result;
  }

  /** s with every '+' replaced by a space. */
  function PlusToSpace(s: string): (r: string)
    ensures |r| == |s|
    ensures forall i :: 0 <= i < |s| ==> r[i] == if s[i] == '+' then ' ' else s[i]
  {
    seq(|s|, i requires 0 <= i < |s| => if s[i] == '+' then ' ' else s[i])
  }

  /** Without a '%', decoding only turns '+' into a space. */
  lemma {:induction false} DecodedWithoutEscapes(s: string, extract: HexReader)
    requires '%' !in s
    ensures Decoded(s, extract) == PlusToSpace(s)
    decreases |s|
  {
    if s != [] {
      assert '%' !in s[1..] by {
        assert forall i :: 0 <= i < |s[1..]| ==> s[1..][i] == s[i + 1];
      }
      DecodedWithoutEscapes(s[1..], extract);
      assert Decoded(s, extract) == [PlusToSpace(s)[0]] + PlusToSpace(s[1..]);
    }
  }

  /** A string with neither '%' nor '+' decodes to itself. */
  lemma DecodedIdentity(s: string, extract: HexReader)
    requires '%' !in s && '+' !in s
    ensures Decoded(s, extract) == s
  {
    DecodedWithoutEscapes(s, extract);
  }

  predicate IsHexDigit(c: char)
  {
    '0' <= c <= '9' || 'a' <= c <= 'f' || 'A' <= c <= 'F'
  }

  function HexValue(c: char): (v: nat)
    requires IsHexDigit(c)
    ensures v < 16
  {
    if '0' <= c <= '9' then c as int - '0' as int
    else if 'a' <= c <= 'f' then c as int - 'a' as int + 10
    else c as int - 'A' as int + 10
  }

  /** The byte two hexadecimal digits denote. */
  function HexByte(a: char, b: char): (c: char)
    requires IsHexDigit(a) && IsHexDigit(b)
    ensures c as int < 256
  {
    (HexValue(a) * 16 + HexValue(b)) as char
  }

  /** '%' and two hex digits decode to the byte they denote, all three characters
      consumed, for a reader that reads two hex digits as their value. */
  lemma DecodedEscape(a: char, b: char, rest: string, extract: HexReader)
    requires IsHexDigit(a) && IsHexDigit(b)
    requires extract([a, b]) == Some(HexByte(a, b))
    ensures Decoded(['%', a, b] + rest, extract) == [HexByte(a, b)] + Decoded(rest, extract)
  {
    var s := ['%', a, b] + rest;
    assert s[1..3] == [a, b];
    assert s[3..] == rest;
  }

  /** A '%' with fewer than two characters after it is copied. */
  lemma DecodedShortEscape(s: string, extract: HexReader)
    requires s != [] && s[0] == '%' && |s| <= 2
    ensures Decoded(s, extract) == ['%'] + Decoded(s[1..], extract)
  {
  }

  /** A '%' whose two following characters cannot be read is copied, and decoding goes
      on with the character after it. */
  lemma DecodedFailedEscape(s: string, extract: HexReader)
    requires |s| > 2 && s[0] == '%' && extract(s[1..3]) == None
    ensures Decoded(s, extract) == ['%'] + Decoded(s[1..], extract)
  {
  }

  /** A character that can begin a number for `>> std::hex`: a hex digit, a sign, or the
      white space the stream skips. */
  predicate CanStartHex(c: char)
  {
    IsHexDigit(c) || c == '+' || c == '-' || c == ' ' || c == '\t' || c == '\n' || c == '\r' ||
    c as int == 11 || c as int == 12
  }

  /** What the stream read is known to do on two characters: two hex digits give the byte
      they denote, and a first character that cannot begin a number makes the read fail.
      Other pairs ("4G", " 4", "-1") are left open. */
  ghost predicate HexReads(extract: HexReader)
  {
    && (forall a, b :: IsHexDigit(a) && IsHexDigit(b) ==> extract([a, b]) == Some(HexByte(a, b)))
    && (forall t: string :: |t| == 2 && !CanStartHex(t[0]) ==> extract(t) == None)
  }

  /** A reader that reads exactly the pairs of hex digits. */
  function DigitPairReader(t: string): Option<char>
  {
    if |t| == 2 && IsHexDigit(t[0]) && IsHexDigit(t[1]) then Some(HexByte(t[0], t[1])) else None
  }

  /** Such readers exist: the constraint is satisfiable. */
  lemma DigitPairReaderReads()
    ensures HexReads(DigitPairReader)
  {
    forall a, b | IsHexDigit(a) && IsHexDigit(b)
      ensures DigitPairReader([a, b]) == Some(HexByte(a, b))
    {
      assert [a, b][0] == a && [a, b][1] == b;
    }
  }

  /** Under the stream's rules, '%' and two hex digits become the byte they denote. */
  lemma HexReadsEscape(a: char, b: char, rest: string, extract: HexReader)
    requires HexReads(extract) && IsHexDigit(a) && IsHexDigit(b)
    ensures Decoded(['%', a, b] + rest, extract) == [HexByte(a, b)] + Decoded(rest, extract)
  {
    DecodedEscape(a, b, rest, extract);
  }

  /** Under the stream's rules, a '%' followed by a character that cannot begin a number
      is copied, and decoding goes on with that character. */
  lemma HexReadsNonHex(s: string, extract: HexReader)
    requires HexReads(extract) && |s| > 2 && s[0] == '%' && !CanStartHex(s[1])
    ensures Decoded(s, extract) == ['%'] + Decoded(s[1..], extract)
  {
    assert s[1..3][0] == s[1];
    DecodedFailedEscape(s, extract);
  }

  /** "%zz" is not an escape: it decodes to itself. */
  lemma NonHexEscapeCopied(extract: HexReader)
    requires HexReads(extract)
    ensures Decoded("%zz", extract) == "%zz"
  {
    HexReadsNonHex("%zz", extract);
    assert "%zz"[1..] == "zz";
    DecodedIdentity("zz", extract);
  }

  /** `std::string::find`: the first index of c in s, or |s| when c does not occur. */
  function FirstIndex(s: string, c: char): (k: nat)
    ensures k <= |s|
    ensures k < |s| ==> s[k] == c
    ensures forall i :: 0 <= i < k ==> s[i] != c
  {
    if s == [] then 0 else if s[0] == c then 0 else 1 + FirstIndex(s[1..], c)
  }

  /** The pieces `std::getline(iss, pair, '&')` produces: what lies between the '&'
      separators, except that no empty piece comes after a final '&' or from an empty
      query. */
  function Pieces(query: string): (ps: seq<string>)
  {
    var f := Fields(query, '&');
    if f[|f| - 1] == "" then f[..|f| - 1] else f
  }

  /** A piece `parseQuery` keeps: it contains '='. */
  predicate HasPair(piece: string)
  {
    FirstIndex(piece, '=') < |piece|
  }

  /** The decoded text before the first '='. */
  function PairKey(piece: string, extract: HexReader): string
    requires HasPair(piece)
  {
    Decoded(piece[..FirstIndex(piece, '=')], extract)
  }

  /** The decoded text after the first '=' (it may contain further '='). */
  function PairValue(piece: string, extract: HexReader): string
    requires HasPair(piece)
  {
    Decoded(piece[FirstIndex(piece, '=') + 1..], extract)
  }

  /** Reference definition of `parseQuery` over its pieces: each piece with a '=' sets its
      key to its value, overwriting what earlier pieces set. */
  function Params(pieces: seq<string>, extract: HexReader): map<string, string>
  {
    if pieces == [] then map[]
    else
      var m := Params(pieces[..|pieces| - 1], extract);
      var p := pieces[|pieces| - 1];
      if HasPair(p) then m[PairKey(p, extract) := PairValue(p, extract)] else m
  }

  /** `parseQuery`: the getline loop that inserts into `params`. */
  method ParseQuery(query: string, extract: HexReader) returns (params: map<string, string>)
    ensures params == Params(Pieces(query), extract)
  {
    var pieces := Pieces(query);
    params := map[];
    for i := 0 to |pieces|
      invariant params == Params(pieces[..i], extract)
    {
      var pair := pieces[i];
      ParamsStep(pieces, i, extract);
      var pos := FirstIndex(pair, '=');
      if pos < |pair| {
        var key := UrlDecode(pair[..pos], extract);
        var value := UrlDecode(pair[pos + 1..], extract);
        params := params[key := value];
      }
    }
    assert pieces[..|pieces|] == pieces;
  }

  /** One step of the getline loop: piece i sets its key when it has a '='. */
  lemma ParamsStep(pieces: seq<string>, i: nat, extract: HexReader)
    requires i < |pieces|
    ensures Params(pieces[..i + 1], extract) ==
      if HasPair(pieces[i]) then Params(pieces[..i], extract)[PairKey(pieces[i], extract) := PairValue(pieces[i], extract)]
      else Params(pieces[..i], extract)
  {
    assert pieces[..i + 1][..i] == pieces[..i];
  }

  /** The keys are exactly the decoded keys of the pieces that contain '='. */
  lemma {:induction false} ParamsKeys(pieces: seq<string>, extract: HexReader, k: string)
    ensures k in Params(pieces, extract) <==>
      exists i :: 0 <= i < |pieces| && HasPair(pieces[i]) && PairKey(pieces[i], extract) == k
  {
    if pieces != [] {
      var init := pieces[..|pieces| - 1];
      ParamsKeys(init, extract, k);
      if k in Params(init, extract) {
        var i :| 0 <= i < |init| && HasPair(init[i]) && PairKey(init[i], extract) == k;
        assert pieces[i] == init[i];
      }
      if exists i :: 0 <= i < |pieces| && HasPair(pieces[i]) && PairKey(pieces[i], extract) == k {
        var i :| 0 <= i < |pieces| && HasPair(pieces[i]) && PairKey(pieces[i], extract) == k;
        if i < |init| {
          assert init[i] == pieces[i];
        }
      }
    }
  }

  /** A later duplicate key overwrites an earlier one: the value of a key is that of the
      last piece that sets it. */
  lemma {:induction false} ParamsLastWins(pieces: seq<string>, extract: HexReader, i: nat)
    requires i < |pieces| && HasPair(pieces[i])
    requires forall j :: i < j < |pieces| && HasPair(pieces[j]) ==> PairKey(pieces[j], extract) != PairKey(pieces[i], extract)
    ensures PairKey(pieces[i], extract) in Params(pieces, extract)
    ensures Params(pieces, extract)[PairKey(pieces[i], extract)] == PairValue(pieces[i], extract)
  {
    if i < |pieces| - 1 {
      var init := pieces[..|pieces| - 1];
      assert init[i] == pieces[i];
      ParamsLastWins(init, extract, i);
    }
  }

  /** The query "a=b=c" sets a to "b=c": the split is at the first '='. */
  lemma ParamsFirstEquals(extract: HexReader)
    ensures Params(["a=b=c"], extract) == map["a" := "b=c"]
  {
    var p := "a=b=c";
    assert FirstIndex(p, '=') == 1;
    assert p[..1] == "a" && p[2..] == "b=c";
    DecodedIdentity("a", extract);
    DecodedIdentity("b=c", extract);
    assert [p][..0] == [];
  }

  predicate StartsWith(s: string, prefix: string)
  {
    |prefix| <= |s| && s[..|prefix|] == prefix
  }

  predicate EndsWith(s: string, suffix: string)
  {
    |suffix| <= |s| && s[|s| - |suffix|..] == suffix
  }

  /** `getContentType`: the suffix checks in the source's order, case-sensitive. */
  function ContentType(path: string): string
  {
    if EndsWith(path, ".html") then "text/html"
    else if EndsWith(path, ".css") then "text/css"
    else if EndsWith(path, ".js") then "application/javascript"
    else if EndsWith(path, ".json") then "application/json"
    else if EndsWith(path, ".png") then "image/png"
    else if EndsWith(path, ".jpg") || EndsWith(path, ".jpeg") then "image/jpeg"
    else "text/plain"
  }

  /** The recognised suffixes and their types. */
  const ContentTypes: seq<(string, string)> :=
    [(".html", "text/html"), (".css", "text/css"), (".js", "application/javascript"),
     (".json", "application/json"), (".png", "image/png"), (".jpg", "image/jpeg"),
     (".jpeg", "image/jpeg")]

  lemma EndsWithChar(s: string, suffix: string, k: nat)
    requires EndsWith(s, suffix) && k < |suffix|
    ensures s[|s| - 1 - k] == suffix[|suffix| - 1 - k]
  {
    assert s[|s| - |suffix|..][|suffix| - 1 - k] == s[|s| - 1 - k];
  }

  /** A path ending in one of the suffixes gets that suffix's type: no path ends in two
      of them, so the order of the checks does not matter. */
  lemma ContentTypeOfSuffix(path: string, i: nat)
    requires i < |ContentTypes| && EndsWith(path, ContentTypes[i].0)
    ensures ContentType(path) == ContentTypes[i].1
  {
    var suffix := ContentTypes[i].0;
    EndsWithChar(path, suffix, 0);
    EndsWithChar(path, suffix, 1);
    if EndsWith(path, ".html") { EndsWithChar(path, ".html", 0); }
    if EndsWith(path, ".css") { EndsWithChar(path, ".css", 0); EndsWithChar(path, ".css", 1); }
    if EndsWith(path, ".js") { EndsWithChar(path, ".js", 0); EndsWithChar(path, ".js", 1); }
    if EndsWith(path, ".json") { EndsWithChar(path, ".json", 0); }
    if EndsWith(path, ".png") { EndsWithChar(path, ".png", 0); EndsWithChar(path, ".png", 1); }
    if EndsWith(path, ".jpg") { EndsWithChar(path, ".jpg", 0); EndsWithChar(path, ".jpg", 1); }
    if EndsWith(path, ".jpeg") { EndsWithChar(path, ".jpeg", 0); EndsWithChar(path, ".jpeg", 1); }
  }

  /** Anything without one of the suffixes is plain text, and plain text is given
      only to such paths. */
  lemma ContentTypePlain(path: string)
    ensures ContentType(path) == "text/plain" <==>
      forall i :: 0 <= i < |ContentTypes| ==> !EndsWith(path, ContentTypes[i].0)
  {
    if exists i :: 0 <= i < |ContentTypes| && EndsWith(path, ContentTypes[i].0) {
      var i :| 0 <= i < |ContentTypes| && EndsWith(path, ContentTypes[i].0);
      ContentTypeOfSuffix(path, i);
    } else {
      assert !EndsWith(path, ContentTypes[0].0) && !EndsWith(path, ContentTypes[1].0);
      assert !EndsWith(path, ContentTypes[2].0) && !EndsWith(path, ContentTypes[3].0);
      assert !EndsWith(path, ContentTypes[4].0) && !EndsWith(path, ContentTypes[5].0);
      assert !EndsWith(path, ContentTypes[6].0);
    }
  }

  /** The suffix checks are case-sensitive. */
  lemma ContentTypeCaseSensitive()
    ensures ContentType("/index.HTML") == "text/plain"
    ensures ContentType("/index.html") == "text/html"
  {
    assert "/index.HTML"[6..] == ".HTML";
    assert "/index.HTML"[7..] == "HTML";
    assert "/index.HTML"[8..] == "TML";
    assert "/index.html"[6..] == ".html";
  }

  /** What `handleRequest` does with a request path. */
  datatype Route = Api(endpoint: string, query: string) | Static(path: string)

  /** The routing split of `handleRequest`: a path starting with "/api/" is an API call
      whose endpoint is the text before the first '?' and whose query is the text after
      it ("" without a '?'); any other path is a static file, "/" meaning "/index.html". */
  function RouteOf(path: string): Route
  {
    if StartsWith(path, "/api/") then
      var q := FirstIndex(path, '?');
      if q < |path| then Api(path[..q], path[q + 1..]) else Api(path, "")
    else Static(if path == "/" then "/index.html" else path)
  }

  /** An API route keeps the whole path: endpoint, then '?' and the query when the path
      has a '?'. The endpoint has no '?' and still starts with "/api/". */
  lemma RouteOfApi(path: string)
    requires StartsWith(path, "/api/")
    ensures RouteOf(path).Api?
    ensures '?' !in RouteOf(path).endpoint
    ensures StartsWith(RouteOf(path).endpoint, "/api/")
    ensures '?' in path ==> path == RouteOf(path).endpoint + "?" + RouteOf(path).query
    ensures '?' !in path ==> RouteOf(path).endpoint == path && RouteOf(path).query == ""
  {
    var q := FirstIndex(path, '?');
    assert forall i :: 0 <= i < 5 ==> path[i] == "/api/"[i];
    if q < |path| {
      assert path == path[..q] + "?" + path[q + 1..];
      assert path[..q][..5] == path[..5];
    } else {
      assert forall i :: 0 <= i < |path| ==> path[i] != '?';
    }
  }

  /** A path is served as a static file exactly when it does not start with "/api/", and
      the file served is never "/" itself. */
  lemma RouteOfKind(path: string)
    ensures RouteOf(path).Static? <==> !StartsWith(path, "/api/")
    ensures RouteOf(path).Static? ==> RouteOf(path).path != "/"
  {
  }

  /** Every other path is served as a static file, "/" as "/index.html". */
  lemma RouteOfStatic(path: string)
    requires !StartsWith(path, "/api/")
    ensures RouteOf(path) == Static(if path == "/" then "/index.html" else path)
    ensures RouteOf("/") == Static("/index.html")
  {
    assert !StartsWith("/", "/api/");
  }

  /** The years of each country, as the `/api/countries` branch of `handleAPIRequest`
      collects them into a `std::map<std::string, std::set<int>>`. */
  function CountryYearsOf(rs: seq<Record>): map<string, set<int>>
  {
    if rs == [] then map[]
    else
      var m := CountryYearsOf(rs[..|rs| - 1]);
      var r := rs[|rs| - 1];
      m[r.country := (if r.country in m then m[r.country] else {}) + {r.year}]
  }

  /** The collecting loop of the `/api/countries` branch. */
  method CountryYears(data: ElectionData) returns (countryYears: map<string, set<int>>)
    ensures countryYears == CountryYearsOf(data.records)
  {
    var records := data.GetAllRecords();
    countryYears := map[];
    for i := 0 to |records|
      invariant countryYears == CountryYearsOf(records[..i])
    {
      assert records[..i + 1][..i] == records[..i];
      var record := records[i];
      var years := if record.country in countryYears then countryYears[record.country] else {};
      countryYears := countryYears[record.country := years + {record.year}];
    }
    assert records[..|records|] == records;
  }

  /** Every country of the records is a key, and each key holds exactly the years of
      that country's records. */
  lemma {:induction false} CountryYearsProperties(rs: seq<Record>)
    ensures CountryYearsOf(rs).Keys == set r | r in rs :: r.country
    ensures forall c :: c in CountryYearsOf(rs) ==>
      CountryYearsOf(rs)[c] == set r | r in rs && r.country == c :: r.year
  {
    if rs != [] {
      var init, last := rs[..|rs| - 1], rs[|rs| - 1];
      CountryYearsProperties(init);
      assert rs == init + [last];
      forall c | c in CountryYearsOf(rs)
        ensures CountryYearsOf(rs)[c] == set r | r in rs && r.country == c :: r.year
      {
        if c == last.country {
          assert (set r | r in rs && r.country == c :: r.year)
              == (set r | r in init && r.country == c :: r.year) + {last.year};
        } else {
          assert (set r | r in rs && r.country == c :: r.year)
              == (set r | r in init && r.country == c :: r.year);
        }
      }
    }
  }

  function IntLess(a: int, b: int): bool
  {
    a < b
  }

  lemma IntLessOrder()
    ensures StrictTotalOrder(IntLess)
  {
  }

  lemma StrLessOrder()
    ensures StrictTotalOrder(StrLess)
  {
    forall a ensures !StrLess(a, a) {
      StrLessIrreflexive(a);
    }
    forall a, b, c | StrLess(a, b) && StrLess(b, c) ensures StrLess(a, c) {
      StrLessTransitive(a, b, c);
    }
    forall a, b | a != b ensures StrLess(a, b) || StrLess(b, a) {
      StrLessTotal(a, b);
    }
  }

  /** The listing the `/api/countries` JSON writes: the countries in the map's ascending
      key order, each with its years in the set's ascending order. */
  ghost function CountryListing(m: map<string, set<int>>): seq<(string, seq<int>)>
  {
    StrLessOrder();
    IntLessOrder();
    var names := SortedElements(m.Keys, StrLess);
    SortedElementsProperties(m.Keys, StrLess);
    seq(|names|, i requires 0 <= i < |names| => (names[i], SortedElements(m[names[i]], IntLess)))
  }

  /** Each entry of the listing is a key of the map with its set's elements in
      ascending order. */
  lemma ListingEntry(m: map<string, set<int>>, i: nat)
    requires i < |CountryListing(m)|
    ensures var e := CountryListing(m)[i];
      e.0 in m && StrictlyAscending(e.1, IntLess) && (set y | y in e.1) == m[e.0]
  {
    StrLessOrder();
    IntLessOrder();
    var names := SortedElements(m.Keys, StrLess);
    SortedElementsProperties(m.Keys, StrLess);
    assert CountryListing(m)[i] == (names[i], SortedElements(m[names[i]], IntLess));
    assert names[i] in (set x | x in names);
    SortedElementsProperties(m[names[i]], IntLess);
  }

  /** The listing names each key of the map once, in ascending order. */
  lemma ListingNames(m: map<string, set<int>>)
    ensures var l := CountryListing(m);
      && (set i | 0 <= i < |l| :: l[i].0) == m.Keys
      && (forall i, j :: 0 <= i < j < |l| ==> StrLess(l[i].0, l[j].0))
  {
    StrLessOrder();
    var names := SortedElements(m.Keys, StrLess);
    SortedElementsProperties(m.Keys, StrLess);
    var l := CountryListing(m);
    assert |l| == |names| && forall i :: 0 <= i < |l| ==> l[i].0 == names[i];
    FirstsOf(l, names);
  }

  /** The first components of a list of pairs, as a set, when they are the elements of
      names in order. */
  lemma FirstsOf<A, B>(l: seq<(A, B)>, names: seq<A>)
    requires |l| == |names| && forall i :: 0 <= i < |l| ==> l[i].0 == names[i]
    ensures (set i | 0 <= i < |l| :: l[i].0) == (set x | x in names)
  {
    forall x | x in names
      ensures x in (set i | 0 <= i < |l| :: l[i].0)
    {
      var i :| 0 <= i < |names| && names[i] == x;
      assert l[i].0 == x;
    }
  }

  /** The listing names each key of the map once, in ascending order, each with the
      elements of its set in ascending order. */
  lemma ListingProperties(m: map<string, set<int>>)
    ensures var l := CountryListing(m);
      && (set i | 0 <= i < |l| :: l[i].0) == m.Keys
      && (forall i, j :: 0 <= i < j < |l| ==> StrLess(l[i].0, l[j].0))
      && (forall i :: 0 <= i < |l| ==>
            l[i].0 in m && StrictlyAscending(l[i].1, IntLess) && (set y | y in l[i].1) == m[l[i].0])
  {
    ListingNames(m);
    var l := CountryListing(m);
    forall i | 0 <= i < |l|
      ensures l[i].0 in m && StrictlyAscending(l[i].1, IntLess) && (set y | y in l[i].1) == m[l[i].0]
    {
      ListingEntry(m, i);
    }
  }

  /** The `/api/countries` listing names each country of the records once, in ascending
      order, each with the distinct years of its records in ascending order. */
  lemma CountryListingProperties(rs: seq<Record>)
    ensures var l := CountryListing(CountryYearsOf(rs));
      && (set i | 0 <= i < |l| :: l[i].0) == (set r | r in rs :: r.country)
      && (forall i, j :: 0 <= i < j < |l| ==> StrLess(l[i].0, l[j].0))
      && (forall i :: 0 <= i < |l| ==>
            StrictlyAscending(l[i].1, IntLess) &&
            (set y | y in l[i].1) == (set r | r in rs && r.country == l[i].0 :: r.year))
  {
    CountryYearsProperties(rs);
    ListingProperties(CountryYearsOf(rs));
  }
}
