/** The CSV loader of src/CSVReader.cpp: splitting on a delimiter, trimming white space,
    reading digits as a decimal number, parsing one line into a record, and the line
    loop of `readFromFile` over an already opened file's lines. */
module Csv {
  import opened Records
  import opened Store

  datatype Option<T> = None | Some(value: T)

  /** Number of occurrences of d in s. */
  function Occurrences(s: string, d: char): nat
  {
    if s == [] then 0 else Occurrences(s[..|s| - 1], d) + (if s[|s| - 1] == d then 1 else 0)
  }

  /** Reference definition of `split`: the pieces of s between occurrences of d, built
      from the left as the source's loop does (a delimiter closes the current piece, any
      other character extends it, and the last piece is always added). */
  function Fields(s: string, d: char): (ts: seq<string>)
    ensures |ts| == Occurrences(s, d) + 1
  {
    if s == [] then [""]
    else
      var init := Fields(s[..|s| - 1], d);
      var c := s[|s| - 1];
      if c == d then init + [""] else init[..|init| - 1] + [init[|init| - 1] + [c]]
  }

  /** The pieces joined back together with d between neighbours. */
  function Join(ts: seq<string>, d: char): string
  {
    if ts == [] then ""
    else if |ts| == 1 then ts[0]
    else Join(ts[..|ts| - 1], d) + [d] + ts[|ts| - 1]
  }

  /** No piece contains the delimiter. */
  lemma {:induction false} FieldsHaveNoDelimiter(s: string, d: char)
    ensures forall i :: 0 <= i < |Fields(s, d)| ==> d !in Fields(s, d)[i]
  {
    if s != [] {
      FieldsHaveNoDelimiter(s[..|s| - 1], d);
    }
  }

  /** Joining the pieces with the delimiter gives back the original string. */
  lemma {:induction false} JoinFields(s: string, d: char)
    ensures Join(Fields(s, d), d) == s
  {
    if s != [] {
      var s', c := s[..|s| - 1], s[|s| - 1];
      var f := Fields(s', d);
      JoinFields(s', d);
      assert s == s' + [c];
      if c == d {
        assert Fields(s, d)[..|f|] == f;
      } else if |f| == 1 {
        assert Fields(s, d) == [f[0] + [c]];
      } else {
        var g := Fields(s, d);
        assert g[..|g| - 1] == f[..|f| - 1];
        assert Join(f, d) == Join(f[..|f| - 1], d) + [d] + f[|f| - 1];
      }
    }
  }

  /** Appending text without the delimiter only extends the last piece. */
  lemma {:induction false} FieldsExtend(x: string, y: string, d: char)
    requires d !in y
    ensures Fields(x + y, d) == Fields(x, d)[..|Fields(x, d)| - 1] + [Fields(x, d)[|Fields(x, d)| - 1] + y]
    decreases |y|
  {
    var f := Fields(x, d);
    if y == [] {
      assert x + y == x;
      assert f[|f| - 1] + y == f[|f| - 1];
      assert f == f[..|f| - 1] + [f[|f| - 1]];
    } else {
      var y', c := y[..|y| - 1], y[|y| - 1];
      assert c in y;
      assert x + y == (x + y') + [c];
      assert (x + y)[..|x + y| - 1] == x + y';
      var g := Fields(x + y', d);
      assert g == f[..|f| - 1] + [f[|f| - 1] + y'] by {
        FieldsExtend(x, y', d);
      }
      assert g[..|g| - 1] == f[..|f| - 1];
      assert g[|g| - 1] + [c] == f[|f| - 1] + y;
    }
  }

  /** Splitting joined pieces none of which contains the delimiter gives the pieces back. */
  lemma {:induction false} FieldsJoin(ts: seq<string>, d: char)
    requires |ts| >= 1
    requires forall i :: 0 <= i < |ts| ==> d !in ts[i]
    ensures Fields(Join(ts, d), d) == ts
  {
    if |ts| == 1 {
      var e: string := [];
      FieldsExtend(e, ts[0], d);
      assert e + ts[0] == ts[0];
      assert Fields(e, d) == [""];
      assert "" + ts[0] == ts[0];
    } else {
      var ts', t := ts[..|ts| - 1], ts[|ts| - 1];
      assert ts == ts' + [t];
      FieldsJoin(ts', d);
      FieldsJoinStep(ts', t, d);
    }
  }

  /** Joining one more piece without the delimiter adds that piece to the split. */
  lemma FieldsJoinStep(ts: seq<string>, t: string, d: char)
    requires |ts| >= 1 && d !in t && Fields(Join(ts, d), d) == ts
    ensures Fields(Join(ts + [t], d), d) == ts + [t]
  {
    var x := Join(ts, d) + [d];
    assert Fields(x, d) == ts + [""] by {
      assert x[..|x| - 1] == Join(ts, d);
    }
    FieldsExtend(x, t, d);
    assert (ts + [""])[..|ts|] == ts;
    assert "" + t == t;
    assert (ts + [t])[..|ts|] == ts;
    assert Join(ts + [t], d) == x + t;
  }

  /** `split`: the token loop over the characters of str. */
  method Split(str: string, delimiter: char) returns (tokens: seq<string>)
    ensures tokens == Fields(str, delimiter)
    ensures |tokens| == Occurrences(str, delimiter) + 1
  {
    tokens := [];
    var token := "";
    for i := 0 to |str|
      invariant tokens + [token] == Fields(str[..i], delimiter)
    {
      assert str[..i + 1][..i] == str[..i];
      if str[i] == delimiter {
        tokens := tokens + [token];
        token := "";
      } else {
        token := token + [str[i]];
      }
    }
    assert str[..|str|] == str;
    tokens := tokens + [token];
  }

  /** The white space `trim` removes: space, tab, carriage return and line feed. */
  predicate IsSpace(c: char)
  {
    c == ' ' || c == '\t' || c == '\r' || c == '\n'
  }

  /** s without its leading white space. */
  function TrimStart(s: string): (t: string)
    ensures |t| <= |s|
  {
    if s != [] && IsSpace(s[0]) then TrimStart(s[1..]) else s
  }

  /** s without its trailing white space. */
  function TrimEnd(s: string): (t: string)
    ensures |t| <= |s|
  {
    if s != [] && IsSpace(s[|s| - 1]) then TrimEnd(s[..|s| - 1]) else s
  }

  /** Reference definition of `trim`. */
  function Trimmed(s: string): string
  {
    TrimEnd(TrimStart(s))
  }

  lemma {:induction false} TrimStartAt(s: string, n: nat)
    requires n <= |s|
    requires forall k :: 0 <= k < n ==> IsSpace(s[k])
    requires n == |s| || !IsSpace(s[n])
    ensures TrimStart(s) == s[n..]
  {
    if n > 0 {
      TrimStartAt(s[1..], n - 1);
      assert s[1..][n - 1..] == s[n..];
    }
  }

  lemma {:induction false} TrimEndAt(s: string, n: nat)
    requires n <= |s|
    requires forall k :: n <= k < |s| ==> IsSpace(s[k])
    requires n == 0 || !IsSpace(s[n - 1])
    ensures TrimEnd(s) == s[..n]
    decreases |s|
  {
    if n < |s| {
      TrimEndAt(s[..|s| - 1], n);
      assert s[..|s| - 1][..n] == s[..n];
    }
  }

  /** `trim`: `start` moves right past leading white space, `end` left past trailing
      white space, and the text between them is kept. */
  method Trim(str: string) returns (t: string)
    ensures t == Trimmed(str)
  {
    var start := 0;
    var end := |str| - 1;
    while start < |str| && IsSpace(str[start])
      invariant 0 <= start <= |str|
      invariant forall k :: 0 <= k < start ==> IsSpace(str[k])
    {
      start := start + 1;
    }
    while end >= 0 && IsSpace(str[end])
      invariant -1 <= end < |str|
      invariant forall k :: end < k < |str| ==> IsSpace(str[k])
    {
      end := end - 1;
    }
    TrimStartAt(str, start);
    var rest := str[start..];
    if start > end {
      TrimEndAt(rest, 0);
      t := "";
    } else {
      TrimEndAt(rest, end + 1 - start);
      assert rest[..end + 1 - start] == str[start..end + 1];
      t := str[start..end + 1];
    }
  }

  lemma {:induction false} TrimStartIsSuffix(s: string)
    ensures TrimStart(s) == s[|s| - |TrimStart(s)|..]
  {
    if s != [] && IsSpace(s[0]) {
      TrimStartIsSuffix(s[1..]);
    }
  }

  lemma {:induction false} TrimEndIsPrefix(s: string)
    ensures TrimEnd(s) == s[..|TrimEnd(s)|]
  {
    if s != [] && IsSpace(s[|s| - 1]) {
      TrimEndIsPrefix(s[..|s| - 1]);
    }
  }

  /** The trimmed string is a contiguous piece of s. */
  lemma TrimmedIsSlice(s: string) returns (i: nat, j: nat)
    ensures i <= j <= |s| && Trimmed(s) == s[i..j]
  {
    var a := TrimStart(s);
    TrimStartIsSuffix(s);
    TrimEndIsPrefix(a);
    i := |s| - |a|;
    j := i + |TrimEnd(a)|;
    assert a == s[i..];
    assert TrimEnd(a) == a[..j - i];
  }

  lemma {:induction false} TrimStartEnds(s: string)
    ensures TrimStart(s) != [] ==> !IsSpace(TrimStart(s)[0])
  {
    if s != [] && IsSpace(s[0]) {
      TrimStartEnds(s[1..]);
    }
  }

  lemma {:induction false} TrimEndEnds(s: string)
    ensures TrimEnd(s) != [] ==> !IsSpace(TrimEnd(s)[|TrimEnd(s)| - 1])
  {
    if s != [] && IsSpace(s[|s| - 1]) {
      TrimEndEnds(s[..|s| - 1]);
    }
  }

  /** Neither end of a trimmed string is white space. */
  lemma TrimmedEnds(s: string)
    ensures Trimmed(s) != [] ==> !IsSpace(Trimmed(s)[0]) && !IsSpace(Trimmed(s)[|Trimmed(s)| - 1])
  {
    var a := TrimStart(s);
    TrimStartEnds(s);
    TrimEndEnds(a);
    TrimEndIsPrefix(a);
    if Trimmed(s) != [] {
      assert Trimmed(s)[0] == a[0];
    }
  }

  /** A string of white space only, the empty string included, trims to "". */
  lemma TrimmedAllSpace(s: string)
    requires forall k :: 0 <= k < |s| ==> IsSpace(s[k])
    ensures Trimmed(s) == ""
  {
    TrimStartAt(s, |s|);
  }

  /** A string is left unchanged by trimming exactly when neither end is white space. */
  lemma TrimmedUnchanged(s: string)
    ensures Trimmed(s) == s <==> s == [] || (!IsSpace(s[0]) && !IsSpace(s[|s| - 1]))
  {
    if s != [] && !IsSpace(s[0]) && !IsSpace(s[|s| - 1]) {
      TrimStartAt(s, 0);
      TrimEndAt(s, |s|);
    }
    TrimmedEnds(s);
  }

  /** Trimming twice is trimming once. */
  lemma TrimmedIdempotent(s: string)
    ensures Trimmed(Trimmed(s)) == Trimmed(s)
  {
    TrimmedUnchanged(Trimmed(s));
    TrimmedEnds(s);
  }

  predicate IsDigit(c: char)
  {
    '0' <= c <= '9'
  }

  function DigitValue(c: char): int
  {
    c as int - '0' as int
  }

  /** Reference definition of `stringToInt`: the decimal value of the digits of s, read
      from the left, every other character skipped. */
  function IntValue(s: string): nat
  {
    if s == [] then 0
    else
      var c := s[|s| - 1];
      if IsDigit(c) then IntValue(s[..|s| - 1]) * 10 + DigitValue(c) else IntValue(s[..|s| - 1])
  }

  /** The digits of s, in order. */
  function Digits(s: string): (ds: string)
    ensures forall i :: 0 <= i < |ds| ==> IsDigit(ds[i])
  {
    if s == [] then [] else Digits(s[..|s| - 1]) + (if IsDigit(s[|s| - 1]) then [s[|s| - 1]] else [])
  }

  /** Only the digit subsequence matters. */
  lemma {:induction false} IntValueOfDigits(s: string)
    ensures IntValue(s) == IntValue(Digits(s))
  {
    if s != [] {
      var s', c := s[..|s| - 1], s[|s| - 1];
      IntValueOfDigits(s');
      if IsDigit(c) {
        assert (Digits(s') + [c])[..|Digits(s')|] == Digits(s');
      } else {
        assert Digits(s) == Digits(s');
      }
    }
  }

  /** A string without digits reads as 0. */
  lemma {:induction false} IntValueNoDigits(s: string)
    requires forall i :: 0 <= i < |s| ==> !IsDigit(s[i])
    ensures IntValue(s) == 0
  {
    if s != [] {
      IntValueNoDigits(s[..|s| - 1]);
    }
  }

  /** The decimal numeral of n, without leading zeros. */
  function Decimal(n: nat): (s: string)
    ensures |s| >= 1 && forall i :: 0 <= i < |s| ==> IsDigit(s[i])
  {
    var c := ('0' as int + n % 10) as char;
    if n < 10 then [c] else Decimal(n / 10) + [c]
  }

  /** Reading a numeral gives back its number. */
  lemma {:induction false} IntValueOfDecimal(n: nat)
    ensures IntValue(Decimal(n)) == n
  {
    var c := ('0' as int + n % 10) as char;
    if n < 10 {
      assert Decimal(n)[..0] == [];
    } else {
      IntValueOfDecimal(n / 10);
      assert Decimal(n)[..|Decimal(n)| - 1] == Decimal(n / 10);
    }
  }

  /** `stringToInt`: the accumulator loop over all characters. The source's 32-bit
      overflow is not modelled. */
  method StringToInt(str: string) returns (result: int)
    ensures result == IntValue(str)
    ensures result >= 0
  {
    result := 0;
    for i := 0 to |str|
      invariant result == IntValue(str[..i])
    {
      assert str[..i + 1][..i] == str[..i];
      if IsDigit(str[i]) {
        result := result * 10 + DigitValue(str[i]);
      }
    }
    assert str[..|str|] == str;
  }

  /** The spellings of "elected" that `parseLine` accepts. */
  predicate IsYes(s: string)
  {
    s == "Yes" || s == "yes" || s == "YES"
  }

  /** Reference definition of `parseLine` on a line with at least seven fields: fields
      0 to 6 trimmed, the year and the votes read as numbers; later fields are ignored. */
  function ParsedRecord(line: string): Record
    requires Occurrences(line, ',') >= 6
  {
    var f := Fields(line, ',');
    Record(Trimmed(f[0]), IntValue(Trimmed(f[1])), Trimmed(f[2]), Trimmed(f[3]),
           Trimmed(f[4]), IntValue(Trimmed(f[5])), IsYes(Trimmed(f[6])))
  }

  /** `parseLine`. The source reads tokens 0 to 6 without checking that they exist, so a
      line with fewer than six commas is outside its domain. */
  method ParseLine(line: string) returns (record: Record)
    requires Occurrences(line, ',') >= 6
    ensures record == ParsedRecord(line)
    ensures record.elected <==> IsYes(Trimmed(Fields(line, ',')[6]))
    ensures record.year >= 0 && record.votes >= 0
  {
    var tokens := Split(line, ',');
    var country := Trim(tokens[0]);
    var yearText := Trim(tokens[1]);
    var year := StringToInt(yearText);
    var constituency := Trim(tokens[2]);
    var candidate := Trim(tokens[3]);
    var party := Trim(tokens[4]);
    var votesText := Trim(tokens[5]);
    var votes := StringToInt(votesText);
    var electedStr := Trim(tokens[6]);
    record := Record(country, year, constituency, candidate, party, votes, IsYes(electedStr));
  }

  /** A text field that survives the CSV round trip: no comma and no white space at
      either end. */
  predicate PlainField(s: string)
  {
    ',' !in s && (s == [] || (!IsSpace(s[0]) && !IsSpace(s[|s| - 1])))
  }

  /** A record written as one line of the file format, elected written "Yes" or "No". */
  function FormatLine(r: Record): string
    requires r.year >= 0 && r.votes >= 0
  {
    Join([r.country, Decimal(r.year), r.constituency, r.candidate, r.party, Decimal(r.votes),
          if r.elected then "Yes" else "No"], ',')
  }

  lemma DecimalIsPlain(n: nat)
    ensures PlainField(Decimal(n))
  {
    var s := Decimal(n);
    assert forall i :: 0 <= i < |s| ==> s[i] != ',';
    assert !IsSpace(s[0]) && !IsSpace(s[|s| - 1]) by {
      assert IsDigit(s[0]) && IsDigit(s[|s| - 1]);
    }
  }

  /** A plain field is its own trimming. */
  lemma PlainTrimmed(s: string)
    requires PlainField(s)
    ensures ',' !in s && Trimmed(s) == s
  {
    TrimmedUnchanged(s);
  }

  /** A number written in decimal is a plain field that reads back as the number. */
  lemma DecimalField(n: nat)
    ensures ',' !in Decimal(n) && Trimmed(Decimal(n)) == Decimal(n) && IntValue(Trimmed(Decimal(n))) == n
  {
    DecimalIsPlain(n);
    PlainTrimmed(Decimal(n));
    IntValueOfDecimal(n);
  }

  /** The elected flag written "Yes" or "No" is a plain field that reads back as the flag. */
  lemma ElectedField(elected: bool)
    ensures var e := if elected then "Yes" else "No";
      ',' !in e && Trimmed(e) == e && IsYes(Trimmed(e)) == elected
  {
    var e := if elected then "Yes" else "No";
    PlainTrimmed(e);
  }

  /** Parsing a formatted record gives the record back, when its text fields are plain. */
  lemma ParseFormatLine(r: Record)
    requires r.year >= 0 && r.votes >= 0
    requires PlainField(r.country) && PlainField(r.constituency) && PlainField(r.candidate) && PlainField(r.party)
    ensures Occurrences(FormatLine(r), ',') >= 6
    ensures ParsedRecord(FormatLine(r)) == r
  {
    var e := if r.elected then "Yes" else "No";
    var ts := [r.country, Decimal(r.year), r.constituency, r.candidate, r.party, Decimal(r.votes), e];
    PlainTrimmed(r.country);
    PlainTrimmed(r.constituency);
    PlainTrimmed(r.candidate);
    PlainTrimmed(r.party);
    DecimalField(r.year);
    DecimalField(r.votes);
    ElectedField(r.elected);
    FormatFields(FormatLine(r), ts);
    ParsedFromFields(FormatLine(r), ts);
  }

  /** Seven pieces without the delimiter, joined, split back into those pieces. */
  lemma FormatFields(line: string, ts: seq<string>)
    requires |ts| == 7 && line == Join(ts, ',')
    requires forall i :: 0 <= i < |ts| ==> ',' !in ts[i]
    ensures Fields(line, ',') == ts
  {
    FieldsJoin(ts, ',');
  }

  lemma ParsedFromFields(line: string, ts: seq<string>)
    requires Fields(line, ',') == ts && |ts| == 7
    ensures Occurrences(line, ',') >= 6
    ensures ParsedRecord(line) == Record(Trimmed(ts[0]), IntValue(Trimmed(ts[1])), Trimmed(ts[2]), Trimmed(ts[3]),
                                         Trimmed(ts[4]), IntValue(Trimmed(ts[5])), IsYes(Trimmed(ts[6])))
  {
  }

  /** Every line the loop parses (all but the first one, and not the empty ones) has
      the seven fields `parseLine` reads. */
  predicate Parsable(lines: seq<string>)
  {
    lines == [] || BodyParsable(lines[1..])
  }

  /** Every non-empty line of body has seven fields. */
  predicate BodyParsable(body: seq<string>)
  {
    forall i :: 0 <= i < |body| && body[i] != "" ==> Occurrences(body[i], ',') >= 6
  }

  /** The records of the non-empty lines of body, one per line, in order. */
  function RecordsOf(body: seq<string>): (rs: seq<Record>)
    requires BodyParsable(body)
    ensures |rs| <= |body|
  {
    if body == [] then []
    else
      var last := body[|body| - 1];
      RecordsOf(body[..|body| - 1]) + (if last == "" then [] else [ParsedRecord(last)])
  }

  /** The records the line loop of `readFromFile` appends: the first line is a header
      and is skipped whatever it holds. */
  function LoadedRecords(lines: seq<string>): seq<Record>
    requires Parsable(lines)
  {
    if lines == [] then [] else RecordsOf(lines[1..])
  }

  function FormatLines(rs: seq<Record>): (lines: seq<string>)
    requires forall i :: 0 <= i < |rs| ==> rs[i].year >= 0 && rs[i].votes >= 0
    ensures |lines| == |rs|
  {
    seq(|rs|, i requires 0 <= i < |rs| => FormatLine(rs[i]))
  }

  /** A file of a header line and one formatted line per record loads back exactly
      those records, in order. */
  lemma {:induction false} LoadFormattedLines(header: string, rs: seq<Record>)
    requires forall i :: 0 <= i < |rs| ==> rs[i].year >= 0 && rs[i].votes >= 0
    requires forall i :: 0 <= i < |rs| ==>
      PlainField(rs[i].country) && PlainField(rs[i].constituency) && PlainField(rs[i].candidate) && PlainField(rs[i].party)
    ensures Parsable([header] + FormatLines(rs))
    ensures LoadedRecords([header] + FormatLines(rs)) == rs
  {
    var body := FormatLines(rs);
    forall i | 0 <= i < |rs|
      ensures body[i] != "" && Occurrences(body[i], ',') >= 6
      ensures ParsedRecord(body[i]) == rs[i]
    {
      ParseFormatLine(rs[i]);
    }
    assert ([header] + body)[1..] == body;
    RecordsOfLines(body, rs);
  }

  /** RecordsOf on a body whose every line is non-empty and parses to the matching record. */
  lemma {:induction false} RecordsOfLines(body: seq<string>, rs: seq<Record>)
    requires |body| == |rs|
    requires forall i :: 0 <= i < |body| ==>
      body[i] != "" && Occurrences(body[i], ',') >= 6 && ParsedRecord(body[i]) == rs[i]
    ensures RecordsOf(body) == rs
  {
    if rs != [] {
      RecordsOfLines(body[..|body| - 1], rs[..|rs| - 1]);
      assert rs == rs[..|rs| - 1] + [rs[|rs| - 1]];
    }
  }

  /** The lines 1 .. i - 1 of a parsable file satisfy RecordsOf's precondition. */
  lemma ParsablePrefix(lines: seq<string>, i: nat)
    requires Parsable(lines) && 1 <= i <= |lines|
    ensures BodyParsable(lines[1..i])
  {
    forall k | 0 <= k < |lines[1..i]| && lines[1..i][k] != ""
      ensures Occurrences(lines[1..i][k], ',') >= 6
    {
      assert lines[1..i][k] == lines[1..][k];
    }
  }

  /** The records loaded from the first i lines. */
  function LoadedUpTo(lines: seq<string>, i: nat): seq<Record>
    requires Parsable(lines) && i <= |lines|
  {
    if i == 0 then [] else ParsablePrefix(lines, i); RecordsOf(lines[1..i])
  }

  /** One step of the line loop: the header adds nothing, an empty line adds nothing,
      and any other line adds its record. */
  lemma LoadStep(lines: seq<string>, i: nat)
    requires Parsable(lines) && i < |lines|
    ensures i > 0 && lines[i] != "" ==> Occurrences(lines[i], ',') >= 6
    ensures LoadedUpTo(lines, i + 1) ==
      LoadedUpTo(lines, i) + (if i == 0 || lines[i] == "" then [] else [ParsedRecord(lines[i])])
  {
    if i > 0 {
      assert lines[i] == lines[1..][i - 1];
      ParsablePrefix(lines, i);
      ParsablePrefix(lines, i + 1);
      assert lines[1..i + 1][..i - 1] == lines[1..i];
    } else {
      assert lines[1..1] == [];
    }
  }

  /** After the last line, the loop has loaded the whole file. */
  lemma LoadedAll(lines: seq<string>)
    requires Parsable(lines)
    ensures LoadedUpTo(lines, |lines|) == LoadedRecords(lines)
  {
    if lines != [] {
      assert lines[1..|lines|] == lines[1..];
    }
  }

  /** The body of the line loop for a line that is neither the header nor empty. */
  method ParseAndAdd(line: string, data: ElectionData)
    requires Occurrences(line, ',') >= 6
    modifies data
    ensures data.records == old(data.records) + [ParsedRecord(line)]
  {
    var record := ParseLine(line);
    data.AddRecord(record);
  }

  /** The line loop of `readFromFile` over the lines of an opened file (None when the
      file could not be opened): skip the first line, skip empty lines, parse and add
      every other line. */
  method ReadFromLines(file: Option<seq<string>>, data: ElectionData) returns (ok: bool)
    requires file.Some? ==> Parsable(file.value)
    modifies data
    ensures ok == file.Some?
    ensures data.records == old(data.records) + (if ok then LoadedRecords(file.value) else [])
  {
    if file.None? {
      return false;
    }
    var lines := file.value;
    var firstLine := true;
    for i := 0 to |lines|
      invariant firstLine <==> i == 0
      invariant data.records == old(data.records) + LoadedUpTo(lines, i)
    {
      var line := lines[i];
      LoadStep(lines, i);
      if firstLine {
        firstLine := false;
        continue;
      }
      if line == "" {
        continue;
      }
      ParseAndAdd(line, data);
    }
    LoadedAll(lines);
    return true;
  }
}
