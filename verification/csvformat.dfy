/**
  The text of the generated CSV file (generate-csv.js:6, 41): a header line and
  one line per record, every field wrapped in double quotes, separated by
  commas, ending in a newline. Fields are not escaped. `ParseLine` reads such a
  line back and is the partner the formatting is checked against.
 */
module CsvFormat {
  import opened Options

  /** The column holding a record's email address; the upload route reads the same column. */
  const EmailColumn: string := "Email Address"

  const HeaderColumns: seq<string> := ["Employee Id", "First Name", "Last Name", EmailColumn]

  /** The header line: the record format applied to the column names. */
  const Header: string := FormatRow(HeaderColumns[0], HeaderColumns[1], HeaderColumns[2], HeaderColumns[3])

  function Quote(field: string): string {
    "\"" + field + "\""
  }

  /** One record line, as the generator's template literal spells it. */
  function FormatRow(id: string, first: string, last: string, email: string): string {
    "\"" + id + "\",\"" + first + "\",\"" + last + "\",\"" + email + "\"\n"
  }

  /** Quoted fields joined by commas. */
  function QuotedFields(fields: seq<string>): string
    requires |fields| > 0
    decreases |fields|
  {
    if |fields| == 1 then Quote(fields[0]) else Quote(fields[0]) + "," + QuotedFields(fields[1..])
  }

  function QuotedLine(fields: seq<string>): string
    requires |fields| > 0
  {
    QuotedFields(fields) + "\n"
  }

  predicate NoQuote(field: string) {
    forall i :: 0 <= i < |field| ==> field[i] != '"'
  }

  // ---------------------------------------------------------------------------
  // Reading a line back
  // ---------------------------------------------------------------------------

  /** The first `"` at or after `from`, or `|s|` if there is none. */
  function NextQuote(s: string, from: nat): (r: nat)
    requires from <= |s|
    ensures from <= r <= |s|
    ensures forall k :: from <= k < r ==> s[k] != '"'
    ensures r < |s| ==> s[r] == '"'
    decreases |s| - from
  {
    if from == |s| || s[from] == '"' then from else NextQuote(s, from + 1)
  }

  /** Comma-separated quoted fields with no quote inside a field; `None` for anything else. */
  function ParseFields(s: string): Option<seq<string>>
    decreases |s|
  {
    if |s| == 0 || s[0] != '"' then None
    else
      var close := NextQuote(s, 1);
      if close == |s| then None
      else if close + 1 == |s| then Some([s[1..close]])
      else if s[close + 1] != ',' then None
      else
        match ParseFields(s[close + 2..])
        case None => None
        case Some(rest) => Some([s[1..close]] + rest)
  }

  function ParseLine(line: string): Option<seq<string>> {
    if |line| > 0 && line[|line| - 1] == '\n' then ParseFields(line[..|line| - 1]) else None
  }

  lemma {:induction false} ParseQuotedFields(fields: seq<string>)
    requires |fields| > 0
    requires forall i :: 0 <= i < |fields| ==> NoQuote(fields[i])
    ensures ParseFields(QuotedFields(fields)) == Some(fields)
    decreases |fields|
  {
    var s := QuotedFields(fields);
    var f := fields[0];
    var close := 1 + |f|;
    assert s[..close + 1] == Quote(f);
    assert forall k :: 1 <= k < close ==> s[k] == f[k - 1];
    assert s[close] == '"';
    assert NextQuote(s, 1) == close;
    assert s[1..close] == f;
    if |fields| > 1 {
      assert s == Quote(f) + "," + QuotedFields(fields[1..]);
      assert s[close + 1] == ',';
      assert s[close + 2..] == QuotedFields(fields[1..]);
      ParseQuotedFields(fields[1..]);
      assert ParseFields(s) == Some([f] + fields[1..]);
      assert [f] + fields[1..] == fields;
    } else {
      assert |s| == close + 1;
      assert ParseFields(s) == Some([f]);
      assert fields == [f];
    }
  }

  /** A line of quote-free fields reads back as exactly those fields, in order. */
  lemma ParseQuotedLine(fields: seq<string>)
    requires |fields| > 0
    requires forall i :: 0 <= i < |fields| ==> NoQuote(fields[i])
    ensures ParseLine(QuotedLine(fields)) == Some(fields)
  {
    var line := QuotedLine(fields);
    assert line[..|line| - 1] == QuotedFields(fields);
    ParseQuotedFields(fields);
  }

  /**
    A generated record line carries the four fields in header order and reads
    back as them, provided no field holds a quote (the generator does not escape).
   */
  lemma RecordRoundTrip(id: string, first: string, last: string, email: string)
    requires NoQuote(id) && NoQuote(first) && NoQuote(last) && NoQuote(email)
    ensures FormatRow(id, first, last, email) == QuotedLine([id, first, last, email])
    ensures ParseLine(FormatRow(id, first, last, email)) == Some([id, first, last, email])
    ensures |FormatRow(id, first, last, email)| == |id| + |first| + |last| + |email| + 12
  {
    var fields := [id, first, last, email];
    FormatRowQuoted(id, first, last, email);
    ParseQuotedLine(fields);
  }

  lemma FormatRowQuoted(id: string, first: string, last: string, email: string)
    ensures FormatRow(id, first, last, email) == QuotedLine([id, first, last, email])
  {
    var q3 := QuotedFields([email]);
    assert [last, email][1..] == [email];
    var q2 := QuotedFields([last, email]);
    assert q2 == Quote(last) + "," + q3;
    assert [first, last, email][1..] == [last, email];
    var q1 := QuotedFields([first, last, email]);
    assert q1 == Quote(first) + "," + q2;
    assert [id, first, last, email][1..] == [first, last, email];
    assert QuotedFields([id, first, last, email]) == Quote(id) + "," + q1;
    assert q1 == "\"" + first + "\",\"" + last + "\",\"" + email + "\"";
  }

  /** Quote-free records that produce the same line are the same record. */
  lemma FormatRowInjective(a: seq<string>, b: seq<string>)
    requires |a| == 4 && |b| == 4
    requires forall i :: 0 <= i < 4 ==> NoQuote(a[i]) && NoQuote(b[i])
    requires FormatRow(a[0], a[1], a[2], a[3]) == FormatRow(b[0], b[1], b[2], b[3])
    ensures a == b
  {
    RecordRoundTrip(a[0], a[1], a[2], a[3]);
    RecordRoundTrip(b[0], b[1], b[2], b[3]);
    assert a == [a[0], a[1], a[2], a[3]] && b == [b[0], b[1], b[2], b[3]];
  }

  /** The header reads back as the four column names, in order. */
  lemma HeaderRoundTrip()
    ensures ParseLine(Header) == Some(HeaderColumns)
  {
    RecordRoundTrip(HeaderColumns[0], HeaderColumns[1], HeaderColumns[2], HeaderColumns[3]);
  }
}
