/** The admin page's CSV export (`csvEscape` and the line building of
    `downloadCsv`), with a reader for the same format so that the export can
    be stated as a round trip. Field escaping follows section 2 of RFC 4180:
    rule 6 (a field holding a double quote, a comma or a line break is
    enclosed in double quotes) and rule 7 (a double quote inside such a
    field is written twice). */
module Csv {
  import opened Wrappers

  const Quote: char := '"'

  /** Characters that force a field into quotes: `/[",\n\r]/`. */
  predicate IsSpecial(c: char) {
    c == Quote || c == ',' || c == '\n' || c == '\r'
  }

  predicate NeedsQuotes(s: string) {
    exists i :: 0 <= i < |s| && IsSpecial(s[i])
  }

  /** `s.replace(/"/g, '""')` */
  function DoubleQuotes(s: string): (r: string)
    ensures |r| >= |s|
    ensures Quote !in s ==> r == s
  {
    if s == [] then []
    else (if s[0] == Quote then [Quote, Quote] else [s[0]]) + DoubleQuotes(s[1..])
  }

  /** `csvEscape` applied to a text value. */
  function EscapeText(s: string): (r: string)
    ensures !NeedsQuotes(s) ==> r == s
    ensures NeedsQuotes(s) ==> |r| >= 2 && r[0] == Quote && r[|r| - 1] == Quote
    ensures |r| > 0 && r[0] == Quote <==> NeedsQuotes(s)
  {
    if NeedsQuotes(s) then [Quote] + DoubleQuotes(s) + [Quote] else s
  }

  /** `csvEscape`: null and undefined become the empty field. */
  function Escape(v: Option<string>): (r: string)
    ensures v.None? ==> r == ""
    ensures v.Some? ==> r == EscapeText(v.value)
  {
    EscapeText(v.GetOr(""))
  }

  /** `xs.join(sep)` */
  function Join(xs: seq<string>, sep: char): string {
    if xs == [] then ""
    else if |xs| == 1 then xs[0]
    else xs[0] + [sep] + Join(xs[1..], sep)
  }

  /** A record: the keys of a database row in insertion order, with their
      values already converted with `String(v)` (`None` for null). */
  type Row = seq<(string, Option<string>)>

  function Keys(row: Row): (ks: seq<string>)
    ensures |ks| == |row|
    ensures forall i :: 0 <= i < |row| ==> ks[i] == row[i].0
  {
    seq(|row|, i requires 0 <= i < |row| => row[i].0)
  }

  /** `r[h]`: the value under the first entry with key `h`; a missing key
      reads as undefined. */
  function Lookup(row: Row, h: string): (v: Option<string>)
    ensures v.Some? ==> exists i :: 0 <= i < |row| && row[i] == (h, v)
    ensures (forall i :: 0 <= i < |row| ==> row[i].0 != h) ==> v.None?
  {
    if row == [] then None
    else if row[0].0 == h then row[0].1
    else Lookup(row[1..], h)
  }

  /** One line of fields. */
  function EncodeRecord(fields: seq<Option<string>>): string {
    Join(seq(|fields|, i requires 0 <= i < |fields| => Escape(fields[i])), ',')
  }

  /** The values of one row under the given headers. */
  function Cells(row: Row, headers: seq<string>): (cs: seq<Option<string>>)
    ensures |cs| == |headers|
  {
    seq(|headers|, j requires 0 <= j < |headers| => Lookup(row, headers[j]))
  }

  function Somes(xs: seq<string>): (r: seq<Option<string>>)
    ensures |r| == |xs| && forall i :: 0 <= i < |xs| ==> r[i] == Some(xs[i])
  {
    seq(|xs|, i requires 0 <= i < |xs| => Some(xs[i]))
  }

  /** The lines of `downloadCsv`: the first row's keys, then one line per row. */
  function CsvLines(rows: seq<Row>): (lines: seq<string>)
    requires rows != []
    ensures |lines| == |rows| + 1
  {
    var headers := Keys(rows[0]);
    [EncodeRecord(Somes(headers))]
      + seq(|rows|, i requires 0 <= i < |rows| => EncodeRecord(Cells(rows[i], headers)))
  }

  /** The text `downloadCsv` saves, or `None` when there are no rows (the
      function returns before creating a file). */
  function BuildCsv(rows: seq<Row>): (r: Option<string>)
    ensures r.None? <==> rows == []
  {
    if rows == [] then None else Some(Join(CsvLines(rows), '\n'))
  }

  // ---------------------------------------------------------------------
  // A reader for the format

  /** The text of a quoted field after its opening quote: returns the value
      and what follows the closing quote. */
  function ParseQuoted(t: string): (r: Option<(string, string)>)
    ensures r.Some? ==> |r.value.1| < |t|
  {
    if t == [] then None
    else if t[0] == Quote then
      if |t| >= 2 && t[1] == Quote then
        match ParseQuoted(t[2..])
        case None => None
        case Some((v, rest)) => Some(([Quote] + v, rest))
      else Some(([], t[1..]))
    else
      match ParseQuoted(t[1..])
      case None => None
      case Some((v, rest)) => Some(([t[0]] + v, rest))
  }

  /** Length of the unquoted field at the front of `s`. */
  function FieldEnd(s: string): (n: nat)
    ensures n <= |s|
    ensures n < |s| ==> s[n] == ',' || s[n] == '\n'
    ensures forall i :: 0 <= i < n ==> s[i] != ',' && s[i] != '\n'
  {
    if s == [] || s[0] == ',' || s[0] == '\n' then 0 else 1 + FieldEnd(s[1..])
  }

  /** One field off the front of `s`, and the input after it. */
  function ParseField(s: string): (r: Option<(string, string)>)
    ensures r.Some? ==> |r.value.1| <= |s|
  {
    if |s| > 0 && s[0] == Quote then ParseQuoted(s[1..])
    else
      var n := FieldEnd(s);
      if NeedsQuotes(s[..n]) then None else Some((s[..n], s[n..]))
  }

  /** One line of fields; the second component is the input after the line
      break, or `None` at the end of the input. */
  function ParseRecord(s: string): (r: Option<(seq<string>, Option<string>)>)
    ensures r.Some? && r.value.1.Some? ==> |r.value.1.value| < |s|
    decreases |s|
  {
    match ParseField(s)
    case None => None
    case Some((f, rest)) =>
      if rest == [] then Some(([f], None))
      else if rest[0] == '\n' then Some(([f], Some(rest[1..])))
      else if rest[0] == ',' then
        match ParseRecord(rest[1..])
        case None => None
        case Some((fs, next)) => Some(([f] + fs, next))
      else None
  }

  /** A whole document: lines separated by single line feeds. */
  function ParseDoc(s: string): Option<seq<seq<string>>>
    decreases |s|
  {
    match ParseRecord(s)
    case None => None
    case Some((fs, None)) => Some([fs])
    case Some((fs, Some(rest))) =>
      match ParseDoc(rest)
      case None => None
      case Some(rs) => Some([fs] + rs)
  }

  /** The table a CSV export is meant to carry: the header names, then for
      each row its value under each header, missing and null values as "". */
  function Table(rows: seq<Row>): (t: seq<seq<string>>)
    requires rows != []
    ensures |t| == |rows| + 1
    ensures t[0] == Keys(rows[0])
    ensures forall i :: 1 <= i < |t| ==> |t[i]| == |Keys(rows[0])|
    ensures forall i, j :: 0 <= i < |rows| && 0 <= j < |Keys(rows[0])| ==>
      |t[i + 1]| == |Keys(rows[0])| && t[i + 1][j] == Lookup(rows[i], Keys(rows[0])[j]).GetOr("")
  {
    var headers := Keys(rows[0]);
    [headers] + seq(|rows|, i requires 0 <= i < |rows| =>
      seq(|headers|, j requires 0 <= j < |headers| => Lookup(rows[i], headers[j]).GetOr("")))
  }

  // ---------------------------------------------------------------------
  // Round trips

  lemma ParseQuotedCons(c: char, rest: string, v: string, r: string)
    requires ParseQuoted(rest) == Some((v, r))
    ensures c == Quote ==> ParseQuoted([Quote, Quote] + rest) == Some(([Quote] + v, r))
    ensures c != Quote ==> ParseQuoted([c] + rest) == Some(([c] + v, r))
  {
    assert ([Quote, Quote] + rest)[2..] == rest;
    assert ([c] + rest)[1..] == rest;
  }

  /** A quoted field's body reads back as the value it escapes. */
  lemma {:induction false} QuotedRoundTrip(s: string, tail: string)
    requires tail == [] || tail[0] != Quote
    ensures ParseQuoted(DoubleQuotes(s) + [Quote] + tail) == Some((s, tail))
  {
    if s == [] {
      assert DoubleQuotes(s) + [Quote] + tail == [Quote] + tail;
      assert ([Quote] + tail)[1..] == tail;
    } else {
      QuotedRoundTrip(s[1..], tail);
      QuotedStep(s, tail);
    }
  }

  lemma QuotedStep(s: string, tail: string)
    requires s != []
    requires ParseQuoted(DoubleQuotes(s[1..]) + [Quote] + tail) == Some((s[1..], tail))
    ensures ParseQuoted(DoubleQuotes(s) + [Quote] + tail) == Some((s, tail))
  {
    var rest := DoubleQuotes(s[1..]) + [Quote] + tail;
    var head := if s[0] == Quote then [Quote, Quote] else [s[0]];
    assert DoubleQuotes(s) == head + DoubleQuotes(s[1..]);
    assert DoubleQuotes(s) + [Quote] + tail == head + rest;
    ParseQuotedCons(s[0], rest, s[1..], tail);
    assert [s[0]] + s[1..] == s;
  }

  lemma {:induction false} FieldEndSkips(v: string, tail: string)
    requires forall i :: 0 <= i < |v| ==> v[i] != ',' && v[i] != '\n'
    requires tail == [] || tail[0] == ',' || tail[0] == '\n'
    ensures FieldEnd(v + tail) == |v|
  {
    if v != [] {
      assert (v + tail)[1..] == v[1..] + tail;
      FieldEndSkips(v[1..], tail);
    } else {
      assert v + tail == tail;
    }
  }

  /** Rule 6 and 7 together: an escaped field, followed by a separator or the
      end of the input, reads back as the original text. */
  lemma FieldRoundTrip(s: string, tail: string)
    requires tail == [] || tail[0] == ',' || tail[0] == '\n'
    ensures ParseField(EscapeText(s) + tail) == Some((s, tail))
  {
    var e := EscapeText(s);
    if NeedsQuotes(s) {
      assert (e + tail)[1..] == DoubleQuotes(s) + [Quote] + tail;
      QuotedRoundTrip(s, tail);
    } else {
      FieldEndSkips(s, tail);
      assert (s + tail)[..|s|] == s;
      assert (s + tail)[|s|..] == tail;
    }
  }

  /** A line of escaped texts. */
  function EncodeLine(fields: seq<string>): string {
    Join(seq(|fields|, i requires 0 <= i < |fields| => EscapeText(fields[i])), ',')
  }

  /** Lines of escaped texts. */
  function EncodeTable(table: seq<seq<string>>): string {
    Join(seq(|table|, i requires 0 <= i < |table| => EncodeLine(table[i])), '\n')
  }

  lemma EncodeLineCons(fields: seq<string>)
    requires fields != []
    ensures EncodeLine(fields) ==
      EscapeText(fields[0]) + (if |fields| == 1 then "" else [','] + EncodeLine(fields[1..]))
  {
    var es := seq(|fields|, i requires 0 <= i < |fields| => EscapeText(fields[i]));
    assert es[1..] == seq(|fields[1..]|, i requires 0 <= i < |fields[1..]| => EscapeText(fields[1..][i]));
  }

  lemma EncodeTableCons(table: seq<seq<string>>)
    requires table != []
    ensures EncodeTable(table) ==
      EncodeLine(table[0]) + (if |table| == 1 then "" else ['\n'] + EncodeTable(table[1..]))
  {
    var ls := seq(|table|, i requires 0 <= i < |table| => EncodeLine(table[i]));
    assert ls[1..] == seq(|table[1..]|, i requires 0 <= i < |table[1..]| => EncodeLine(table[1..][i]));
  }

  lemma ParseRecordLast(s: string, f: string, tail: string, after: Option<string>)
    requires ParseField(s) == Some((f, tail))
    requires after.None? ==> tail == []
    requires after.Some? ==> tail == ['\n'] + after.value
    ensures ParseRecord(s) == Some(([f], after))
  {
    if after.Some? {
      assert tail[1..] == after.value;
    }
  }

  lemma ParseRecordMore(s: string, f: string, more: string, fs: seq<string>, after: Option<string>)
    requires ParseField(s) == Some((f, [','] + more))
    requires ParseRecord(more) == Some((fs, after))
    ensures ParseRecord(s) == Some(([f] + fs, after))
  {
    assert ([','] + more)[1..] == more;
  }

  lemma {:induction false} RecordRoundTrip(fields: seq<string>, after: Option<string>)
    requires fields != []
    ensures ParseRecord(EncodeLine(fields) + (if after.Some? then ['\n'] + after.value else []))
            == Some((fields, after))
  {
    var tail := if after.Some? then ['\n'] + after.value else [];
    EncodeLineCons(fields);
    if |fields| == 1 {
      LastFieldRoundTrip(fields[0], tail, after);
      assert fields == [fields[0]];
    } else {
      RecordRoundTrip(fields[1..], after);
      MoreFieldsRoundTrip(fields, tail, after);
    }
  }

  lemma LastFieldRoundTrip(f: string, tail: string, after: Option<string>)
    requires tail == if after.Some? then ['\n'] + after.value else []
    ensures ParseRecord(EncodeLine([f]) + tail) == Some(([f], after))
  {
    EncodeLineCons([f]);
    assert EncodeLine([f]) + tail == EscapeText(f) + tail;
    FieldRoundTrip(f, tail);
    ParseRecordLast(EncodeLine([f]) + tail, f, tail, after);
  }

  lemma MoreFieldsRoundTrip(fields: seq<string>, tail: string, after: Option<string>)
    requires |fields| > 1
    requires ParseRecord(EncodeLine(fields[1..]) + tail) == Some((fields[1..], after))
    ensures ParseRecord(EncodeLine(fields) + tail) == Some((fields, after))
  {
    var s := EncodeLine(fields) + tail;
    var more := EncodeLine(fields[1..]) + tail;
    SplitLine(fields, tail);
    FieldRoundTrip(fields[0], [','] + more);
    ParseRecordMore(s, fields[0], more, fields[1..], after);
    assert [fields[0]] + fields[1..] == fields;
  }

  lemma SplitLine(fields: seq<string>, tail: string)
    requires |fields| > 1
    ensures EncodeLine(fields) + tail == EscapeText(fields[0]) + ([','] + (EncodeLine(fields[1..]) + tail))
  {
    var e, r := EscapeText(fields[0]), EncodeLine(fields[1..]);
    EncodeLineCons(fields);
    assert EncodeLine(fields) == e + ([','] + r);
    Regroup(e, [','], r, tail);
  }

  lemma Regroup(a: string, b: string, c: string, d: string)
    ensures (a + (b + c)) + d == a + (b + (c + d))
  {
  }

  /** Reading back lines of escaped texts gives the texts. */
  lemma {:induction false} DocRoundTrip(table: seq<seq<string>>)
    requires table != []
    requires forall i :: 0 <= i < |table| ==> table[i] != []
    ensures ParseDoc(EncodeTable(table)) == Some(table)
  {
    EncodeTableCons(table);
    if |table| == 1 {
      RecordRoundTrip(table[0], None);
      assert EncodeTable(table) == EncodeLine(table[0]) + [];
      assert table == [table[0]];
    } else {
      var rest := EncodeTable(table[1..]);
      RecordRoundTrip(table[0], Some(rest));
      DocRoundTrip(table[1..]);
      assert [table[0]] + table[1..] == table;
    }
  }

  /** Escaping a nullable value is escaping its text, with null as "". */
  lemma EncodeRecordText(cs: seq<Option<string>>, texts: seq<string>)
    requires |texts| == |cs|
    requires forall j :: 0 <= j < |cs| ==> texts[j] == cs[j].GetOr("")
    ensures EncodeRecord(cs) == EncodeLine(texts)
  {
    assert seq(|cs|, i requires 0 <= i < |cs| => Escape(cs[i]))
        == seq(|texts|, i requires 0 <= i < |texts| => EscapeText(texts[i]));
  }

  /** The export is faithful: for a first row with at least one key, the
      saved text reads back as the header line followed by every row's
      value under each header. */
  lemma BuildCsvRoundTrip(rows: seq<Row>)
    requires rows != [] && rows[0] != []
    ensures BuildCsv(rows).Some?
    ensures ParseDoc(BuildCsv(rows).value) == Some(Table(rows))
  {
    var table := Table(rows);
    var lines := CsvLines(rows);
    forall i | 0 <= i < |table|
      ensures lines[i] == EncodeLine(table[i])
    {
      CsvLineEncodes(rows, i);
    }
    assert lines == seq(|table|, i requires 0 <= i < |table| => EncodeLine(table[i]));
    assert BuildCsv(rows).value == EncodeTable(table);
    TableRowsNonEmpty(rows);
    DocRoundTrip(table);
  }

  /** Line `i` of the export is the escaped line `i` of the table. */
  lemma CsvLineEncodes(rows: seq<Row>, i: nat)
    requires rows != [] && i < |rows| + 1
    ensures CsvLines(rows)[i] == EncodeLine(Table(rows)[i])
  {
    if i == 0 {
      var headers := Keys(rows[0]);
      EncodeRecordText(Somes(headers), headers);
    } else {
      CsvDataLine(rows, i - 1);
    }
  }

  lemma CsvDataLine(rows: seq<Row>, i: nat)
    requires rows != [] && i < |rows|
    ensures CsvLines(rows)[i + 1] == EncodeLine(Table(rows)[i + 1])
  {
    var headers := Keys(rows[0]);
    var cs := Cells(rows[i], headers);
    var texts := Table(rows)[i + 1];
    assert CsvLines(rows)[i + 1] == EncodeRecord(cs);
    forall j | 0 <= j < |cs|
      ensures texts[j] == cs[j].GetOr("")
    {
    }
    EncodeRecordText(cs, texts);
  }

  /** With at least one header, no line of the table is empty. */
  lemma TableRowsNonEmpty(rows: seq<Row>)
    requires rows != [] && rows[0] != []
    ensures forall i :: 0 <= i < |Table(rows)| ==> Table(rows)[i] != []
  {
    var t := Table(rows);
    var headers := Keys(rows[0]);
    forall i | 0 <= i < |t|
      ensures t[i] != []
    {
      if i > 0 {
        assert t[i][0] == Lookup(rows[i - 1], headers[0]).GetOr("");
      }
    }
  }
}
