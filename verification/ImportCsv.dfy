/** The import file: printing rows as CSV, and a reader in the manner of section 2 of RFC 4180 that gets them back. */
module ImportCsv {
  import opened Prelude

  datatype ImportRow = ImportRow(profileUrl: string, kolName: string, platformDict: string, account: string, kolUid: string)

  const HEADERS := ["频道链接", "名称", "平台", "平台账号"]
  const UID_HEADER := "红人统一ID"
  const BOM := '\U{FEFF}'

  // ---------- the printer ----------

  predicate IsSpecial(c: char)
  {
    c == '"' || c == ',' || c == '\n'
  }

  predicate NeedsQuotes(text: string)
  {
    exists i :: 0 <= i < |text| && IsSpecial(text[i])
  }

  function Doubled(text: string): string
  {
    if text == "" then "" else (if text[0] == '"' then "\"\"" else [text[0]]) + Doubled(text[1..])
  }

  function CsvCell(text: string): string
  {
    if NeedsQuotes(text) then "\"" + Doubled(text) + "\"" else text
  }

  function Join(cells: seq<string>): string
  {
    if cells == [] then ""
    else if |cells| == 1 then cells[0]
    else cells[0] + "," + Join(cells[1..])
  }

  predicate WithUid(rows: seq<ImportRow>)
  {
    exists i :: 0 <= i < |rows| && Trim(rows[i].kolUid) != ""
  }

  function Headers(withUid: bool): seq<string>
  {
    (if withUid then [UID_HEADER] else []) + HEADERS
  }

  function Cells(withUid: bool, row: ImportRow): seq<string>
  {
    (if withUid then [Trim(row.kolUid)] else []) + [row.profileUrl, row.kolName, row.platformDict, row.account]
  }

  function Printed(cells: seq<string>): seq<string>
  {
    seq(|cells|, i requires 0 <= i < |cells| => CsvCell(cells[i]))
  }

  /** Lines joined by line feeds, with one more at the end. */
  function LinesOf(withUid: bool, rows: seq<ImportRow>): string
  {
    if rows == [] then "" else Join(Printed(Cells(withUid, rows[0]))) + "\n" + LinesOf(withUid, rows[1..])
  }

  function BuildCsv(rows: seq<ImportRow>): string
  {
    [BOM] + Join(Headers(WithUid(rows))) + "\n" + LinesOf(WithUid(rows), rows)
  }

  // ---------- the reader ----------

  datatype Mode = FieldStart | Plain | Quoted | QuoteSeen

  /** A field at the end of a record; a reader that also takes CRLF for a record's end takes a last CR for part of it. */
  function Ended(crlf: bool, field: string): string
  {
    if crlf && field != "" && field[|field| - 1] == '\r' then field[..|field| - 1] else field
  }

  /** What the rest of a text reads as, after the records, the cells and the characters read so far. */
  function Parse(crlf: bool, text: string, mode: Mode, field: string, record: seq<string>, records: seq<seq<string>>): Option<seq<seq<string>>>
    decreases |text|
  {
    if text == "" then
      if mode == Quoted then None
      else if mode == FieldStart && record == [] then Some(records)
      else Some(records + [record + [field]])
    else
      var c, rest := text[0], text[1..];
      match mode
      case FieldStart =>
        if c == '"' then Parse(crlf, rest, Quoted, "", record, records)
        else if c == ',' then Parse(crlf, rest, FieldStart, "", record + [""], records)
        else if c == '\n' then Parse(crlf, rest, FieldStart, "", [], records + [record + [""]])
        else Parse(crlf, rest, Plain, [c], record, records)
      case Plain =>
        if c == '"' then None
        else if c == ',' then Parse(crlf, rest, FieldStart, "", record + [field], records)
        else if c == '\n' then Parse(crlf, rest, FieldStart, "", [], records + [record + [Ended(crlf, field)]])
        else Parse(crlf, rest, Plain, field + [c], record, records)
      case Quoted =>
        if c == '"' then Parse(crlf, rest, QuoteSeen, field, record, records)
        else Parse(crlf, rest, Quoted, field + [c], record, records)
      case QuoteSeen =>
        if c == '"' then Parse(crlf, rest, Quoted, field + ['"'], record, records)
        else if c == ',' then Parse(crlf, rest, FieldStart, "", record + [field], records)
        else if c == '\n' then Parse(crlf, rest, FieldStart, "", [], records + [record + [field]])
        else if crlf && c == '\r' && rest != "" && rest[0] == '\n' then Parse(crlf, rest[1..], FieldStart, "", [], records + [record + [field]])
        else None
  }

  /** The records of a file; `crlf` says whether CRLF ends a record as LF does. */
  function Read(crlf: bool, file: string): Option<seq<seq<string>>>
  {
    Parse(crlf, if file != "" && file[0] == BOM then file[1..] else file, FieldStart, "", [], [])
  }

  // ---------- one cell at a time ----------

  lemma {:induction false} ReadPlain(crlf: bool, text: string, rest: string, field: string, record: seq<string>, records: seq<seq<string>>)
    requires !NeedsQuotes(text) && rest != "" && (rest[0] == ',' || rest[0] == '\n')
    ensures Parse(crlf, text + rest, Plain, field, record, records) == Parse(crlf, rest, Plain, field + text, record, records)
    decreases |text|
  {
    if text == "" {
      assert text + rest == rest && field + text == field;
    } else {
      assert !IsSpecial(text[0]);
      assert (text + rest)[1..] == text[1..] + rest;
      assert field + [text[0]] + text[1..] == field + text;
      ReadPlain(crlf, text[1..], rest, field + [text[0]], record, records);
    }
  }

  lemma {:induction false} ReadQuoted(crlf: bool, text: string, rest: string, field: string, record: seq<string>, records: seq<seq<string>>)
    requires rest != "" && (rest[0] == ',' || rest[0] == '\n')
    ensures Parse(crlf, Doubled(text) + "\"" + rest, Quoted, field, record, records) == Parse(crlf, rest, QuoteSeen, field + text, record, records)
    decreases |text|
  {
    var whole := Doubled(text) + "\"" + rest;
    if text == "" {
      assert whole[0] == '"' && whole[1..] == rest && field + text == field;
    } else {
      var more := Doubled(text[1..]) + "\"" + rest;
      assert field + [text[0]] + text[1..] == field + text;
      if text[0] == '"' {
        assert whole[0] == '"' && whole[1..] == "\"" + more;
        assert ("\"" + more)[1..] == more;
      } else {
        assert whole[0] == text[0] && whole[1..] == more;
      }
      ReadQuoted(crlf, text[1..], rest, field + [text[0]], record, records);
    }
  }

  /** A printed cell and the comma behind it read as that cell. */
  lemma ReadCell(crlf: bool, text: string, rest: string, record: seq<string>, records: seq<seq<string>>)
    ensures Parse(crlf, CsvCell(text) + "," + rest, FieldStart, "", record, records) == Parse(crlf, rest, FieldStart, "", record + [text], records)
  {
    var tail := "," + rest;
    assert CsvCell(text) + "," + rest == CsvCell(text) + tail && tail[1..] == rest;
    ReadField(crlf, text, tail, record, records);
  }

  /** A cell as the reader takes it at the end of a record. */
  function Last(crlf: bool, text: string): string
  {
    if NeedsQuotes(text) then text else Ended(crlf, text)
  }

  lemma ReadLastCell(crlf: bool, text: string, rest: string, record: seq<string>, records: seq<seq<string>>)
    ensures Parse(crlf, CsvCell(text) + "\n" + rest, FieldStart, "", record, records)
         == Parse(crlf, rest, FieldStart, "", [], records + [record + [Last(crlf, text)]])
  {
    var tail := "\n" + rest;
    assert CsvCell(text) + "\n" + rest == CsvCell(text) + tail && tail[1..] == rest;
    ReadField(crlf, text, tail, record, records);
  }

  lemma ReadField(crlf: bool, text: string, tail: string, record: seq<string>, records: seq<seq<string>>)
    requires tail != "" && (tail[0] == ',' || tail[0] == '\n')
    ensures Parse(crlf, CsvCell(text) + tail, FieldStart, "", record, records)
         == Parse(crlf, tail, if NeedsQuotes(text) then QuoteSeen else if text == "" then FieldStart else Plain, text, record, records)
  {
    if NeedsQuotes(text) {
      var inner := Doubled(text) + "\"" + tail;
      hide Doubled, NeedsQuotes;
      assert CsvCell(text) + tail == "\"" + inner && ("\"" + inner)[1..] == inner;
      ReadQuoted(crlf, text, tail, "", record, records);
      assert "" + text == text;
    } else {
      ReadUnquoted(crlf, text, tail, record, records);
    }
  }

  lemma ReadUnquoted(crlf: bool, text: string, tail: string, record: seq<string>, records: seq<seq<string>>)
    requires tail != "" && (tail[0] == ',' || tail[0] == '\n') && !NeedsQuotes(text)
    ensures Parse(crlf, text + tail, FieldStart, "", record, records)
         == Parse(crlf, tail, if text == "" then FieldStart else Plain, text, record, records)
  {
    if text == "" {
      assert text + tail == tail;
    } else {
      assert !IsSpecial(text[0]);
      assert !NeedsQuotes(text[1..]) by {
        assert forall i :: 0 <= i < |text[1..]| ==> text[1..][i] == text[i + 1];
      }
      hide NeedsQuotes;
      assert (text + tail)[1..] == text[1..] + tail;
      ReadPlain(crlf, text[1..], tail, [text[0]], record, records);
      assert [text[0]] + text[1..] == text;
    }
  }

  // ---------- one record at a time ----------

  /** A record as the reader takes it. */
  function Seen(crlf: bool, cells: seq<string>): seq<string>
  {
    if cells == [] then [] else cells[|cells| - 1 := Last(crlf, cells[|cells| - 1])]
  }

  lemma PrintedSplits(cells: seq<string>, rest: string)
    requires |cells| > 1
    ensures Join(Printed(cells)) + "\n" + rest == CsvCell(cells[0]) + "," + (Join(Printed(cells[1..])) + "\n" + rest)
  {
    hide CsvCell;
    assert Printed(cells)[1..] == Printed(cells[1..]) && Printed(cells)[0] == CsvCell(cells[0]);
  }

  lemma {:induction false} ReadRecord(crlf: bool, cells: seq<string>, rest: string, record: seq<string>, records: seq<seq<string>>)
    requires cells != []
    ensures Parse(crlf, Join(Printed(cells)) + "\n" + rest, FieldStart, "", record, records)
         == Parse(crlf, rest, FieldStart, "", [], records + [record + Seen(crlf, cells)])
    decreases |cells|
  {
    hide Parse, CsvCell, Last;
    if |cells| == 1 {
      assert Printed(cells) == [CsvCell(cells[0])];
      ReadLastCell(crlf, cells[0], rest, record, records);
      assert Seen(crlf, cells) == [Last(crlf, cells[0])];
    } else {
      PrintedSplits(cells, rest);
      hide Join, Printed;
      ReadCell(crlf, cells[0], Join(Printed(cells[1..])) + "\n" + rest, record, records);
      ReadRecord(crlf, cells[1..], rest, record + [cells[0]], records);
      assert record + [cells[0]] + Seen(crlf, cells[1..]) == record + Seen(crlf, cells);
    }
  }

  function TableOf(crlf: bool, withUid: bool, rows: seq<ImportRow>): seq<seq<string>>
  {
    seq(|rows|, i requires 0 <= i < |rows| => Seen(crlf, Cells(withUid, rows[i])))
  }

  lemma {:induction false} ReadRows(crlf: bool, withUid: bool, rows: seq<ImportRow>, records: seq<seq<string>>)
    ensures Parse(crlf, LinesOf(withUid, rows), FieldStart, "", [], records) == Some(records + TableOf(crlf, withUid, rows))
    decreases |rows|
  {
    hide Seen, Join, Printed;
    if rows == [] {
      assert records + TableOf(crlf, withUid, rows) == records;
    } else {
      var first := Seen(crlf, Cells(withUid, rows[0]));
      ReadRecord(crlf, Cells(withUid, rows[0]), LinesOf(withUid, rows[1..]), [], records);
      assert [] + first == first;
      ReadRows(crlf, withUid, rows[1..], records + [first]);
      assert records + [first] + TableOf(crlf, withUid, rows[1..]) == records + TableOf(crlf, withUid, rows);
    }
  }

  lemma HeadersArePlain(withUid: bool)
    ensures Printed(Headers(withUid)) == Headers(withUid)
    ensures forall crlf :: Seen(crlf, Headers(withUid)) == Headers(withUid)
    ensures Headers(withUid) != []
  {
  }

  /** Either reader gets the header and every row back, each row's last cell as that reader takes it. */
  lemma ReadBack(crlf: bool, rows: seq<ImportRow>)
    ensures Read(crlf, BuildCsv(rows)) == Some([Headers(WithUid(rows))] + TableOf(crlf, WithUid(rows), rows))
  {
    hide Parse, Join, LinesOf, Headers, WithUid, Printed, TableOf, Seen;
    var withUid := WithUid(rows);
    var headers, lines := Headers(withUid), LinesOf(withUid, rows);
    HeadersArePlain(withUid);
    var body := Join(headers) + "\n" + lines;
    assert BuildCsv(rows) == [BOM] + body;
    assert ([BOM] + body)[0] == BOM && ([BOM] + body)[1..] == body;
    ReadRecord(crlf, headers, lines, [], []);
    assert [] + headers == headers && [] + [headers] == [headers];
    ReadRows(crlf, withUid, rows, [headers]);
  }

  // ---------- the main results ----------

  /** What the file says: the header, then every cell of every row. */
  function Table(rows: seq<ImportRow>): seq<seq<string>>
  {
    [Headers(WithUid(rows))] + seq(|rows|, i requires 0 <= i < |rows| => Cells(WithUid(rows), rows[i]))
  }

  /** A reader whose records end in LF recovers exactly the header and every cell, for any rows. */
  lemma RoundTrip(rows: seq<ImportRow>)
    ensures Read(false, BuildCsv(rows)) == Some(Table(rows))
  {
    ReadBack(false, rows);
    hide Headers, WithUid, BuildCsv, Read;
    forall i | 0 <= i < |rows| ensures Seen(false, Cells(WithUid(rows), rows[i])) == Cells(WithUid(rows), rows[i]) {
      LastCellKept(Cells(WithUid(rows), rows[i]));
    }
    assert TableOf(false, WithUid(rows), rows) == Table(rows)[1..];
  }

  lemma LastCellKept(cells: seq<string>)
    ensures Seen(false, cells) == cells
  {
  }

  /** Each row's own fields are under the headers they belong to, the uid in front where any row has one. */
  lemma FieldsUnderTheirHeaders(rows: seq<ImportRow>, i: nat)
    requires i < |rows|
    ensures
      var records, row := Read(false, BuildCsv(rows)), rows[i];
      && records.Some? && |records.value| == |rows| + 1
      && if forall k :: 0 <= k < |rows| ==> AllSpace(rows[k].kolUid)
         then
           && records.value[0] == ["频道链接", "名称", "平台", "平台账号"]
           && records.value[i + 1] == [row.profileUrl, row.kolName, row.platformDict, row.account]
         else
           && records.value[0] == ["红人统一ID", "频道链接", "名称", "平台", "平台账号"]
           && records.value[i + 1] == [Trim(row.kolUid), row.profileUrl, row.kolName, row.platformDict, row.account]
  {
    RoundTrip(rows);
    forall k | 0 <= k < |rows| ensures AllSpace(rows[k].kolUid) <==> Trim(rows[k].kolUid) == "" { TrimIsEmpty(rows[k].kolUid); }
    hide Read, BuildCsv, Trim, AllSpace;
    assert Headers(true) == ["红人统一ID", "频道链接", "名称", "平台", "平台账号"];
    assert Headers(false) == ["频道链接", "名称", "平台", "平台账号"];
  }

  /** The file itself: the byte order mark and the header line in front, a line feed at the end. */
  lemma FileShape(rows: seq<ImportRow>)
    ensures
      var header := if forall k :: 0 <= k < |rows| ==> AllSpace(rows[k].kolUid) then "频道链接,名称,平台,平台账号\n"
                    else "红人统一ID,频道链接,名称,平台,平台账号\n";
      ['\U{FEFF}'] + header <= BuildCsv(rows)
    ensures BuildCsv(rows)[|BuildCsv(rows)| - 1] == '\n'
  {
    forall k | 0 <= k < |rows| ensures AllSpace(rows[k].kolUid) <==> Trim(rows[k].kolUid) == "" { TrimIsEmpty(rows[k].kolUid); }
    LinesEnd(WithUid(rows), rows);
    HeaderLine(WithUid(rows));
    hide LinesOf, Join, Headers, Trim, AllSpace;
    Framed(Join(Headers(WithUid(rows))), LinesOf(WithUid(rows), rows));
  }

  lemma Framed(line: string, lines: string)
    requires lines != "" ==> lines[|lines| - 1] == '\n'
    ensures
      var file := [BOM] + line + "\n" + lines;
      [BOM] + (line + "\n") <= file && file[|file| - 1] == '\n'
  {
    assert [BOM] + line + "\n" + lines == [BOM] + (line + "\n") + lines;
  }

  lemma HeaderLine(withUid: bool)
    ensures Join(Headers(withUid)) + "\n" == if withUid then "红人统一ID,频道链接,名称,平台,平台账号\n" else "频道链接,名称,平台,平台账号\n"
  {
    var four := HEADERS;
    assert four[1..] == ["名称", "平台", "平台账号"] && four[1..][1..] == ["平台", "平台账号"] && four[1..][1..][1..] == ["平台账号"];
    assert Join(["平台账号"]) == "平台账号";
    assert Join(["平台", "平台账号"]) == "平台,平台账号";
    assert Join(["名称", "平台", "平台账号"]) == "名称,平台,平台账号";
    assert Join(four) == "频道链接,名称,平台,平台账号";
    if withUid {
      assert Headers(true)[0] == UID_HEADER && Headers(true)[1..] == four;
    } else {
      assert Headers(false) == four;
    }
  }

  lemma {:induction false} LinesEnd(withUid: bool, rows: seq<ImportRow>)
    ensures LinesOf(withUid, rows) != "" ==> LinesOf(withUid, rows)[|LinesOf(withUid, rows)| - 1] == '\n'
  {
    hide Join, Printed, Cells;
    if rows != [] {
      LinesEnd(withUid, rows[1..]);
      var line := Join(Printed(Cells(withUid, rows[0]))) + "\n";
      assert LinesOf(withUid, rows) == line + LinesOf(withUid, rows[1..]);
      assert line[|line| - 1] == '\n';
    }
  }

  /** A cell without quote, comma or line feed is printed as it is; any other is put in quotes. */
  lemma CellShape(text: string)
    ensures (forall i :: 0 <= i < |text| ==> text[i] != '"' && text[i] != ',' && text[i] != '\n') ==> CsvCell(text) == text
    ensures (exists i :: 0 <= i < |text| && (text[i] == '"' || text[i] == ',' || text[i] == '\n')) ==>
              |CsvCell(text)| >= |text| + 2 && CsvCell(text)[0] == '"' && CsvCell(text)[|CsvCell(text)| - 1] == '"'
  {
    DoubledLength(text);
    hide Doubled;
  }

  lemma {:induction false} DoubledLength(text: string)
    ensures |Doubled(text)| >= |text|
  {
    if text != "" { DoubledLength(text[1..]); }
  }

  /** The uid column is there exactly when some row's trimmed uid is not empty. */
  lemma UidColumnIffSomeUid(rows: seq<ImportRow>)
    ensures
      var records := Read(false, BuildCsv(rows));
      && records.Some? && |records.value| == |rows| + 1
      && (UID_HEADER in records.value[0] <==> exists i :: 0 <= i < |rows| && Trim(rows[i].kolUid) != "")
  {
    RoundTrip(rows);
    assert UID_HEADER !in HEADERS by { assert |UID_HEADER| == 6; }
  }

  /** Two lists of rows print alike only if they differ in nothing but blanks around uids. */
  lemma PrinterIsInjective(a: seq<ImportRow>, b: seq<ImportRow>)
    requires BuildCsv(a) == BuildCsv(b)
    ensures |a| == |b|
    ensures forall i :: 0 <= i < |a| ==> a[i].(kolUid := Trim(a[i].kolUid)) == b[i].(kolUid := Trim(b[i].kolUid))
  {
    RoundTrip(a);
    RoundTrip(b);
    assert |Table(a)| == |a| + 1 && |Table(b)| == |b| + 1;
    assert |Headers(true)| == 5 && |Headers(false)| == 4;
    assert Table(a)[0] == Table(b)[0];
    var withUid := WithUid(a);
    assert WithUid(b) == withUid;
    forall i | 0 <= i < |a| ensures a[i].(kolUid := Trim(a[i].kolUid)) == b[i].(kolUid := Trim(b[i].kolUid)) {
      assert Table(a)[i + 1] == Table(b)[i + 1];
      SameCells(withUid, a[i], b[i]);
    }
  }

  lemma SameCells(withUid: bool, a: ImportRow, b: ImportRow)
    requires Cells(withUid, a) == Cells(withUid, b) && (!withUid ==> Trim(a.kolUid) == Trim(b.kolUid))
    ensures a.(kolUid := Trim(a.kolUid)) == b.(kolUid := Trim(b.kolUid))
  {
    var x, y, k := Cells(withUid, a), Cells(withUid, b), if withUid then 1 else 0;
    assert x[k] == y[k] && x[k + 1] == y[k + 1] && x[k + 2] == y[k + 2] && x[k + 3] == y[k + 3];
    assert withUid ==> x[0] == y[0];
  }

  /** A CR at the end of an unquoted account is not protected. */
  predicate Exposed(row: ImportRow)
  {
    !NeedsQuotes(row.account) && row.account != "" && row.account[|row.account| - 1] == '\r'
  }

  /** A reader that takes CRLF as well recovers every cell exactly when no unquoted account ends in CR. */
  lemma RoundTripWithCrLfExactlyWhen(rows: seq<ImportRow>)
    ensures Read(true, BuildCsv(rows)) == Some(Table(rows)) <==> forall i :: 0 <= i < |rows| ==> !Exposed(rows[i])
  {
    ReadBack(true, rows);
    hide Headers, WithUid, BuildCsv, Read, Exposed, Cells, Seen;
    var withUid := WithUid(rows);
    var taken, plain := TableOf(true, withUid, rows), Table(rows)[1..];
    assert Table(rows) == [Headers(withUid)] + plain;
    assert ([Headers(withUid)] + taken)[1..] == taken;
    forall i | 0 <= i < |rows| ensures taken[i] == plain[i] <==> !Exposed(rows[i]) {
      RowTakenExactlyWhen(withUid, rows[i]);
    }
    if i :| 0 <= i < |rows| && Exposed(rows[i]) {
      assert taken[i] != plain[i];
    } else {
      assert taken == plain;
    }
  }

  lemma RowTakenExactlyWhen(withUid: bool, row: ImportRow)
    ensures Seen(true, Cells(withUid, row)) == Cells(withUid, row) <==> !Exposed(row)
  {
    var cells := Cells(withUid, row);
    assert cells[|cells| - 1] == row.account;
    assert Seen(true, cells)[|cells| - 1] == Last(true, row.account);
    if Last(true, row.account) == row.account { assert Seen(true, cells) == cells; }
  }
}
