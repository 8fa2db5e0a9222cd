/** `copy_to_clipboard`: the table as tab-separated text, a heading line
    first and then one line per row, the lines joined by newlines. */
module Export {
  import opened Wrappers
  import opened Text
  import opened Numerals
  import opened Calendar
  import opened Certificates
  import opened Scanner
  import opened Language

  /** The six cells of a row as `str` renders them: the days left in decimal,
      and for an error row the message in the expiry column and "N/A" in the
      four after it. */
  function Cells(row: Row): (r: seq<string>)
    ensures |r| == 6 && r[0] == row.file
    ensures row.ErrorRow? ==> r[1] == row.message && forall i :: 2 <= i < 6 ==> r[i] == NotAvailable
    ensures row.CertRow? ==>
      && r[1] == row.expiry && ParseInt(r[2], 10) == Some(row.daysLeft) && Canonical(r[2], 10)
      && r[3] == row.issuer && r[4] == row.subject && r[5] == row.serial
  {
    match row
    case CertRow(file, expiry, daysLeft, issuer, subject, serial) =>
      [file, expiry, IntDigits(daysLeft, 10), issuer, subject, serial]
    case ErrorRow(file, message) =>
      [file, message, NotAvailable, NotAvailable, NotAvailable, NotAvailable]
  }

  /** The clipboard text, or nothing at all when the table is empty (the
      source then only warns that there is no data to copy). */
  function ClipboardText(lang: Language, table: seq<Row>): (r: Option<string>)
    ensures r.None? <==> table == []
  {
    if table == [] then None
    else Some(Join([Join(Headers(lang), '\t')] + seq(|table|, k requires 0 <= k < |table| => Join(Cells(table[k]), '\t')), '\n'))
  }

  /** Free of the two characters the export uses as separators. */
  predicate Clean(s: string) {
    '\t' !in s && '\n' !in s
  }

  predicate CleanRow(row: Row) {
    forall i :: 0 <= i < 6 ==> Clean(Cells(row)[i])
  }

  lemma {:induction false} CleanLine(cells: seq<string>)
    requires forall i :: 0 <= i < |cells| ==> Clean(cells[i])
    ensures '\n' !in Join(cells, '\t')
  {
    JoinAvoids(cells, '\t', '\n');
  }

  /** When no cell holds a tab or a newline, the exported text splits back
      into exactly one line more than there are rows, the first giving the
      headings and each other one giving its row's six cells. */
  lemma {:induction false} ExportRoundTrip(lang: Language, table: seq<Row>)
    requires table != []
    requires forall k :: 0 <= k < |table| ==> CleanRow(table[k])
    ensures var lines := Split(ClipboardText(lang, table).value, '\n');
      && |lines| == |table| + 1
      && Split(lines[0], '\t') == Headers(lang)
      && forall k :: 0 <= k < |table| ==> Split(lines[k + 1], '\t') == Cells(table[k])
  {
    var header := Join(Headers(lang), '\t');
    var rowLines := seq(|table|, k requires 0 <= k < |table| => Join(Cells(table[k]), '\t'));
    var lines := [header] + rowLines;
    assert ClipboardText(lang, table).value == Join(lines, '\n');
    HeaderLine(lang);
    forall k | 0 <= k < |table|
      ensures '\n' !in rowLines[k]
      ensures Split(rowLines[k], '\t') == Cells(table[k])
    {
      RowLine(table[k]);
    }
    forall i | 0 <= i < |lines|
      ensures '\n' !in lines[i]
    {
      if i > 0 {
        assert lines[i] == rowLines[i - 1];
      }
    }
  }

  /** The heading line is one line and splits on tabs into the headings. */
  lemma HeaderLine(lang: Language)
    ensures '\n' !in Join(Headers(lang), '\t')
    ensures Split(Join(Headers(lang), '\t'), '\t') == Headers(lang)
  {
    HeadersPlain(lang);
    CleanLine(Headers(lang));
  }

  /** A clean row's line is one line and splits on tabs into its cells. */
  lemma RowLine(row: Row)
    requires CleanRow(row)
    ensures '\n' !in Join(Cells(row), '\t')
    ensures Split(Join(Cells(row), '\t'), '\t') == Cells(row)
  {
    var cells := Cells(row);
    assert forall i :: 0 <= i < |cells| ==> '\t' !in cells[i];
    CleanLine(cells);
  }

  /** The exported text is always the lines it splits into, joined back with
      newlines, whatever the cells hold. */
  lemma {:induction false} ExportLines(lang: Language, table: seq<Row>)
    requires table != []
    ensures Join(Split(ClipboardText(lang, table).value, '\n'), '\n') == ClipboardText(lang, table).value
  {
    JoinSplit(ClipboardText(lang, table).value, '\n');
  }

  /** An entry that, if it passes the filter, has its user-controlled text,
      the file name, the common names or the read error, free of tabs and
      newlines. Names the filter rejects add no row and are unconstrained. */
  predicate CleanEntry(name: string, load: Loader) {
    IsCertFileName(name) ==>
      && Clean(name)
      && (load(name).Failure? ==> Clean(load(name).error))
      && (load(name).Success? ==>
            Clean(OrNotAvailable(load(name).value.issuerName)) && Clean(OrNotAvailable(load(name).value.subjectName)))
  }

  lemma NumeralClean(s: string)
    requires NumeralText(s)
    ensures Clean(s)
  {
  }

  lemma {:induction false} ErrorRowClean(name: string, error: string)
    requires Clean(name) && Clean(error)
    ensures CleanRow(ErrorRow(name, ReadErrorPrefix + error))
  {
    assert Clean(ReadErrorPrefix);
  }

  lemma {:induction false} CleanCertRow(file: string, expiry: string, daysLeft: int, issuer: string, subject: string, serial: string)
    requires Clean(file) && Clean(expiry) && Clean(issuer) && Clean(subject) && Clean(serial)
    ensures CleanRow(CertRow(file, expiry, daysLeft, issuer, subject, serial))
  {
    IntDigitsText(daysLeft, 10);
    NumeralClean(IntDigits(daysLeft, 10));
    var cells := Cells(CertRow(file, expiry, daysLeft, issuer, subject, serial));
    assert cells == [file, expiry, IntDigits(daysLeft, 10), issuer, subject, serial];
  }

  lemma {:induction false} CertRowClean(name: string, c: RawCert, now: Instant)
    requires Clean(name) && Clean(OrNotAvailable(c.issuerName)) && Clean(OrNotAvailable(c.subjectName))
    ensures CleanRow(CertRowFor(name, c, now))
  {
    var expiry := ExpiryText(c.notAfter);
    NumeralClean(expiry);
    var serial := SerialText(c.serialNumber);
    IntDigitsText(c.serialNumber, 16);
    NumeralClean(serial);
    CleanCertRow(name, expiry, DaysLeft(c.notAfter, now), OrNotAvailable(c.issuerName), OrNotAvailable(c.subjectName), serial);
  }

  lemma {:induction false} FileRowsClean(name: string, load: Loader, now: Instant, threshold: int)
    requires CleanEntry(name, load)
    ensures forall k :: 0 <= k < |FileRows(name, load, now, threshold)| ==> CleanRow(FileRows(name, load, now, threshold)[k])
  {
    var rows := FileRows(name, load, now, threshold);
    if rows != [] {
      var loaded := load(name);
      if loaded.Failure? {
        assert rows == [ErrorRow(name, ReadErrorPrefix + loaded.error)];
        ErrorRowClean(name, loaded.error);
      } else {
        assert rows == [CertRowFor(name, loaded.value, now)];
        CertRowClean(name, loaded.value, now);
      }
    }
  }

  /** A scan of clean entries exports losslessly: every row it produces is clean. */
  lemma {:induction false} ScanRowsClean(listing: seq<string>, load: Loader, now: Instant, threshold: int)
    requires forall i :: 0 <= i < |listing| ==> CleanEntry(listing[i], load)
    ensures forall k :: 0 <= k < |ScanRows(listing, load, now, threshold)| ==> CleanRow(ScanRows(listing, load, now, threshold)[k])
    decreases |listing|
  {
    if |listing| > 0 {
      var init := listing[..|listing| - 1];
      ScanRowsClean(init, load, now, threshold);
      FileRowsClean(listing[|listing| - 1], load, now, threshold);
    }
  }
}
