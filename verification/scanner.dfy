/** The scan loop of `run_check`: filter the directory listing by extension,
    read each certificate, keep those expiring within the threshold, turn
    every read failure into an error row, and count the certificates kept. */
module Scanner {
  import opened Wrappers
  import opened Text
  import opened Calendar
  import opened Certificates

  const CertExtensions: seq<string> := [".cer", ".pem", ".crt"]

  /** The extension filter: the lower-cased name ends in `.cer`, `.pem` or
      `.crt`. It looks at nothing but the last four characters, and compares
      them with the extensions ignoring case. */
  function IsCertFileName(name: string): (r: bool)
    ensures r <==> |name| >= 4 && Lower(name[|name| - 4..]) in CertExtensions
  {
    var lower := Lower(name);
    LowerSuffix(name, 4);
    EndsWith(lower, ".cer") || EndsWith(lower, ".pem") || EndsWith(lower, ".crt")
  }

  /** Upper- or mixed-case extensions pass the filter. */
  lemma {:induction false} CertFileNameIgnoresCase(name: string)
    ensures IsCertFileName(name) <==> IsCertFileName(Lower(name))
  {
    assert Lower(Lower(name)) == Lower(name);
  }

  /** Any name ending in one of the extensions, in any mix of cases, passes the filter. */
  lemma {:induction false} CertFileNameAnyCase(stem: string, extension: string)
    requires |extension| == 4 && Lower(extension) in CertExtensions
    ensures IsCertFileName(stem + extension)
  {
    var name := stem + extension;
    assert name[|name| - 4..] == extension;
  }

  /** A table row: a certificate within the threshold, or a file that could not be read. */
  datatype Row =
    | CertRow(file: string, expiry: string, daysLeft: int, issuer: string, subject: string, serial: string)
    | ErrorRow(file: string, message: string)

  /** Reading and decoding one file of the folder, by name. */
  type Loader = string -> Result<RawCert, string>

  /** The certificate row a decoded file gets. */
  function CertRowFor(name: string, c: RawCert, now: Instant): Row {
    CertRow(name, ExpiryText(c.notAfter), DaysLeft(c.notAfter, now),
            OrNotAvailable(c.issuerName), OrNotAvailable(c.subjectName), SerialText(c.serialNumber))
  }

  /** The rows one directory entry adds to the table: none for a name the
      filter rejects, one error row for a file that cannot be read, one row
      for a certificate whose days left are at most the threshold (expired
      ones included), and none for a certificate further in the future. */
  function FileRows(name: string, load: Loader, now: Instant, threshold: int): (r: seq<Row>)
    ensures |r| <= 1
    ensures r != [] ==> r[0].file == name && IsCertFileName(name)
    ensures !IsCertFileName(name) ==> r == []
    ensures IsCertFileName(name) && load(name).Failure? ==>
      r == [ErrorRow(name, ReadErrorPrefix + load(name).error)]
    ensures IsCertFileName(name) && load(name).Success? ==>
      && (r != [] <==> DaysLeft(load(name).value.notAfter, now) <= threshold)
      && (r != [] ==> r[0] == CertRowFor(name, load(name).value, now))
  {
    if !IsCertFileName(name) then []
    else
      match GetCertInfo(load(name))
      case Failure(message) => [ErrorRow(name, message)]
      case Success(info) =>
        var days := DaysLeft(info.expiry, now);
        if days <= threshold then [CertRow(name, ExpiryText(info.expiry), days, info.issuer, info.subject, info.serial)]
        else []
  }

  /** The table after scanning `listing`, each entry's rows appended at the end. */
  function ScanRows(listing: seq<string>, load: Loader, now: Instant, threshold: int): (r: seq<Row>)
    ensures |r| <= |listing|
    ensures forall i :: 0 <= i < |r| ==> r[i].file in listing && IsCertFileName(r[i].file)
    decreases |listing|
  {
    if |listing| == 0 then []
    else
      var init := listing[..|listing| - 1];
      var rows := ScanRows(init, load, now, threshold);
      var last := FileRows(listing[|listing| - 1], load, now, threshold);
      RowsFromListing(listing, rows, last);
      rows + last
  }

  /** Appending the rows of the last entry keeps every row's file in the listing. */
  lemma RowsFromListing(listing: seq<string>, rows: seq<Row>, last: seq<Row>)
    requires |listing| >= 1
    requires forall i :: 0 <= i < |rows| ==> rows[i].file in listing[..|listing| - 1] && IsCertFileName(rows[i].file)
    requires |last| <= 1 && (last != [] ==> last[0].file == listing[|listing| - 1] && IsCertFileName(last[0].file))
    ensures forall i :: 0 <= i < |rows + last| ==> (rows + last)[i].file in listing && IsCertFileName((rows + last)[i].file)
  {
    var init := listing[..|listing| - 1];
    assert listing == init + [listing[|listing| - 1]];
    forall i | 0 <= i < |rows + last|
      ensures (rows + last)[i].file in listing && IsCertFileName((rows + last)[i].file)
    {
      if i < |rows| {
        assert (rows + last)[i] == rows[i];
        assert rows[i].file in init;
      } else {
        assert (rows + last)[i] == last[0];
      }
    }
  }

  /** Scanning two listings one after the other is scanning their concatenation:
      rows keep the order of the directory listing. */
  lemma {:induction false} ScanAppend(a: seq<string>, b: seq<string>, load: Loader, now: Instant, threshold: int)
    ensures ScanRows(a + b, load, now, threshold) == ScanRows(a, load, now, threshold) + ScanRows(b, load, now, threshold)
    decreases |b|
  {
    if |b| == 0 {
      assert a + b == a;
    } else {
      var init := b[..|b| - 1];
      assert (a + b)[..|a + b| - 1] == a + init;
      ScanAppend(a, init, load, now, threshold);
    }
  }

  /** The rows of the entry at position i come after those of every earlier
      entry and before those of every later one. */
  lemma {:induction false} ScanPosition(listing: seq<string>, i: nat, load: Loader, now: Instant, threshold: int)
    requires i < |listing|
    ensures ScanRows(listing, load, now, threshold)
         == ScanRows(listing[..i], load, now, threshold)
          + FileRows(listing[i], load, now, threshold)
          + ScanRows(listing[i + 1..], load, now, threshold)
  {
    var before, after := listing[..i], listing[i + 1..];
    var one := [listing[i]];
    assert listing == before + (one + after);
    ScanAppend(before, one + after, load, now, threshold);
    ScanAppend(one, after, load, now, threshold);
    SingleEntry(listing[i], load, now, threshold);
    var a, f, c := ScanRows(before, load, now, threshold), FileRows(listing[i], load, now, threshold), ScanRows(after, load, now, threshold);
    assert ScanRows(listing, load, now, threshold) == a + (f + c);
    assert a + (f + c) == a + f + c;
  }

  lemma SingleEntry(name: string, load: Loader, now: Instant, threshold: int)
    ensures ScanRows([name], load, now, threshold) == FileRows(name, load, now, threshold)
  {
    assert [name][..0] == [];
  }

  lemma {:induction false} ScanStep(listing: seq<string>, i: nat, load: Loader, now: Instant, threshold: int)
    requires i < |listing|
    ensures ScanRows(listing[..i + 1], load, now, threshold)
         == ScanRows(listing[..i], load, now, threshold) + FileRows(listing[i], load, now, threshold)
  {
    assert listing[..i + 1][..i] == listing[..i];
  }

  /** The number of certificate rows in a table (error rows are not counted). */
  function CertCount(rows: seq<Row>): nat
    decreases |rows|
  {
    if |rows| == 0 then 0 else CertCount(rows[..|rows| - 1]) + (if rows[|rows| - 1].CertRow? then 1 else 0)
  }

  lemma {:induction false} CertCountAppend(a: seq<Row>, b: seq<Row>)
    ensures CertCount(a + b) == CertCount(a) + CertCount(b)
    decreases |b|
  {
    if |b| == 0 {
      assert a + b == a;
    } else {
      assert (a + b)[..|a + b| - 1] == a + b[..|b| - 1];
      CertCountAppend(a, b[..|b| - 1]);
    }
  }

  /** An entry whose certificate is listed: a certificate file name, readable,
      with days left at most the threshold. */
  predicate Listed(name: string, load: Loader, now: Instant, threshold: int) {
    IsCertFileName(name) && load(name).Success? && DaysLeft(load(name).value.notAfter, now) <= threshold
  }

  /** An entry that becomes an error row: a certificate file name that cannot be read. */
  predicate Unreadable(name: string, load: Loader) {
    IsCertFileName(name) && load(name).Failure?
  }

  function ListedCount(listing: seq<string>, load: Loader, now: Instant, threshold: int): nat
    decreases |listing|
  {
    if |listing| == 0 then 0
    else
      var last := if Listed(listing[|listing| - 1], load, now, threshold) then 1 else 0;
      ListedCount(listing[..|listing| - 1], load, now, threshold) + last
  }

  function UnreadableCount(listing: seq<string>, load: Loader): nat
    decreases |listing|
  {
    if |listing| == 0 then 0
    else UnreadableCount(listing[..|listing| - 1], load) + (if Unreadable(listing[|listing| - 1], load) then 1 else 0)
  }

  /** The table holds one certificate row per listed entry and one error row
      per unreadable entry, and nothing else. */
  lemma {:induction false} ScanCounts(listing: seq<string>, load: Loader, now: Instant, threshold: int)
    ensures CertCount(ScanRows(listing, load, now, threshold)) == ListedCount(listing, load, now, threshold)
    ensures |ScanRows(listing, load, now, threshold)| == ListedCount(listing, load, now, threshold) + UnreadableCount(listing, load)
    decreases |listing|
  {
    if |listing| > 0 {
      var init := listing[..|listing| - 1];
      var name := listing[|listing| - 1];
      ScanCounts(init, load, now, threshold);
      CertCountAppend(ScanRows(init, load, now, threshold), FileRows(name, load, now, threshold));
      var fr := FileRows(name, load, now, threshold);
      assert CertCount(fr) == (if Listed(name, load, now, threshold) then 1 else 0) by {
        if |fr| == 1 {
          assert fr[..0] == [];
        }
      }
    }
  }

  /** Three readable certificates expiring in 5, 15 and 40 days and one that
      expired two days ago, scanned with threshold 20: the 5-day, 15-day and
      expired ones are listed, the 40-day one is not. */
  lemma {:induction false} ThresholdExample(load: Loader, now: Instant)
    requires load("a.cer") == Success(RawCert(now + 7 * MicrosPerDay, None, None, 1))
    requires load("b.cer") == Success(RawCert(now + 17 * MicrosPerDay, None, None, 2))
    requires load("c.cer") == Success(RawCert(now + 42 * MicrosPerDay, None, None, 3))
    requires load("d.cer") == Success(RawCert(now, None, None, 4))
    ensures ListedCount(["a.cer", "b.cer", "c.cer", "d.cer"], load, now + 2 * MicrosPerDay, 20) == 3
  {
    var t := now + 2 * MicrosPerDay;
    LowerNoCapitals(".cer");
    assert "a.cer"[1..] == ".cer" && "b.cer"[1..] == ".cer" && "c.cer"[1..] == ".cer" && "d.cer"[1..] == ".cer";
    DaysLeftExact(now + 7 * MicrosPerDay, t, 5);
    DaysLeftExact(now + 17 * MicrosPerDay, t, 15);
    DaysLeftExact(now + 42 * MicrosPerDay, t, 40);
    DaysLeftExact(now, t, -2);
    assert Listed("a.cer", load, t, 20) && Listed("b.cer", load, t, 20);
    assert !Listed("c.cer", load, t, 20) && Listed("d.cer", load, t, 20);
    var l1, l2, l3, l4 := ["a.cer"], ["a.cer", "b.cer"], ["a.cer", "b.cer", "c.cer"], ["a.cer", "b.cer", "c.cer", "d.cer"];
    assert l1[..0] == [] && l2[..1] == l1 && l3[..2] == l2 && l4[..3] == l3;
    assert ListedCount(l1, load, t, 20) == 1;
    assert ListedCount(l2, load, t, 20) == 2;
    assert ListedCount(l3, load, t, 20) == 2;
    assert ListedCount(l4, load, t, 20) == 3;
  }

  /** What the status bar shows. */
  datatype Status =
    | Ready                            // the text shown at start-up and after a language switch
    | Done(found: nat, threshold: int) // the scan finished: `found` certificates within `threshold` days

  /** One pass of the scan loop's body: the rows `name` adds, and 1 when one
      of them is a certificate row. */
  method ScanEntry(name: string, load: Loader, now: Instant, threshold: int) returns (added: seq<Row>, found: nat)
    ensures added == FileRows(name, load, now, threshold)
    ensures found == CertCount(added) <= 1
    ensures found == 1 <==> Listed(name, load, now, threshold)
  {
    added, found := [], 0;
    if IsCertFileName(name) {
      match GetCertInfo(load(name)) {
        case Failure(message) =>
          added := [ErrorRow(name, message)];
        case Success(info) =>
          var days := DaysLeft(info.expiry, now);
          if days <= threshold {
            added := [CertRow(name, ExpiryText(info.expiry), days, info.issuer, info.subject, info.serial)];
            found := 1;
          }
      }
    }
    if |added| == 1 {
      assert added[..0] == [];
    }
  }

  /** `run_check` on a table holding `table` with `shown` in the status bar:
      refuse a missing folder without touching the table or the status bar,
      otherwise clear the table, scan the listing in order, append the rows,
      and report how many certificates were found. */
  method RunCheck(table: seq<Row>, shown: Status, folder: string, isDirectory: bool, listing: seq<string>,
                  load: Loader, now: Instant, threshold: int)
    returns (result: seq<Row>, status: Status)
    ensures folder == "" || !isDirectory ==> result == table && status == shown
    ensures folder != "" && isDirectory ==>
      && result == ScanRows(listing, load, now, threshold)
      && status == Done(ListedCount(listing, load, now, threshold), threshold)
      && status.found == CertCount(result)
  {
    if folder == "" || !isDirectory {
      result, status := table, shown;
    } else {
      result := [];
      var count := 0;
      var i := 0;
      while i < |listing|
        invariant 0 <= i <= |listing|
        invariant result == ScanRows(listing[..i], load, now, threshold)
        invariant count == CertCount(result)
      {
        var name := listing[i];
        var added, found := ScanEntry(name, load, now, threshold);
        CertCountAppend(result, added);
        count := count + found;
        result := result + added;
        ScanStep(listing, i, load, now, threshold);
        i := i + 1;
      }
      assert listing[..i] == listing;
      ScanCounts(listing, load, now, threshold);
      status := Done(count, threshold);
    }
  }
}
