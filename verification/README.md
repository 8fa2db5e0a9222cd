# Certificate expiry checker — verified model of the scan pipeline

The checker is a small desktop window (`cert_checker_gui.py`). Behind its
SEARCH button sits a decision pipeline, and this project models that
pipeline as pure Dafny functions and proves properties about them:

* **Scan** (`run_check`). The window takes a directory listing and
  keeps the names whose lower-cased form ends in `.cer`, `.pem` or `.crt`.
  It reads each such file and subtracts the current wall-clock time from
  the wall-clock reading of its "not valid after" time, taking whole days
  as `timedelta.days` does (floor of the difference). It
  adds a table row when the days left are at most the threshold. The
  boundary is inclusive, and certificates that have already expired are
  included. A file that cannot be read becomes one error row and the loop
  goes on. The status line reports how many certificate rows were added.
* **Record post-processing** (`get_cert_info`). A missing or empty issuer
  or subject common name becomes `"N/A"`. The serial number is printed in
  upper-case hexadecimal. Every failure is rewrapped as
  `"Certificate read error: …"`.
* **Export** (`copy_to_clipboard`). The export is a heading line plus one
  tab-joined line per row, joined by newlines. An empty table exports
  nothing.
* **Language switch** (`toggle_language`). This swaps Russian and English.
  The export headings are taken from the current language.

Modules, one per concern: `Wrappers` (Option/Result), `Text` (ASCII
lower-casing, Python `join`/`split` with one-character separators),
`Numerals` (`f"{n:X}"`, `str(n)` and their readers), `Calendar` (naive
instants, `timedelta.days`, the proleptic Gregorian calendar and
`strftime('%Y-%m-%d')`), `Certificates` (`get_cert_info`), `Scanner` (the
`run_check` loop), `Language`, `Export`.

Inputs the model takes as parameters instead of computing them:

* the directory listing (`os.listdir`) is a sequence of names;
* whether the folder exists (`os.path.isdir`) is a boolean;
* reading and decoding a file (`open`, `crypto.load_certificate`,
  `dateutil` parsing of notAfter) is a `Loader`. A loader maps a name to
  the library's fields, or to the text of the exception it raised;
* "now" (`datetime.now()`) is one instant for the whole scan.

Instants are naive datetimes: microseconds since 0001-01-01 00:00:00.

Points where the behaviour of the code is not what one might expect; the
model follows the code:

* Inclusion is `days_left <= threshold` with no lower bound, so expired
  certificates are listed, with a negative count of days left.
* Days left depends on the time of day of both instants. It is not a
  difference of calendar dates (`Calendar.DaysLeftDependsOnTimeOfDay`).
* The expiry is the certificate's UTC time with its zone dropped, while
  `datetime.now()` is local time. Days left is therefore off by the local
  UTC offset. For example, in UTC+3 a notAfter of `20301231235959Z`
  scanned at local 2030-12-31 02:00 is 1 day 0:59:59 away, but the code
  counts 21:59:59, that is 0 days.
* `.pem` names pass the filter, but every file is decoded as binary DER.
  A text PEM file therefore reaches the table as an error row, through
  the loader's failure.

## Model

| member | source | states |
|---|---|---|
| Scanner.IsCertFileName | cert_checker_gui.py:196 | a name passes the filter exactly when it has at least four characters and its last four, lower-cased, are `.cer`, `.pem` or `.crt` |
| Scanner.CertFileNameIgnoresCase | cert_checker_gui.py:196 | the filter gives the same answer for a name and its lower-cased form |
| Scanner.CertFileNameAnyCase | cert_checker_gui.py:196 | any name ending in one of the three extensions, in any mix of letter case, passes the filter |
| Calendar.DaysLeft | cert_checker_gui.py:201 | days left is the floor of (expiry − now) in whole days: `r` days fit in the difference and `r + 1` do not |
| Calendar.OneSecondBefore | cert_checker_gui.py:201 | an expiry one second before now gives −1 days left |
| Calendar.DaysLeftExact | cert_checker_gui.py:201 | a difference of exactly k days, of either sign, gives k days left |
| Calendar.DaysLeftMonotonic | cert_checker_gui.py:201-203 | a later expiry never has fewer days left |
| Calendar.DaysLeftDependsOnTimeOfDay | cert_checker_gui.py:201 | from noon to 06:00 the next day is 0 days left, although the calendar dates differ by one |
| Calendar.DateOf | cert_checker_gui.py:206 | the date of a day number is a valid calendar date whose day number is that number |
| Calendar.DateOfOrdinal | cert_checker_gui.py:206 | every valid date is the date of its own day number, so dates and day numbers correspond one to one |
| Calendar.FormatDate | cert_checker_gui.py:206 | the `%Y-%m-%d` rendering has ten characters with dashes at positions 4 and 7 for years up to 9999, and holds only digits and dashes |
| Calendar.FormatDateRoundTrip | cert_checker_gui.py:206 | reading the rendered year, month and day back gives the date |
| Calendar.ExpiryText | cert_checker_gui.py:206 | the expiry column reads back as the calendar date containing the expiry instant |
| Certificates.OrNotAvailable | cert_checker_gui.py:165-166 | a present, non-empty common name is kept; an absent or empty one becomes "N/A" |
| Certificates.SerialText | cert_checker_gui.py:167-173 | the serial text read as base 16 gives the serial number, and it is canonical: upper-case digits, no leading zero, no "-0" |
| Certificates.SerialTextInjective | cert_checker_gui.py:173 | different serial numbers are printed differently |
| Numerals.IntDigits | cert_checker_gui.py:173 | `f"{n:X}"` (and `str(n)` at line 271) reads back in its base as n, and is canonical: upper-case digits, no leading zero, a minus sign only for negatives |
| Numerals.CanonicalUnique | cert_checker_gui.py:173 | a canonical numeral is the rendering of the number it denotes, so the rendering is the only canonical form |
| Certificates.GetCertInfo | cert_checker_gui.py:157-176 | a failure becomes "Certificate read error: " followed by the message; a success keeps the expiry, applies the N/A fallback and renders the serial so that it reads back as the serial number |
| Scanner.FileRows | cert_checker_gui.py:196-221 | a rejected name adds no row; an unreadable file adds exactly one error row with the prefixed message; a certificate adds one row exactly when its days left are at most the threshold, negative values included |
| Scanner.ScanRows | cert_checker_gui.py:195-221 | the table has no more rows than the listing has names, and every row's file is a listed name that passed the filter |
| Scanner.ScanAppend | cert_checker_gui.py:195 | scanning a concatenated listing gives the two tables concatenated, so rows follow the listing order |
| Scanner.ScanPosition | cert_checker_gui.py:195-238 | the rows of the i-th entry come after those of all earlier entries and before those of all later ones |
| Scanner.ScanCounts | cert_checker_gui.py:194-221 | the table has one certificate row per listed certificate and one error row per unreadable file; error rows and certificates beyond the threshold are not counted |
| Scanner.ThresholdExample | cert_checker_gui.py:203-212 | certificates with 5, 15, 40 and −2 days left against threshold 20 give three listed certificates |
| Scanner.ScanEntry | cert_checker_gui.py:196-221 | one loop pass adds that entry's rows and counts 1 exactly when the entry is a listed certificate |
| Scanner.RunCheck | cert_checker_gui.py:178-225 | a missing folder leaves the table and the status bar untouched; otherwise the old table is discarded, the result is the scan of the listing, and the reported count is the number of certificate rows, which is the number of listed certificates |
| Language.Toggle | cert_checker_gui.py:282-283 | the switch always changes the language |
| Language.ToggleTwice | cert_checker_gui.py:283 | switching twice restores the language |
| Language.Headers | cert_checker_gui.py:258-265 | there are six column headings, one per table column |
| Language.HeadersPlain | cert_checker_gui.py:258-266 | no heading, in either language, holds a tab or newline |
| Export.Cells | cert_checker_gui.py:214-221 | every row renders as six cells, the file name first; an error row puts its message second and "N/A" in the other four; a certificate row's days-left cell reads back as its days left and is canonical, so it is exactly `str(days_left)` |
| Export.ClipboardText | cert_checker_gui.py:247-253 | the export is empty exactly when the table is empty |
| Export.ExportRoundTrip | cert_checker_gui.py:255-275 | with no tab or newline in any cell, the text splits into rows + 1 lines; the first splits on tabs into the headings and each other line into its row's six cells |
| Export.ExportLines | cert_checker_gui.py:275 | the export text is its newline-split lines joined back with newlines |
| Export.ScanRowsClean | cert_checker_gui.py:269-271 | if no name that passes the filter, and no common name or read error of such a file, holds a tab or newline, every scanned row exports cleanly; rejected names are unconstrained, because dates, day counts and serials never hold one |
| Text.Join | cert_checker_gui.py:266-275 | `"\t".join` / `"\n".join`: splitting the joined text on the separator gives the parts back when there is at least one part and none holds the separator |
| Text.JoinSplit | cert_checker_gui.py:275 | joining the pieces of a split gives the original text |

## Left out

- Certificate decoding (`crypto.load_certificate` with DER input) is a foreign library call. Its outcome is the `Loader` parameter.
- `dateutil` parsing of the notAfter string, and the dropping of its time zone, are part of the loader. The model receives the expiry as a naive instant.
- `datetime.now()` is a parameter. `os.listdir`, `os.path.isdir` and file reading are parameters too.
- The source reads the clock once per certificate, inside the loop (cert_checker_gui.py:201). The model takes one `now` for the whole scan. A scan that runs across a day boundary can therefore give later certificates a day count one lower than the model gives.
- The model does not know about time zones. The loader's expiry is the UTC reading with the zone dropped, and `now` is the local reading; the model subtracts them as the code does, so its days left carry the same UTC-offset error (see above).
- The error dialog `run_check` shows for a missing folder is left out. The model only records that the table and the status bar are left as they were.
- Calendar.DateOf: the model does not bound instants at `datetime`'s year 9999. Such instants cannot reach the model, because the loader fails for them.
- Calendar.FormatDate: years below 1000 are zero-padded to four digits. `strftime('%Y')` pads them or not depending on the platform.
- Scanner.IsCertFileName lower-cases ASCII letters only. For the suffixes `.cer`, `.pem` and `.crt` this gives the same answer as Python's Unicode `str.lower`.
- The outer exception handler around the whole scan (cert_checker_gui.py:226-231) is left out. So is a failure of `days_before.get()` on non-numeric spinbox text, which happens outside any handler.
- The export takes the stored row strings. The source reads rows back through `tree.item(item)['values']`, and Tk turns cells that parse as Python integers into `int`. A common name such as `007` would therefore be copied as `7`.
- Export.ExportRoundTrip requires that no cell holds a tab or newline. File names, common names and error messages can hold them, and then the export's line and field structure breaks. The source does not escape them.
- The widgets, layout, spinbox limits (1–365, not enforced on typed values), message boxes and clipboard calls are left out. So is the widget walk in `update_ui_text`. The status strings are left out as text; `Scanner.Status` carries the count and threshold they format.
- Translation strings other than the six column headings are left out.
