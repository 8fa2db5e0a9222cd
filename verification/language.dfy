/** The two interface languages, the EN/RU switch, and the column headings
    the export writes as its first line. */
module Language {

  datatype Language = Ru | En

  /** `toggle_language`: English after Russian, Russian otherwise. */
  function Toggle(lang: Language): (r: Language)
    ensures r != lang
  {
    if lang == Ru then En else Ru
  }

  /** Pressing the switch twice restores the language. */
  lemma ToggleTwice(lang: Language)
    ensures Toggle(Toggle(lang)) == lang
  {
  }

  const RussianHeaders: seq<string> :=
    ["Имя файла", "Дата истечения", "Дней осталось", "Издатель", "Владелец", "Серийный номер"]

  const EnglishHeaders: seq<string> :=
    ["File Name", "Expiry Date", "Days Left", "Issuer", "Subject", "Serial Number"]

  /** The six column headings, in table order: file, expiry, days left,
      issuer, subject, serial number. */
  function Headers(lang: Language): (r: seq<string>)
    ensures |r| == 6
  {
    match lang
    case Ru => RussianHeaders
    case En => EnglishHeaders
  }

  predicate PlainLabel(s: string) {
    forall i :: 0 <= i < |s| ==> s[i] != '\t' && s[i] != '\n'
  }

  lemma RussianPlain()
    ensures forall i :: 0 <= i < 6 ==> PlainLabel(RussianHeaders[i])
  {
    assert PlainLabel("Имя файла") && PlainLabel("Дата истечения") && PlainLabel("Дней осталось");
    assert PlainLabel("Издатель") && PlainLabel("Владелец") && PlainLabel("Серийный номер");
  }

  lemma EnglishPlain()
    ensures forall i :: 0 <= i < 6 ==> PlainLabel(EnglishHeaders[i])
  {
    assert PlainLabel("File Name") && PlainLabel("Expiry Date") && PlainLabel("Days Left");
    assert PlainLabel("Issuer") && PlainLabel("Subject") && PlainLabel("Serial Number");
  }

  /** No heading holds a tab or a newline, so the heading line splits back cleanly. */
  lemma HeadersPlain(lang: Language)
    ensures forall i :: 0 <= i < 6 ==> '\t' !in Headers(lang)[i] && '\n' !in Headers(lang)[i]
  {
    if lang == Ru {
      RussianPlain();
    } else {
      EnglishPlain();
    }
    forall i | 0 <= i < 6
      ensures '\t' !in Headers(lang)[i] && '\n' !in Headers(lang)[i]
    {
      assert PlainLabel(Headers(lang)[i]);
    }
  }
}
