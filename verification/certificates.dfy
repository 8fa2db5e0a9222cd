/** The post-processing `get_cert_info` applies to what the certificate
    library reports: the "N/A" fallback for missing common names, the
    upper-case hexadecimal serial number, and the rewrapping of every
    failure as a "Certificate read error". */
module Certificates {
  import opened Wrappers
  import opened Numerals
  import opened Calendar

  const ReadErrorPrefix := "Certificate read error: "
  const NotAvailable := "N/A"

  /** The fields the certificate library yields for one readable file: the
      parsed "not valid after" instant with its time zone dropped, the
      issuer and subject common names (possibly absent or empty), and the
      serial number as an unbounded integer. */
  datatype RawCert = RawCert(notAfter: Instant, issuerName: Option<string>, subjectName: Option<string>, serialNumber: int)

  /** The record `get_cert_info` returns. */
  datatype CertInfo = CertInfo(expiry: Instant, issuer: string, subject: string, serial: string)

  /** `cn or "N/A"`: a missing or empty common name reads as "N/A". */
  function OrNotAvailable(name: Option<string>): (r: string)
    ensures r != ""
    ensures name.Some? && name.value != "" ==> r == name.value
    ensures name.None? || name.value == "" ==> r == NotAvailable
  {
    match name
    case Some(n) => if n == "" then NotAvailable else n
    case None => NotAvailable
  }

  /** `f"{serial:X}"`: upper-case hexadecimal, no prefix, no leading zeros,
      a minus sign for a negative serial. */
  function SerialText(serial: int): (r: string)
    ensures ParseInt(r, 16) == Some(serial)
    ensures Canonical(r, 16)
  {
    IntDigits(serial, 16)
  }

  /** `get_cert_info`, given the outcome of reading and decoding the file:
      either the library's fields or the text of the exception it raised. */
  function GetCertInfo(loaded: Result<RawCert, string>): (r: Result<CertInfo, string>)
    ensures r.Failure? <==> loaded.Failure?
    ensures loaded.Failure? ==> r.error == ReadErrorPrefix + loaded.error
    ensures loaded.Success? ==>
      && r.value.expiry == loaded.value.notAfter
      && r.value.issuer == OrNotAvailable(loaded.value.issuerName)
      && r.value.subject == OrNotAvailable(loaded.value.subjectName)
      && ParseInt(r.value.serial, 16) == Some(loaded.value.serialNumber)
      && Canonical(r.value.serial, 16)
  {
    match loaded
    case Failure(e) => Failure(ReadErrorPrefix + e)
    case Success(c) =>
      Success(CertInfo(c.notAfter, OrNotAvailable(c.issuerName), OrNotAvailable(c.subjectName), SerialText(c.serialNumber)))
  }

  /** Distinct serial numbers are always printed differently. */
  lemma SerialTextInjective(a: int, b: int)
    requires SerialText(a) == SerialText(b)
    ensures a == b
  {
  }
}
