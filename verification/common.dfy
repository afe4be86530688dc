/**
 Vocabulary shared by every handler of the sales-file-sharing backend:
 optional request fields and their JavaScript truthiness, HTTP methods and
 status codes, the spreadsheet MIME allow-list and size limit, and the two
 string helpers (lower-casing and suffix test) the browser code relies on.
 */
module Common {

  /** A request field that may be missing (or `null`). */
  datatype Option<+T> = None | Some(value: T)

  /** JavaScript truthiness of an optional string field: present and not the empty string. */
  predicate Truthy(o: Option<string>) {
    o.Some? && o.value != ""
  }

  /** The name of a request method other than the four the handlers tell apart. */
  type ForeignMethodName = s: string | s != "GET" && s != "POST" && s != "DELETE" && s != "OPTIONS"
    witness "PUT"

  datatype HttpMethod = GET | POST | DELETE | OPTIONS | OtherMethod(name: ForeignMethodName)

  const StatusOk := 200
  const StatusBadRequest := 400
  const StatusForbidden := 403
  const StatusNotFound := 404
  const StatusMethodNotAllowed := 405
  const StatusLocked := 423
  const StatusInternal := 500

  /** The 10 MiB limit on a single uploaded file, enforced by server and browser alike. */
  const MaxUploadBytes: nat := 10 * 1024 * 1024

  const XlsxType := "application/vnd.openxmlformats-officedocument.spreadsheetml.sheet"
  const XlsType := "application/vnd.ms-excel"
  const CsvType := "text/csv"

  /** The three spreadsheet MIME types both sides accept. */
  predicate AllowedType(t: string) {
    t == XlsxType || t == XlsType || t == CsvType
  }

  /** ASCII lower-casing of one character. */
  function LowerChar(c: char): char {
    if 'A' <= c <= 'Z' then (c as int + 32) as char else c
  }

  /** `toLowerCase`, restricted to ASCII letters. */
  function Lower(s: string): (r: string)
    ensures |r| == |s|
    ensures forall i :: 0 <= i < |s| ==> r[i] == LowerChar(s[i])
  {
    seq(|s|, i requires 0 <= i < |s| => LowerChar(s[i]))
  }

  /** `s.endsWith(suffix)`. */
  predicate EndsWith(s: string, suffix: string) {
    |suffix| <= |s| && s[|s| - |suffix|..] == suffix
  }
}
