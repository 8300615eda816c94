/** What the CA tools ask of the libraries below them, as function values: the
    same predicates are used where a text is written and where it is read back. */
module Library {
  import opened Text
  import opened Names

  datatype Lib = Lib(
    utcOk: string -> bool,              // ASN1_UTCTIME_set_string accepts the text
    genOk: string -> bool,              // ASN1_GENERALIZEDTIME_set_string accepts it
    oidOk: string -> bool,              // OBJ_txt2obj accepts it
    passed: (string, string) -> bool,   // ASN1_TIME_compare(first, second) <= 0
    oneline: Name -> Option<string>     // X509_NAME_oneline; None when the name is too long
  )
  {
    /** ASN1_TIME_set_string: try UTCTime, then GeneralizedTime. */
    predicate TimeOk(s: string) {
      utcOk(s) || genOk(s)
    }
  }
}
