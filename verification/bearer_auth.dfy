/** The credential extraction at the start of the request guard: the
    `Authorization` header must carry the exact, case-sensitive scheme prefix
    "Bearer " (with its space), and the token is what follows it. */
module BearerAuth {
  import opened Wrappers

  const TokenType: string := "Bearer "

  /** The guard's verdict on the header: refused, or the extracted token. */
  datatype Extraction = Failure | Credential(token: string)

  /** What the guard's first statement does as written. Its three tests are
      joined by `|` and compared with `==`, and neither operator
      short-circuits, so whatever grouping is read into the condition, all
      tests run and `unwrap()` is applied to a missing header. The model takes
      the evidently intended grouping `a | (b == 0) | !c`; Rust's own
      precedence (`|` above `==`) would make the line ill-typed. */
  datatype AsWritten = Panicked | Refused | Extracted(token: string)

  /** The guard as written. */
  function ExtractAsWritten(header: Option<string>): (r: AsWritten)
    ensures header.None? ==> r.Panicked?
    ensures header.Some? ==> !r.Panicked?
  {
    match header
    case None => Panicked
    case Some(v) =>
      if |v| == 0 || !(TokenType <= v) then Refused else Extracted(v[|TokenType|..])
  }

  /** A missing header makes the guard as written unwrap `None`. */
  lemma MissingHeaderPanicsAsWritten()
    ensures ExtractAsWritten(None) == Panicked
  {
  }

  /** The guard as intended: a missing or empty header, or one without the
      prefix, is refused; otherwise the prefix is stripped once. */
  function ExtractBearer(header: Option<string>): (r: Extraction)
    ensures header.None? ==> r == Failure
    ensures header.Some? && |header.value| == 0 ==> r == Failure
    ensures header.Some? && !(TokenType <= header.value) ==> r == Failure
    ensures r.Credential? <==> header.Some? && TokenType <= header.value
    ensures r.Credential? ==> TokenType + r.token == header.value
  {
    match header
    case None => Failure
    case Some(v) =>
      if |v| == 0 || !(TokenType <= v) then Failure
      else
        assert v == v[..|TokenType|] + v[|TokenType|..];
        Credential(v[|TokenType|..])
  }

  /** Whenever the header is present the intended guard agrees with the
      guard as written. */
  lemma ExtractBearerAgreesWhenPresent(v: string)
    ensures ExtractBearer(Some(v)) == Failure <==> ExtractAsWritten(Some(v)) == Refused
    ensures ExtractBearer(Some(v)).Credential? ==>
              ExtractAsWritten(Some(v)) == Extracted(ExtractBearer(Some(v)).token)
  {
  }

  /** A header of exactly "Bearer " passes and yields an empty token; the
      prefix is case-sensitive. */
  lemma BearerExamples()
    ensures ExtractBearer(Some("Bearer ")) == Credential("")
    ensures ExtractBearer(Some("Bearer abc")) == Credential("abc")
    ensures ExtractBearer(Some("bearer abc")) == Failure
    ensures ExtractBearer(Some("Bearerabc")) == Failure
  {
    assert !("Bearer " <= "bearer abc") by {
      assert "bearer abc"[0] != "Bearer "[0];
    }
    assert !("Bearer " <= "Bearerabc") by {
      assert "Bearerabc"[6] != "Bearer "[6];
    }
  }
}
