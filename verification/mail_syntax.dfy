/** The part shared by both e-mail patterns: one or more local-part
    characters, then `@`, then a domain pattern. */
module MailSyntax {
  import opened Strings
  import opened CharClasses

  /** Matcher of `^[local]+@` followed by `domainOk` on the rest; `run` is
      the number of local-part characters read so far. */
  function ScanLocal(s: string, run: nat, domainOk: string -> bool): bool
    decreases |s|
  {
    if |s| == 0 then false
    else if IsLocalChar(s[0]) then ScanLocal(s[1..], run + 1, domainOk)
    else if s[0] == '@' then run > 0 && domainOk(s[1..])
    else false
  }

  /** A well-formed address: exactly one `@`, a non-empty local part from
      the allowed characters, and a domain accepted by `domainOk`. */
  predicate Address(s: string, domainOk: string -> bool) {
    var parts := Split(s, '@');
    |parts| == 2 && |parts[0]| > 0 && AllChars(parts[0], IsLocalChar) && domainOk(parts[1])
  }

  /** When no accepted domain holds an `@`, the matcher accepts exactly the
      addresses whose local part extends the `run` characters already read. */
  lemma {:induction false} ScanLocalSplit(s: string, run: nat, domainOk: string -> bool)
    requires forall d :: domainOk(d) ==> '@' !in d
    ensures ScanLocal(s, run, domainOk) <==>
              var parts := Split(s, '@');
              |parts| == 2 && (run > 0 || |parts[0]| > 0) && AllChars(parts[0], IsLocalChar) && domainOk(parts[1])
    decreases |s|
  {
    if |s| > 0 {
      var rest := Split(s[1..], '@');
      if s[0] == '@' {
        assert Split(s, '@') == [""] + rest;
        if |rest| == 1 {
          JoinSplit(s[1..], '@');
        }
        if domainOk(s[1..]) {
          SplitFree(s[1..], '@');
        }
      } else {
        assert Split(s, '@') == [[s[0]] + rest[0]] + rest[1..];
        AllCharsCons(s[0], rest[0], IsLocalChar);
        if IsLocalChar(s[0]) {
          ScanLocalSplit(s[1..], run + 1, domainOk);
        }
      }
    }
  }

  /** An accepted address has exactly one `@`. */
  lemma AddressHasOneAt(s: string, domainOk: string -> bool)
    requires Address(s, domainOk)
    ensures Count(s, '@') == 1
  {
    SplitLength(s, '@');
  }
}
