/** Validation of a new contact message (`NewMessagePayload::is_valid`): only
    the sender address is checked, against
    `^[local]+@[a-zA-Z0-9]+(\.[a-zA-Z0-9-]{0,61})+$`. */
module SendMsg {
  import opened Wrappers
  import opened Strings
  import opened CharClasses
  import opened MailSyntax

  datatype NewMessagePayload = NewMessagePayload(from: string, name: string, subject: string, message: string)

  /** The rejection: a message and an HTTP status code. */
  datatype ValidError = ValidError(message: string, code: nat)

  const InvalidEmail: ValidError := ValidError("Invalid email address", 400)

  /** A dot-prefixed segment of the domain: up to 61 characters of `[a-zA-Z0-9-]`. */
  predicate IsSegment(t: string) {
    |t| <= 61 && AllChars(t, IsLabelChar)
  }

  /** The domain read through the dot split: a non-empty alphanumeric first
      label and at least one further segment. */
  predicate SendDomain(d: string) {
    var labels := Split(d, '.');
    |labels| >= 2 && |labels[0]| > 0 && AllChars(labels[0], IsAlnum) && PiecesFrom(labels, 1, IsSegment)
  }

  /** Matcher of `[a-zA-Z0-9]+` then the segments; `run` counts the first
      label's characters read so far. */
  function ScanFirstLabel(d: string, run: nat): bool
    decreases |d|
  {
    if |d| == 0 then false
    else if IsAlnum(d[0]) then ScanFirstLabel(d[1..], run + 1)
    else if d[0] == '.' then run > 0 && ScanSegments(d[1..], 0)
    else false
  }

  /** Matcher of `(\.[a-zA-Z0-9-]{0,61})*` after one dot; `run` counts the
      current segment's characters read so far. */
  function ScanSegments(d: string, run: nat): bool
    decreases |d|
  {
    if |d| == 0 then true
    else if IsLabelChar(d[0]) then run < 61 && ScanSegments(d[1..], run + 1)
    else if d[0] == '.' then ScanSegments(d[1..], 0)
    else false
  }

  /** The domain half of the pattern. */
  predicate DomainMatches(d: string) {
    ScanFirstLabel(d, 0)
  }

  lemma {:induction false} ScanSegmentsSplit(d: string, run: nat)
    requires run <= 61
    ensures ScanSegments(d, run) <==>
              var labels := Split(d, '.');
              run + |labels[0]| <= 61 && AllChars(labels[0], IsLabelChar) && PiecesFrom(labels, 1, IsSegment)
    decreases |d|
  {
    if |d| > 0 {
      var rest := Split(d[1..], '.');
      if d[0] == '.' {
        assert Split(d, '.') == [""] + rest;
        ScanSegmentsSplit(d[1..], 0);
        PiecesFromCons("", rest, IsSegment);
      } else {
        assert Split(d, '.') == [[d[0]] + rest[0]] + rest[1..];
        AllCharsCons(d[0], rest[0], IsLabelChar);
        PiecesFromNewHead([d[0]] + rest[0], rest, IsSegment);
        if IsLabelChar(d[0]) && run < 61 {
          ScanSegmentsSplit(d[1..], run + 1);
        }
      }
    }
  }

  lemma {:induction false} ScanFirstLabelSplit(d: string, run: nat)
    ensures ScanFirstLabel(d, run) <==>
              var labels := Split(d, '.');
              |labels| >= 2 && (run > 0 || |labels[0]| > 0) && AllChars(labels[0], IsAlnum)
              && PiecesFrom(labels, 1, IsSegment)
    decreases |d|
  {
    if |d| > 0 {
      var rest := Split(d[1..], '.');
      if d[0] == '.' {
        assert Split(d, '.') == [""] + rest;
        ScanSegmentsSplit(d[1..], 0);
        PiecesFromCons("", rest, IsSegment);
      } else {
        assert Split(d, '.') == [[d[0]] + rest[0]] + rest[1..];
        AllCharsCons(d[0], rest[0], IsAlnum);
        PiecesFromNewHead([d[0]] + rest[0], rest, IsSegment);
        if IsAlnum(d[0]) {
          ScanFirstLabelSplit(d[1..], run + 1);
        }
      }
    }
  }

  /** A domain the matcher accepts holds no `@`. */
  lemma {:induction false} ScanSegmentsNoAt(d: string, run: nat)
    requires ScanSegments(d, run)
    ensures '@' !in d
    decreases |d|
  {
    if |d| > 0 {
      if IsLabelChar(d[0]) {
        ScanSegmentsNoAt(d[1..], run + 1);
      } else {
        ScanSegmentsNoAt(d[1..], 0);
      }
      assert d == [d[0]] + d[1..];
    }
  }

  lemma {:induction false} ScanFirstLabelNoAt(d: string, run: nat)
    requires ScanFirstLabel(d, run)
    ensures '@' !in d
    decreases |d|
  {
    if IsAlnum(d[0]) {
      ScanFirstLabelNoAt(d[1..], run + 1);
    } else {
      ScanSegmentsNoAt(d[1..], 0);
    }
    assert d == [d[0]] + d[1..];
  }

  /** The domain matcher accepts exactly the domains described by `SendDomain`. */
  lemma DomainMatchesExactly(d: string)
    ensures DomainMatches(d) <==> SendDomain(d)
    ensures DomainMatches(d) ==> '@' !in d
  {
    ScanFirstLabelSplit(d, 0);
    if DomainMatches(d) {
      ScanFirstLabelNoAt(d, 0);
    }
  }

  /** The whole pattern `EMAIL_RGX`. */
  predicate EmailMatches(s: string) {
    ScanLocal(s, 0, DomainMatches)
  }

  /** The pattern matcher accepts exactly the addresses with a `SendDomain`. */
  lemma EmailMatchesExactly(s: string)
    ensures EmailMatches(s) <==> Address(s, SendDomain)
  {
    forall d ensures DomainMatches(d) ==> '@' !in d {
      DomainMatchesExactly(d);
    }
    ScanLocalSplit(s, 0, DomainMatches);
    var parts := Split(s, '@');
    if |parts| == 2 {
      DomainMatchesExactly(parts[1]);
    }
  }

  /** `is_valid`: accepted exactly when `from` is an address with exactly one
      `@`, a non-empty local part and a `SendDomain`; rejected with 400 and
      "Invalid email address" otherwise. */
  function IsValid(p: NewMessagePayload): (r: Result<(), ValidError>)
    ensures r.Ok? <==> Address(p.from, SendDomain)
    ensures r.Ok? ==> Count(p.from, '@') == 1
    ensures r.Err? ==> r.error == InvalidEmail
  {
    EmailMatchesExactly(p.from);
    if EmailMatches(p.from) then
      AddressHasOneAt(p.from, SendDomain);
      Ok(())
    else
      Err(InvalidEmail)
  }

  /** Only the sender is checked: name, subject and text never matter. */
  lemma OnlySenderChecked(p: NewMessagePayload, q: NewMessagePayload)
    requires p.from == q.from
    ensures IsValid(p) == IsValid(q)
  {
  }

  /** `a@b` lacks a dot segment and is rejected; `a@b.` has an empty one and
      is accepted. */
  lemma DotSegmentExamples(name: string, subject: string, message: string)
    ensures IsValid(NewMessagePayload("a@b", name, subject, message)).Err?
    ensures IsValid(NewMessagePayload("a@b.", name, subject, message)).Ok?
  {
    assert "a@b"[1..] == "@b";
    assert "@b"[1..] == "b";
    assert "b"[1..] == "";
    assert !EmailMatches("a@b");
    assert "a@b."[1..] == "@b.";
    assert "@b."[1..] == "b.";
    assert "b."[1..] == ".";
    assert "."[1..] == "";
    assert EmailMatches("a@b.");
  }
}
