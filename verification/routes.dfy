/** The form-based mail route: the stricter address check of
    `MailAddress::from_form_value`, whose domain is dot-separated host-name
    labels `[a-zA-Z0-9](?:[a-zA-Z0-9-]{0,61}[a-zA-Z0-9])?` (the label syntax of
    section 2.3.1 of RFC 1035 with a leading digit allowed as in section 2.1 of
    RFC 1123), and the plain-text rendering of a sent message. */
module Routes {
  import opened Wrappers
  import opened Strings
  import opened CharClasses
  import opened MailSyntax

  datatype MailAddress = MailAddress(address: string)

  datatype MailMessage = MailMessage(from: MailAddress, name: string, subject: string, message: string)

  /** A host-name label: 1 to 63 characters of `[a-zA-Z0-9-]` that start and
      end with a letter or digit. */
  predicate HostLabel(t: string) {
    1 <= |t| <= 63 && IsAlnum(t[0]) && IsAlnum(t[|t| - 1]) && AllChars(t, IsLabelChar)
  }

  /** Every dot-separated label is a host-name label. */
  predicate HostDomain(d: string) {
    PiecesFrom(Split(d, '.'), 0, HostLabel)
  }

  /** Matcher at the start of a label. */
  function ScanLabelStart(d: string): bool
    decreases |d|, 1
  {
    if |d| > 0 && IsAlnum(d[0]) then ScanLabel(d[1..], 1, true) else false
  }

  /** Matcher inside a label: `run` characters read, the last one alphanumeric
      iff `lastAlnum`. */
  function ScanLabel(d: string, run: nat, lastAlnum: bool): bool
    decreases |d|, 0
  {
    if |d| == 0 then lastAlnum
    else if IsAlnum(d[0]) then run < 63 && ScanLabel(d[1..], run + 1, true)
    else if d[0] == '-' then run < 63 && ScanLabel(d[1..], run + 1, false)
    else if d[0] == '.' then lastAlnum && ScanLabelStart(d[1..])
    else false
  }

  /** The domain half of the pattern. */
  predicate DomainMatches(d: string) {
    ScanLabelStart(d)
  }

  /** The last character of a non-empty string. */
  function Last(t: string): char
    requires |t| > 0
  {
    t[|t| - 1]
  }

  lemma {:induction false} ScanLabelStartSplit(d: string)
    ensures ScanLabelStart(d) <==> HostDomain(d)
    decreases |d|, 1
  {
    var labels := Split(d, '.');
    if |d| > 0 && IsAlnum(d[0]) {
      var rest := Split(d[1..], '.');
      assert labels == [[d[0]] + rest[0]] + rest[1..];
      ScanLabelSplit(d[1..], 1, true);
      var head := [d[0]] + rest[0];
      AllCharsCons(d[0], rest[0], IsLabelChar);
      PiecesFromNewHead(head, rest, HostLabel);
      PiecesFromHead(labels, HostLabel);
      if |rest[0]| > 0 {
        assert Last(head) == Last(rest[0]);
      } else {
        assert Last(head) == d[0];
      }
      assert HostLabel(head) <==> 1 + |rest[0]| <= 63 && AllChars(rest[0], IsLabelChar) && IsAlnum(Last(head));
    } else {
      PiecesFromHead(labels, HostLabel);
      assert !HostLabel(labels[0]);
    }
  }

  lemma {:induction false} ScanLabelSplit(d: string, run: nat, lastAlnum: bool)
    requires 1 <= run <= 63
    ensures ScanLabel(d, run, lastAlnum) <==>
              var labels := Split(d, '.');
              run + |labels[0]| <= 63 && AllChars(labels[0], IsLabelChar)
              && (if |labels[0]| == 0 then lastAlnum else IsAlnum(Last(labels[0])))
              && PiecesFrom(labels, 1, HostLabel)
    decreases |d|, 0
  {
    if |d| > 0 {
      var rest := Split(d[1..], '.');
      if d[0] == '.' {
        assert Split(d, '.') == [""] + rest;
        ScanLabelStartSplit(d[1..]);
        PiecesFromCons("", rest, HostLabel);
      } else {
        var head := [d[0]] + rest[0];
        assert Split(d, '.') == [head] + rest[1..];
        AllCharsCons(d[0], rest[0], IsLabelChar);
        PiecesFromNewHead(head, rest, HostLabel);
        if |rest[0]| > 0 {
          assert Last(head) == Last(rest[0]);
        }
        if IsLabelChar(d[0]) && run < 63 {
          ScanLabelSplit(d[1..], run + 1, IsAlnum(d[0]));
        }
      }
    }
  }

  /** A domain of host-name labels holds no `@`. */
  lemma HostDomainNoAt(d: string)
    requires HostDomain(d)
    ensures '@' !in d
  {
    var labels := Split(d, '.');
    JoinSplit(d, '.');
    JoinOfLabelsNoAt(labels);
  }

  lemma {:induction false} JoinOfLabelsNoAt(labels: seq<string>)
    requires PiecesFrom(labels, 0, HostLabel)
    ensures '@' !in Join(labels, ".")
    decreases |labels|
  {
    if |labels| > 0 {
      assert HostLabel(labels[0]);
      assert '@' !in labels[0] by {
        forall i | 0 <= i < |labels[0]| ensures labels[0][i] != '@' {
          assert IsLabelChar(labels[0][i]);
        }
      }
      if |labels| > 1 {
        assert PiecesFrom(labels[1..], 0, HostLabel) by {
          forall k | 0 <= k < |labels[1..]| ensures HostLabel(labels[1..][k]) {
            assert labels[1..][k] == labels[k + 1];
          }
        }
        JoinOfLabelsNoAt(labels[1..]);
      }
    }
  }

  /** The pattern matcher accepts exactly the addresses with a `HostDomain`. */
  lemma EmailMatchesExactly(s: string)
    ensures ScanLocal(s, 0, DomainMatches) <==> Address(s, HostDomain)
  {
    forall d ensures DomainMatches(d) ==> '@' !in d {
      ScanLabelStartSplit(d);
      if DomainMatches(d) {
        HostDomainNoAt(d);
      }
    }
    ScanLocalSplit(s, 0, DomainMatches);
    var parts := Split(s, '@');
    if |parts| == 2 {
      ScanLabelStartSplit(parts[1]);
    }
  }

  /** `MailAddress::from_form_value`: a non-empty value matching the pattern
      becomes the address unchanged; anything else is refused with the value
      itself as the error. */
  function FromFormValue(value: string): (r: Result<MailAddress, string>)
    ensures r.Ok? <==> Address(value, HostDomain)
    ensures r.Ok? ==> r.value == MailAddress(value) && Count(value, '@') == 1
    ensures r.Err? ==> r.error == value
  {
    EmailMatchesExactly(value);
    if |value| > 0 && ScanLocal(value, 0, DomainMatches) then
      AddressHasOneAt(value, HostDomain);
      Ok(MailAddress(value))
    else
      Err(value)
  }

  /** A domain without dots is one label, so `a@b` is accepted, while an empty
      label (a doubled, leading or trailing dot) is refused. */
  lemma LabelExamples()
    ensures FromFormValue("a@b").Ok?
    ensures FromFormValue("a@b.").Err?
    ensures FromFormValue("a@.b").Err?
  {
    SingleLabelAccepted();
    TrailingDotRefused();
    LeadingDotRefused();
  }

  /** `a@b`: local part `a`, one label `b`. */
  lemma SingleLabelAccepted()
    ensures FromFormValue("a@b").Ok?
  {
    SplitFree("a", '@');
    SplitFree("b", '@');
    assert "a@b" == "a" + ['@'] + "b";
    SplitAfterPiece("a", '@', "b");
    assert Split("a@b", '@') == ["a", "b"];
    SplitFree("b", '.');
    assert HostLabel("b");
    assert HostDomain("b");
  }

  /** `a@b.`: the label after the trailing dot is empty. */
  lemma TrailingDotRefused()
    ensures FromFormValue("a@b.").Err?
  {
    SplitFree("b.", '@');
    assert "a@b." == "a" + ['@'] + "b.";
    SplitAfterPiece("a", '@', "b.");
    assert Split("a@b.", '@') == ["a", "b."];
    assert "b." == "b" + ['.'] + "";
    SplitAfterPiece("b", '.', "");
    assert Split("b.", '.') == ["b", ""];
    assert !HostLabel(Split("b.", '.')[1]);
  }

  /** `a@.b`: the label before the leading dot is empty. */
  lemma LeadingDotRefused()
    ensures FromFormValue("a@.b").Err?
  {
    SplitFree(".b", '@');
    assert "a@.b" == "a" + ['@'] + ".b";
    SplitAfterPiece("a", '@', ".b");
    assert Split("a@.b", '@') == ["a", ".b"];
    assert Split(".b", '.')[0] == "";
    assert !HostDomain(".b");
  }

  // ---------------------------------------------------------------------------
  // Message text

  /** `send_message`: the four fields on four labelled lines, in the order
      from, name, subject, message. */
  function SendMessage(m: MailMessage): (text: string)
    ensures |text| == 33 + |m.from.address| + |m.name| + |m.subject| + |m.message|
    ensures text[..6] == "From: " && text[6..6 + |m.from.address|] == m.from.address
    ensures text[|text| - |m.message|..] == m.message
  {
    "From: " + m.from.address + "\n" + "Name: " + m.name + "\n" + "Subject: " + m.subject
    + "\n" + "Message: " + m.message
  }

  /** The four fields read back from a rendered message. */
  datatype Fields = Fields(from: string, name: string, subject: string, message: string)

  /** Reads the labelled lines of a rendered message; the message field is the
      remainder after the third line break and may itself span lines. */
  function ParseMessageText(text: string): Option<Fields> {
    var lines := Split(text, '\n');
    if |lines| < 4 then None
    else
      var body := Join(lines[3..], "\n");
      if "From: " <= lines[0] && "Name: " <= lines[1] && "Subject: " <= lines[2] && "Message: " <= body
      then Some(Fields(lines[0][6..], lines[1][6..], lines[2][9..], body[9..]))
      else None
  }

  /** A labelled line keeps its value after the label and has no line break
      when neither part has one. */
  lemma LabelledLine(tag: string, v: string)
    requires '\n' !in tag && '\n' !in v
    ensures '\n' !in tag + v && (tag + v)[|tag|..] == v
  {
  }

  /** Three single-line pieces in front of a fourth split off as three lines. */
  lemma {:induction false} SplitThreeLines(a: string, b: string, c: string, d: string)
    requires '\n' !in a && '\n' !in b && '\n' !in c
    ensures Split(a + "\n" + b + "\n" + c + "\n" + d, '\n') == [a, b, c] + Split(d, '\n')
  {
    var cd := c + ['\n'] + d;
    var bcd := b + ['\n'] + cd;
    assert a + "\n" + b + "\n" + c + "\n" + d == a + ['\n'] + bcd;
    SplitAfterPiece(c, '\n', d);
    SplitAfterPiece(b, '\n', cd);
    SplitAfterPiece(a, '\n', bcd);
  }

  /** When the first three fields are single lines, the rendered text reads
      back as the original fields. */
  lemma SendMessageRoundTrip(m: MailMessage)
    requires '\n' !in m.from.address && '\n' !in m.name && '\n' !in m.subject
    ensures ParseMessageText(SendMessage(m)) == Some(Fields(m.from.address, m.name, m.subject, m.message))
  {
    var a, b, c := "From: " + m.from.address, "Name: " + m.name, "Subject: " + m.subject;
    var d := "Message: " + m.message;
    LabelledLine("From: ", m.from.address);
    LabelledLine("Name: ", m.name);
    LabelledLine("Subject: ", m.subject);
    assert d[9..] == m.message;
    assert SendMessage(m) == a + "\n" + b + "\n" + c + "\n" + d;
    SplitThreeLines(a, b, c, d);
    var lines := Split(SendMessage(m), '\n');
    assert lines[3..] == Split(d, '\n');
    JoinSplit(d, '\n');
  }
}
