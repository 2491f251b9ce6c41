/** The permission vocabulary of the access tokens: two closed enumerations of
    claim strings ("is"-claims and mailer scopes), their string encodings, and
    the comma-separated vector forms that drop unrecognised tokens. */
module PermClaims {
  import opened Wrappers
  import opened Strings

  /** Identity ("is") claims. */
  datatype IsPerm =
    | Tumex
    | FriendsNormal
    | FriendsClose
    | FriendsBff
    | FamilyFirst
    | FamilySecond
    | FamilyThird
    | SudoLow
    | SudoHigh

  /** Mailer scope permissions. */
  datatype ScopePerm =
    | MailerBaseAccess
    | MailerWebpMsgsRead
    | MailerWebpMsgsDel

  // ---------------------------------------------------------------------------
  // Single claims

  /** Decodes one "is" claim; any other string is not an "is" claim. */
  function IsPermFromString(s: string): Option<IsPerm> {
    match s
    case "is:tumex" => Some(Tumex)
    case "is:friends:normal" => Some(FriendsNormal)
    case "is:friends:close" => Some(FriendsClose)
    case "is:friends:bff" => Some(FriendsBff)
    case "is:family:first-deg" => Some(FamilyFirst)
    case "is:family:second-deg" => Some(FamilySecond)
    case "is:family:third-deg" => Some(FamilyThird)
    case "is:sudo:low" => Some(SudoLow)
    case "is:sudo:high" => Some(SudoHigh)
    case _ => None
  }

  /** Decodes one scope permission; any other string is not a scope. */
  function ScopePermFromString(s: string): Option<ScopePerm> {
    match s
    case "mailer:baseaccess" => Some(MailerBaseAccess)
    case "mailer:webp:messages:read" => Some(MailerWebpMsgsRead)
    case "mailer:webp:messages:delete" => Some(MailerWebpMsgsDel)
    case _ => None
  }

  /** The claim string of an "is" claim (the `ToString` implementation). It
      decodes back to the same claim, it is not a scope string, and it holds
      no comma, so it survives the vector encoding. */
  function IsPermToString(p: IsPerm): (s: string)
    ensures IsPermFromString(s) == Some(p)
    ensures ScopePermFromString(s) == None
    ensures ',' !in s
  {
    match p
    case Tumex => "is:tumex"
    case FriendsNormal => "is:friends:normal"
    case FriendsClose => "is:friends:close"
    case FriendsBff => "is:friends:bff"
    case FamilyFirst => "is:family:first-deg"
    case FamilySecond => "is:family:second-deg"
    case FamilyThird => "is:family:third-deg"
    case SudoLow => "is:sudo:low"
    case SudoHigh => "is:sudo:high"
  }

  /** The claim string of a scope permission (the `ToString` implementation). */
  function ScopePermToString(p: ScopePerm): (s: string)
    ensures ScopePermFromString(s) == Some(p)
    ensures IsPermFromString(s) == None
    ensures ',' !in s
  {
    match p
    case MailerBaseAccess => "mailer:baseaccess"
    case MailerWebpMsgsRead => "mailer:webp:messages:read"
    case MailerWebpMsgsDel => "mailer:webp:messages:delete"
  }

  /** The borrowed-string view of an "is" claim; a second table in the source
      that agrees with `IsPermToString`. */
  function IsPermAsStr(p: IsPerm): (s: string)
    ensures s == IsPermToString(p)
  {
    match p
    case Tumex => "is:tumex"
    case FriendsNormal => "is:friends:normal"
    case FriendsClose => "is:friends:close"
    case FriendsBff => "is:friends:bff"
    case FamilyFirst => "is:family:first-deg"
    case FamilySecond => "is:family:second-deg"
    case FamilyThird => "is:family:third-deg"
    case SudoLow => "is:sudo:low"
    case SudoHigh => "is:sudo:high"
  }

  /** The borrowed-string view of a scope permission. */
  function ScopePermAsStr(p: ScopePerm): (s: string)
    ensures s == ScopePermToString(p)
  {
    match p
    case MailerBaseAccess => "mailer:baseaccess"
    case MailerWebpMsgsRead => "mailer:webp:messages:read"
    case MailerWebpMsgsDel => "mailer:webp:messages:delete"
  }

  /** Decoding an "is" claim succeeds exactly on the nine claim strings. */
  lemma IsPermDecodeExact(s: string, p: IsPerm)
    ensures IsPermFromString(s) == Some(p) <==> IsPermToString(p) == s
  {
    if IsPermFromString(s) == Some(p) {
      match s
      case "is:tumex" =>
      case "is:friends:normal" =>
      case "is:friends:close" =>
      case "is:friends:bff" =>
      case "is:family:first-deg" =>
      case "is:family:second-deg" =>
      case "is:family:third-deg" =>
      case "is:sudo:low" =>
      case "is:sudo:high" =>
      case _ =>
    }
  }

  /** Decoding a scope succeeds exactly on the three scope strings. */
  lemma ScopePermDecodeExact(s: string, p: ScopePerm)
    ensures ScopePermFromString(s) == Some(p) <==> ScopePermToString(p) == s
  {
    if ScopePermFromString(s) == Some(p) {
      match s
      case "mailer:baseaccess" =>
      case "mailer:webp:messages:read" =>
      case "mailer:webp:messages:delete" =>
      case _ =>
    }
  }

  /** Distinct claims have distinct strings, and the two vocabularies share none. */
  lemma EncodingsInjectiveAndDisjoint()
    ensures forall p, q :: IsPermToString(p) == IsPermToString(q) ==> p == q
    ensures forall p, q :: ScopePermToString(p) == ScopePermToString(q) ==> p == q
    ensures forall p, q :: IsPermToString(p) != ScopePermToString(q)
  {
    forall p: IsPerm, q: IsPerm | IsPermToString(p) == IsPermToString(q) ensures p == q {
      assert IsPermFromString(IsPermToString(p)) == Some(q);
    }
    forall p: ScopePerm, q: ScopePerm | ScopePermToString(p) == ScopePermToString(q) ensures p == q {
      assert ScopePermFromString(ScopePermToString(p)) == Some(q);
    }
    forall p: IsPerm, q: ScopePerm ensures IsPermToString(p) != ScopePermToString(q) {
      assert IsPermFromString(ScopePermToString(q)) == None;
    }
  }

  // ---------------------------------------------------------------------------
  // Comma-separated vectors

  /** The decodable tokens, decoded, in input order; the rest are dropped. */
  function Recognised<T>(tokens: seq<string>, decode: string -> Option<T>): seq<T>
    decreases |tokens|
  {
    if |tokens| == 0 then []
    else
      (if decode(tokens[0]).Some? then [decode(tokens[0]).value] else [])
      + Recognised(tokens[1..], decode)
  }

  /** One unfolding of `Recognised` on a list with a known first token. */
  lemma RecognisedCons<T>(t: string, rest: seq<string>, decode: string -> Option<T>)
    ensures Recognised([t] + rest, decode) ==
      (if decode(t).Some? then [decode(t).value] else []) + Recognised(rest, decode)
  {
    assert ([t] + rest)[0] == t;
    assert ([t] + rest)[1..] == rest;
  }

  /** Filtering distributes over concatenation, so input order is kept. */
  lemma {:induction false} RecognisedAppend<T>(a: seq<string>, b: seq<string>, decode: string -> Option<T>)
    ensures Recognised(a + b, decode) == Recognised(a, decode) + Recognised(b, decode)
    decreases |a|
  {
    if |a| == 0 {
      assert a + b == b;
    } else {
      var t := a[1..] + b;
      assert a + b == [a[0]] + t;
      assert a == [a[0]] + a[1..];
      RecognisedCons(a[0], t, decode);
      RecognisedCons(a[0], a[1..], decode);
      RecognisedAppend(a[1..], b, decode);
    }
  }

  /** A value is kept exactly when some token decodes to it. */
  lemma {:induction false} RecognisedMembers<T>(tokens: seq<string>, decode: string -> Option<T>, x: T)
    ensures x in Recognised(tokens, decode) <==> exists k :: 0 <= k < |tokens| && decode(tokens[k]) == Some(x)
    decreases |tokens|
  {
    if |tokens| > 0 {
      RecognisedMembers(tokens[1..], decode, x);
      if exists k :: 0 <= k < |tokens| && decode(tokens[k]) == Some(x) {
        var k :| 0 <= k < |tokens| && decode(tokens[k]) == Some(x);
        if k > 0 {
          assert tokens[1..][k - 1] == tokens[k];
        }
      }
      if exists k :: 0 <= k < |tokens[1..]| && decode(tokens[1..][k]) == Some(x) {
        var k :| 0 <= k < |tokens[1..]| && decode(tokens[1..][k]) == Some(x);
        assert tokens[k + 1] == tokens[1..][k];
      }
    }
  }

  /** Nothing is kept exactly when no token decodes. */
  lemma {:induction false} RecognisedEmpty<T>(tokens: seq<string>, decode: string -> Option<T>)
    ensures |Recognised(tokens, decode)| == 0 <==> forall k :: 0 <= k < |tokens| ==> decode(tokens[k]).None?
    decreases |tokens|
  {
    if |tokens| > 0 {
      RecognisedEmpty(tokens[1..], decode);
      if forall k :: 0 <= k < |tokens[1..]| ==> decode(tokens[1..][k]).None? {
        forall k | 1 <= k < |tokens| ensures decode(tokens[k]).None? {
          assert tokens[k] == tokens[1..][k - 1];
        }
      }
    }
  }

  /** Tokens that all decode are kept one for one. */
  lemma {:induction false} RecognisedAll<T>(tokens: seq<string>, values: seq<T>, decode: string -> Option<T>)
    requires |tokens| == |values|
    requires forall i :: 0 <= i < |tokens| ==> decode(tokens[i]) == Some(values[i])
    ensures Recognised(tokens, decode) == values
    decreases |tokens|
  {
    if |tokens| > 0 {
      RecognisedAll(tokens[1..], values[1..], decode);
      assert values == [values[0]] + values[1..];
    }
  }

  /** A claim is kept exactly when its string is one of the tokens. */
  lemma IsPermTokensKept(tokens: seq<string>)
    ensures |Recognised(tokens, IsPermFromString)| == 0 <==> forall t :: t in tokens ==> IsPermFromString(t).None?
    ensures forall p :: p in Recognised(tokens, IsPermFromString) <==> IsPermToString(p) in tokens
  {
    RecognisedEmpty(tokens, IsPermFromString);
    var decode := IsPermFromString;
    assert (forall k :: 0 <= k < |tokens| ==> decode(tokens[k]).None?) <==>
           (forall t :: t in tokens ==> IsPermFromString(t).None?);
    forall p ensures p in Recognised(tokens, IsPermFromString) <==> IsPermToString(p) in tokens {
      RecognisedMembers(tokens, IsPermFromString, p);
      if IsPermToString(p) in tokens {
        var k :| 0 <= k < |tokens| && tokens[k] == IsPermToString(p);
        assert IsPermFromString(tokens[k]) == Some(p);
      }
      if p in Recognised(tokens, IsPermFromString) {
        var k :| 0 <= k < |tokens| && IsPermFromString(tokens[k]) == Some(p);
        IsPermDecodeExact(tokens[k], p);
      }
    }
  }

  /** `IsPermVec::from_perm_string`: splits at commas, keeps the recognised
      "is" claims in order and yields `None` when there are none. */
  function IsPermVecFromString(s: string): (r: Option<seq<IsPerm>>)
    ensures r.None? <==> forall t :: t in Split(s, ',') ==> IsPermFromString(t).None?
    ensures r.Some? ==> |r.value| > 0
    ensures r.Some? ==> forall p :: p in r.value <==> IsPermToString(p) in Split(s, ',')
  {
    var tokens := Split(s, ',');
    var perms := Recognised(tokens, IsPermFromString);
    IsPermTokensKept(tokens);
    if |perms| == 0 then None else Some(perms)
  }

  /** A scope is kept exactly when its string is one of the tokens. */
  lemma ScopePermTokensKept(tokens: seq<string>)
    ensures |Recognised(tokens, ScopePermFromString)| == 0 <==> forall t :: t in tokens ==> ScopePermFromString(t).None?
    ensures forall p :: p in Recognised(tokens, ScopePermFromString) <==> ScopePermToString(p) in tokens
  {
    RecognisedEmpty(tokens, ScopePermFromString);
    var decode := ScopePermFromString;
    assert (forall k :: 0 <= k < |tokens| ==> decode(tokens[k]).None?) <==>
           (forall t :: t in tokens ==> ScopePermFromString(t).None?);
    forall p ensures p in Recognised(tokens, ScopePermFromString) <==> ScopePermToString(p) in tokens {
      RecognisedMembers(tokens, ScopePermFromString, p);
      if ScopePermToString(p) in tokens {
        var k :| 0 <= k < |tokens| && tokens[k] == ScopePermToString(p);
        assert ScopePermFromString(tokens[k]) == Some(p);
      }
      if p in Recognised(tokens, ScopePermFromString) {
        var k :| 0 <= k < |tokens| && ScopePermFromString(tokens[k]) == Some(p);
        ScopePermDecodeExact(tokens[k], p);
      }
    }
  }

  /** `ScopePermVec::from_perm_string`: splits at commas, keeps the recognised
      scopes in order and yields `None` when there are none. */
  function ScopePermVecFromString(s: string): (r: Option<seq<ScopePerm>>)
    ensures r.None? <==> forall t :: t in Split(s, ',') ==> ScopePermFromString(t).None?
    ensures r.Some? ==> |r.value| > 0
    ensures r.Some? ==> forall p :: p in r.value <==> ScopePermToString(p) in Split(s, ',')
  {
    var tokens := Split(s, ',');
    var perms := Recognised(tokens, ScopePermFromString);
    ScopePermTokensKept(tokens);
    if |perms| == 0 then None else Some(perms)
  }

  /** `IsPermVec::as_string_vec`: one claim string per element, each decoding
      back to its element. */
  function IsPermVecAsStrings(v: seq<IsPerm>): (r: seq<string>)
    ensures |r| == |v|
    ensures forall i :: 0 <= i < |r| ==> IsPermFromString(r[i]) == Some(v[i]) && ',' !in r[i]
  {
    seq(|v|, i requires 0 <= i < |v| => IsPermToString(v[i]))
  }

  /** `ScopePermVec::as_string_vec`. */
  function ScopePermVecAsStrings(v: seq<ScopePerm>): (r: seq<string>)
    ensures |r| == |v|
    ensures forall i :: 0 <= i < |r| ==> ScopePermFromString(r[i]) == Some(v[i]) && ',' !in r[i]
  {
    seq(|v|, i requires 0 <= i < |v| => ScopePermToString(v[i]))
  }

  /** `IsPermVec::to_string`: the claim strings joined by commas. Splitting it
      at commas gives back `as_string_vec`, one comma between neighbours. */
  function IsPermVecToString(v: seq<IsPerm>): (s: string)
    ensures |v| > 0 ==> Split(s, ',') == IsPermVecAsStrings(v)
    ensures |v| > 0 ==> Count(s, ',') == |v| - 1
  {
    var strs := IsPermVecAsStrings(v);
    var s := Join(strs, ",");
    if |v| > 0 then
      SplitJoin(strs, ',');
      SplitLength(s, ',');
      s
    else s
  }

  /** `ScopePermVec::to_string`. */
  function ScopePermVecToString(v: seq<ScopePerm>): (s: string)
    ensures |v| > 0 ==> Split(s, ',') == ScopePermVecAsStrings(v)
    ensures |v| > 0 ==> Count(s, ',') == |v| - 1
  {
    var strs := ScopePermVecAsStrings(v);
    var s := Join(strs, ",");
    if |v| > 0 then
      SplitJoin(strs, ',');
      SplitLength(s, ',');
      s
    else s
  }

  /** Printing a non-empty vector and parsing it back gives the vector. */
  lemma IsPermVecRoundTrip(v: seq<IsPerm>)
    requires |v| > 0
    ensures IsPermVecFromString(IsPermVecToString(v)) == Some(v)
  {
    RecognisedAll(IsPermVecAsStrings(v), v, IsPermFromString);
  }

  /** Printing a non-empty scope vector and parsing it back gives the vector. */
  lemma ScopePermVecRoundTrip(v: seq<ScopePerm>)
    requires |v| > 0
    ensures ScopePermVecFromString(ScopePermVecToString(v)) == Some(v)
  {
    RecognisedAll(ScopePermVecAsStrings(v), v, ScopePermFromString);
  }

  /** When every token is an "is" claim, parsing then printing gives the input back. */
  lemma IsPermVecPrintParsed(s: string)
    requires forall k :: 0 <= k < |Split(s, ',')| ==> IsPermFromString(Split(s, ',')[k]).Some?
    ensures IsPermVecFromString(s).Some? && IsPermVecToString(IsPermVecFromString(s).value) == s
  {
    var tokens := Split(s, ',');
    var values := seq(|tokens|, i requires 0 <= i < |tokens| => IsPermFromString(tokens[i]).value);
    RecognisedAll(tokens, values, IsPermFromString);
    forall i | 0 <= i < |tokens| ensures IsPermToString(values[i]) == tokens[i] {
      IsPermDecodeExact(tokens[i], values[i]);
    }
    assert IsPermVecAsStrings(values) == tokens;
    JoinSplit(s, ',');
  }

  /** When every token is a scope, parsing then printing gives the input back. */
  lemma ScopePermVecPrintParsed(s: string)
    requires forall k :: 0 <= k < |Split(s, ',')| ==> ScopePermFromString(Split(s, ',')[k]).Some?
    ensures ScopePermVecFromString(s).Some? && ScopePermVecToString(ScopePermVecFromString(s).value) == s
  {
    var tokens := Split(s, ',');
    var values := seq(|tokens|, i requires 0 <= i < |tokens| => ScopePermFromString(tokens[i]).value);
    RecognisedAll(tokens, values, ScopePermFromString);
    forall i | 0 <= i < |tokens| ensures ScopePermToString(values[i]) == tokens[i] {
      ScopePermDecodeExact(tokens[i], values[i]);
    }
    assert ScopePermVecAsStrings(values) == tokens;
    JoinSplit(s, ',');
  }

  /** Parsing keeps input order: the claims of `a + "," + b` are those of `a`
      followed by those of `b`. */
  lemma IsPermVecParseConcat(a: string, b: string)
    ensures Recognised(Split(a + "," + b, ','), IsPermFromString)
         == Recognised(Split(a, ','), IsPermFromString) + Recognised(Split(b, ','), IsPermFromString)
  {
    SplitConcat(a, ',', b);
    RecognisedAppend(Split(a, ','), Split(b, ','), IsPermFromString);
  }

  /** Parsing keeps input order for scopes too. */
  lemma ScopePermVecParseConcat(a: string, b: string)
    ensures Recognised(Split(a + "," + b, ','), ScopePermFromString)
         == Recognised(Split(a, ','), ScopePermFromString) + Recognised(Split(b, ','), ScopePermFromString)
  {
    SplitConcat(a, ',', b);
    RecognisedAppend(Split(a, ','), Split(b, ','), ScopePermFromString);
  }
}
