/** The path parameter of the delete route: message ids separated by commas
    (`Ids::from_param`). The pattern `^([a-zA-Z0-9]+)((,[a-zA-Z0-9]+)+$|$)` is
    modelled by a left-to-right matcher, `ScanIds`, and characterised through
    the comma split. */
module MessageIds {
  import opened Wrappers
  import opened Strings
  import opened CharClasses

  /** The JSON body of the rejection, as serde_json prints it. */
  const InvalidIdsError: string :=
    "{\"error\":\"Invalid request. You must first specify a message id(s) and separate them by commas.\"}"

  /** One id: one or more ASCII letters or digits. */
  predicate IsId(t: string) {
    |t| > 0 && AllChars(t, IsAlnum)
  }

  /** Every comma-separated piece is an id. */
  predicate IdList(s: string) {
    PiecesFrom(Split(s, ','), 0, IsId)
  }

  /** The pattern's matcher; `run` is the length of the id read so far. */
  function ScanIds(s: string, run: nat): bool
    decreases |s|
  {
    if |s| == 0 then run > 0
    else if IsAlnum(s[0]) then ScanIds(s[1..], run + 1)
    else if s[0] == ',' then run > 0 && ScanIds(s[1..], 0)
    else false
  }

  /** The matcher accepts exactly when the current piece (after `run` letters
      already read) is alphanumeric and non-empty and every later piece is an id. */
  lemma {:induction false} ScanIdsSplit(s: string, run: nat)
    ensures ScanIds(s, run) <==>
              var pieces := Split(s, ',');
              (run > 0 || |pieces[0]| > 0) && AllChars(pieces[0], IsAlnum)
              && PiecesFrom(pieces, 1, IsId)
    decreases |s|
  {
    if |s| > 0 {
      var rest := Split(s[1..], ',');
      if s[0] == ',' {
        assert Split(s, ',') == [""] + rest;
        ScanIdsSplit(s[1..], 0);
        PiecesFromCons("", rest, IsId);
        PiecesFromHead(rest, IsId);
      } else {
        assert Split(s, ',') == [[s[0]] + rest[0]] + rest[1..];
        AllCharsCons(s[0], rest[0], IsAlnum);
        PiecesFromNewHead([s[0]] + rest[0], rest, IsId);
        if IsAlnum(s[0]) {
          ScanIdsSplit(s[1..], run + 1);
        }
      }
    }
  }

  /** `Ids::from_param`: on a match the ids are the comma-separated pieces. */
  function FromParam(param: string): (r: Result<seq<string>, string>)
    ensures r.Ok? <==> IdList(param)
    ensures r.Ok? ==> forall k :: 0 <= k < |r.value| ==> IsId(r.value[k])
    ensures r.Ok? ==> forall k :: 0 <= k < |r.value| ==> ',' !in r.value[k]
    ensures r.Ok? ==> Join(r.value, ",") == param
    ensures r.Ok? ==> |r.value| == Count(param, ',') + 1
    ensures r.Err? ==> r.error == InvalidIdsError
  {
    ScanIdsSplit(param, 0);
    SplitPiecesAreFree(param, ',');
    JoinSplit(param, ',');
    SplitLength(param, ',');
    if ScanIds(param, 0) then Ok(Split(param, ',')) else Err(InvalidIdsError)
  }

  /** The empty string, a leading comma, a trailing comma and two adjacent
      commas are all rejected. */
  lemma MalformedIdsRejected(s: string)
    requires s == [] || s[0] == ',' || s[|s| - 1] == ','
             || exists i :: 0 <= i < |s| - 1 && s[i] == ',' && s[i + 1] == ','
    ensures FromParam(s) == Err(InvalidIdsError)
  {
    if s == [] {
      assert Split(s, ',')[0] == "";
    } else if s[0] == ',' {
      assert Split(s, ',')[0] == "";
    } else if s[|s| - 1] == ',' {
      var a := s[..|s| - 1];
      assert s == a + [','] + "";
      SplitConcat(a, ',', "");
      assert Split(s, ',')[|Split(s, ',')| - 1] == "";
    } else {
      var i :| 0 <= i < |s| - 1 && s[i] == ',' && s[i + 1] == ',';
      var a, b := s[..i], s[i + 2..];
      assert s == a + [','] + ([','] + b);
      SplitConcat(a, ',', [','] + b);
      assert Split([','] + b, ',')[0] == "";
      assert Split(s, ',')[|Split(a, ',')|] == "";
    }
  }

  /** Two ids separated by a comma are accepted and returned in order. */
  lemma TwoIdsAccepted()
    ensures FromParam("abc,123") == Ok(["abc", "123"])
  {
    assert "abc,123" == "abc" + [','] + "123";
    SplitAfterPiece("abc", ',', "123");
    SplitFree("123", ',');
    assert Split("abc,123", ',') == ["abc", "123"];
    assert IsId("abc") && IsId("123");
    assert IdList("abc,123");
  }
}
