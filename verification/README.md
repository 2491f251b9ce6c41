# Mailer service gatekeeping, modelled in Dafny

This project models the request-gatekeeping core of a small mail/contact
HTTP service written in Rust (Rocket). It covers three parts:

- **Permission vocabulary and policy check** (`src/auth/auth0_claims.rs`).
  This covers the two closed claim enumerations: nine "is" claims such as
  `is:tumex`, and three mailer scopes such as `mailer:baseaccess`. It covers
  their string encodings, the comma-separated vector forms, and
  `check_perm`, which decides a route's policy over the token's raw
  permission strings.
- **Rate limiters** (`src/security/rate_limit.rs` and the older
  `src/fairings/rate_limit.rs`). This covers the per-address client table
  with add, reset, limit and idle checks, the combined
  `full_check_on_the_limit` gate, and the process-wide `ServerLimit` counter.
  Every operation is a pure state transformer. The clock is a parameter
  `now` in integer seconds.
- **String validators and formatters.** This covers the comma-separated
  message-id parser (`Ids::from_param`), the two e-mail validators
  (`NewMessagePayload::is_valid` and `MailAddress::from_form_value`), the
  `send_message` text, and the `Bearer ` credential extraction at the start
  of the request guard.

Each regular expression is modelled as a left-to-right matcher: a recursive
function with a small state, such as the length of the current label. Each
matcher is proved equal to an independent description written over
`Strings.Split`, the model of Rust's `str::split` with a `char` pattern.
The accept/reject properties are stated over that description.

Files: `wrappers.dfy` (Option/Result), `strings.dfy` (split/join and their
laws), `perm_claims.dfy`, `perm_check.dfy`, `client_table.dfy` (the record
table both limiters share), `rate_limit.dfy`, `legacy_rate_limit.dfy`,
`char_classes.dfy`, `message_ids.dfy`, `mail_syntax.dfy` (the local part and
`@` shared by both address patterns), `send_msg.dfy`, `routes.dfy`,
`bearer_auth.dfy`.

The model follows the code in these behaviours:

- The per-client limit refuses once the count after the increment reaches
  the limit (`count >= limit`). With a limit of 3 per window, only two
  requests in a burst are admitted (`RateLimit.ThreePerMinuteScenario`).
- An idle reset sets the count to 0. The request that triggers the reset is
  admitted but not counted.
- Absent `raw_permissions` refuses even when the bypass is enabled. Policies
  are evaluated against the raw strings only.
- `ServerLimit::check` compares with `diff < window`, while the per-client
  check uses `diff <= window`. Both are kept as written.

## Model

| member | source | states |
|---|---|---|
| PermClaims.IsPermToString | src/auth/auth0_claims.rs:56-70 | every "is" claim's string decodes back to that claim, is not a scope string, and holds no comma |
| PermClaims.ScopePermToString | src/auth/auth0_claims.rs:72-80 | every scope's string decodes back to that scope, is not an "is" claim string, and holds no comma |
| PermClaims.IsPermAsStr | src/auth/auth0_claims.rs:82-97 | the `as_str` table agrees with `to_string` on every "is" claim |
| PermClaims.ScopePermAsStr | src/auth/auth0_claims.rs:99-108 | the `as_str` table agrees with `to_string` on every scope |
| PermClaims.IsPermDecodeExact | src/auth/auth0_claims.rs:28-43 | `from_perm_string` yields claim p exactly on p's string; every other string gives `None` |
| PermClaims.ScopePermDecodeExact | src/auth/auth0_claims.rs:45-54 | scope decoding yields p exactly on p's string; every other string gives `None` |
| PermClaims.EncodingsInjectiveAndDisjoint | src/auth/auth0_claims.rs:56-80 | both encodings are injective, and no "is" claim string equals a scope string |
| PermClaims.RecognisedAppend | src/auth/auth0_claims.rs:110-140 | dropping unrecognised tokens distributes over concatenation, so the kept tokens stay in input order |
| PermClaims.RecognisedMembers | src/auth/auth0_claims.rs:110-140 | a value is kept iff some token decodes to it |
| PermClaims.RecognisedEmpty | src/auth/auth0_claims.rs:118-122 | nothing is kept iff no token decodes |
| PermClaims.IsPermVecFromString | src/auth/auth0_claims.rs:110-124 | `None` iff no comma-separated token is an "is" claim; otherwise a non-empty vector holding claim p iff p's string is one of the tokens |
| PermClaims.ScopePermVecFromString | src/auth/auth0_claims.rs:126-140 | `None` iff no token is a scope; otherwise a non-empty vector holding scope p iff p's string is one of the tokens |
| PermClaims.IsPermVecParseConcat | src/auth/auth0_claims.rs:110-124 | the claims parsed from `a,b` are those of `a` followed by those of `b` |
| PermClaims.ScopePermVecParseConcat | src/auth/auth0_claims.rs:126-140 | the scopes parsed from `a,b` are those of `a` followed by those of `b` |
| PermClaims.IsPermVecAsStrings | src/auth/auth0_claims.rs:157-162 | one string per claim, in order, each decoding back to its claim and free of commas |
| PermClaims.ScopePermVecAsStrings | src/auth/auth0_claims.rs:164-169 | one string per scope, in order, each decoding back to its scope and free of commas |
| PermClaims.IsPermVecToString | src/auth/auth0_claims.rs:145-149 | for a non-empty vector, splitting `to_string` at commas gives `as_string_vec`, with one comma fewer than elements |
| PermClaims.ScopePermVecToString | src/auth/auth0_claims.rs:151-155 | the same for scope vectors |
| PermClaims.IsPermVecRoundTrip | src/auth/auth0_claims.rs:110-155 | parsing the printed form of a non-empty claim vector gives the vector back |
| PermClaims.ScopePermVecRoundTrip | src/auth/auth0_claims.rs:126-155 | parsing the printed form of a non-empty scope vector gives the vector back |
| PermClaims.IsPermVecPrintParsed | src/auth/auth0_claims.rs:110-149 | when every token is an "is" claim, printing the parsed vector gives the input string back |
| PermClaims.ScopePermVecPrintParsed | src/auth/auth0_claims.rs:126-155 | when every token is a scope, printing the parsed vector gives the input string back |
| PermCheck.CheckPerm | src/auth/auth0_claims.rs:309-362 | absent raw permissions refuse; else an enabled bypass with `is:tumex` admits; else a required but missing `mailer:baseaccess` refuses; else All/Any/None hold iff every/some/no required string is present; the defaults are check_min false and check_tumex true |
| PermCheck.EmptyPolicies | src/auth/auth0_claims.rs:329-361 | an empty All list holds, an empty Any list fails, and an empty None list holds |
| PermCheck.NoneOfIsNotAny | src/auth/auth0_claims.rs:341-360 | the None policy holds exactly when the Any policy over the same list fails |
| ClientTable.Find | src/security/rate_limit.rs:52-60 | the position found holds the address, and no earlier record does; nothing is found iff the address is unknown |
| ClientTable.Lookup | src/security/rate_limit.rs:52-60 | a record is returned iff the address is known; it is that address's record and, under uniqueness, the only one |
| ClientTable.TouchSpec | src/security/rate_limit.rs:33-50 | the shared add step bumps the known record or appends a fresh one; lookups of other addresses are unchanged, and uniqueness is kept |
| ClientTable.RestartSpec | src/security/rate_limit.rs:62-73 | the shared reset step restarts the known record at count 0 with both times `now`; otherwise nothing changes; others unchanged; uniqueness kept |
| RateLimit.New | src/security/rate_limit.rs:25-31 | the new state has no clients, so every lookup fails; it keeps the rate and reset timeout |
| RateLimit.AddClient | src/security/rate_limit.rs:33-50 | a known address gets count + 1 and last request `now`, keeping its first request time and position; an unknown address is appended with count 1 and both times `now`; all other records and lookups are unchanged; at most one record per address is preserved |
| RateLimit.ResetClient | src/security/rate_limit.rs:62-73 | a known address restarts at count 0 with both times `now`, and that record is returned; an unknown address returns `None` and leaves the state unchanged; nothing else changes |
| RateLimit.OnTheLimit | src/security/rate_limit.rs:75-89 | an unknown address gives false; otherwise the address's first record in the table decides, and the request passes iff that record's count is under the limit or its latest request lies outside the window |
| RateLimit.PassedResetTimeout | src/security/rate_limit.rs:91-100 | false for an unknown address; otherwise true iff the first record of the address has been idle longer than the reset timeout |
| RateLimit.IdleStaysIdle | src/security/rate_limit.rs:91-100 | an address idle at one instant is idle at every later one |
| RateLimit.JustServedNotIdle | src/security/rate_limit.rs:91-110 | with a non-negative reset timeout, an address the gate has just handled is not idle at that instant, whichever path the gate took |
| RateLimit.RefusalSaturates | src/security/rate_limit.rs:75-110 | with a non-negative window, a request that is not idle and brings the count to the limit is refused, and leaves the record at or above the limit with its latest request at `now` |
| RateLimit.SaturationPersists | src/security/rate_limit.rs:75-110 | a saturated address stays refused and saturated at every later request within the reset timeout, however long the window: `add_client` sets the latest request to `now` just before `on_the_limit`, so only the idle reset lifts a refusal |
| RateLimit.FullCheckOnTheLimit | src/security/rate_limit.rs:102-110 | when idle past the timeout, the record restarts at count 0 with no increment, and the request is admitted; otherwise exactly one add happens and the request is admitted iff the window is negative or the new count is below the limit; other addresses are unchanged; uniqueness is kept |
| RateLimit.NewClientAdmission | src/security/rate_limit.rs:102-110 | with a non-negative window, a first request from a new address is admitted iff the limit exceeds 1 |
| RateLimit.ThreePerMinuteScenario | src/security/rate_limit.rs:102-110 | with limit 3 per 60 s, a burst of three gives admit, admit, refuse; after more than the reset timeout of quiet, the next request is admitted with the count at 0 |
| RateLimit.ResetIsFresh | src/security/rate_limit.rs:121-133 | `reset` leaves exactly the counter `new` would create at that instant with the same configuration |
| RateLimit.IncrementN | src/security/rate_limit.rs:135-137 | `n` increments add exactly `n` to the count and change nothing else |
| RateLimit.ServerRunCheck | src/security/rate_limit.rs:121-153 | a counter created at `start` that has seen `n` increments, checked no later than the reset timeout: it refuses iff the check falls strictly inside the window and `n` has reached the limit, and the count stays `n` |
| RateLimit.ServerRunExpires | src/security/rate_limit.rs:121-153 | the same counter checked after the reset timeout admits, and becomes the counter `new` would create at that instant |
| RateLimit.CheckSettles | src/security/rate_limit.rs:139-153 | with a non-negative reset timeout, a second check at the same instant leaves the counter as the first one left it |
| LegacyRateLimit.New | src/fairings/rate_limit.rs:25-30 | the new state has an empty client table, so every lookup fails |
| LegacyRateLimit.GetClient | src/fairings/rate_limit.rs:55-63 | returns the first record whose address matches, or `None` iff there is none |
| LegacyRateLimit.AddClient | src/fairings/rate_limit.rs:32-53 | a known address gets count + 1 and last request `now` without a new record; an unknown address is appended with count 1 and both times `now`; others are unchanged |
| LegacyRateLimit.OnTheLimit | src/fairings/rate_limit.rs:65-94 | refuses iff fewer than two whole units (second/minute/hour/day) have passed since the last request, which is the truncated elapsed count being `<= 1`, and `count >= limit`; never refuses when `count < limit` |
| MessageIds.ScanIdsSplit | src/routes_mod/del_msg.rs:28-30 | the id pattern's matcher accepts exactly the strings whose comma-separated pieces are all non-empty and ASCII-alphanumeric |
| MessageIds.FromParam | src/routes_mod/del_msg.rs:27-40 | accepts iff every piece is a non-empty alphanumeric id; no id contains a comma, the ids joined with `,` give the input back, and there is one more id than commas; on rejection it returns the fixed JSON error |
| MessageIds.MalformedIdsRejected | src/routes_mod/del_msg.rs:28-36 | the empty string, a leading comma, a trailing comma and `,,` are rejected with the fixed error |
| MessageIds.TwoIdsAccepted | src/routes_mod/del_msg.rs:28-31 | `abc,123` parses to the ids `abc` and `123` in that order |
| MailSyntax.ScanLocalSplit | src/routes_mod/send_msg.rs:33 | the local-part matcher accepts exactly the strings with one `@`, a non-empty local part from the allowed characters, and an accepted domain |
| MailSyntax.AddressHasOneAt | src/routes_mod/send_msg.rs:33 | an accepted address contains exactly one `@` |
| SendMsg.ScanSegmentsSplit | src/routes_mod/send_msg.rs:33 | the matcher for `(\.[a-zA-Z0-9-]{0,61})` accepts exactly the dot-separated segments of at most 61 label characters |
| SendMsg.ScanFirstLabelSplit | src/routes_mod/send_msg.rs:33 | the domain matcher accepts exactly a non-empty alphanumeric first label followed by at least one such segment |
| SendMsg.DomainMatchesExactly | src/routes_mod/send_msg.rs:33 | the domain matcher agrees with `SendDomain`, and no accepted domain contains `@` |
| SendMsg.EmailMatchesExactly | src/routes_mod/send_msg.rs:33-35 | the whole pattern accepts exactly the addresses with a `SendDomain` |
| SendMsg.IsValid | src/routes_mod/send_msg.rs:32-43 | `Ok` iff `from` is such an address, which then has exactly one `@`; otherwise error code 400 with "Invalid email address" |
| SendMsg.OnlySenderChecked | src/routes_mod/send_msg.rs:32-43 | payloads with the same `from` get the same verdict, so name, subject and message never matter |
| SendMsg.DotSegmentExamples | src/routes_mod/send_msg.rs:33 | `a@b` is rejected and `a@b.` is accepted |
| Routes.ScanLabelStartSplit | src/routes.rs:13 | the host-domain matcher accepts exactly the strings whose dot-separated labels are all 1-63 label characters that start and end alphanumeric |
| Routes.ScanLabelSplit | src/routes.rs:13 | inside a label, the matcher accepts exactly when the label so far plus its rest stays within 63 characters, ends alphanumeric, and every later label is a host label |
| Routes.EmailMatchesExactly | src/routes.rs:13 | the whole pattern accepts exactly the addresses with a `HostDomain` |
| Routes.FromFormValue | src/routes.rs:12-19 | succeeds iff the value is an address with one `@`, a non-empty local part and host-name labels, returning the value unchanged; on rejection the error is the value itself |
| Routes.LabelExamples | src/routes.rs:13-17 | `a@b` is accepted, with zero dot-labels; `a@b.` and `a@.b` are rejected, since no label may be empty |
| Routes.SendMessage | src/routes.rs:31-36 | the text is 33 characters longer than its fields together, starts with "From: " and the sender, and ends with the message |
| Routes.SendMessageRoundTrip | src/routes.rs:33 | when sender, name and subject are single lines, reading the four labelled lines back recovers all four fields |
| BearerAuth.ExtractAsWritten | src/guards/auth.rs:32-41 | under the evidently intended grouping of the eagerly evaluated condition, a missing header reaches `unwrap()` on `None`; a present header is refused or stripped of its prefix |
| BearerAuth.MissingHeaderPanicsAsWritten | src/guards/auth.rs:34-37 | the guard as written panics on a missing `Authorization` header |
| BearerAuth.ExtractBearer | src/guards/auth.rs:32-41 | a missing, empty or unprefixed header gives `Failure`; a token comes out iff the value starts with the case-sensitive "Bearer ", and then "Bearer " + token is the value |
| BearerAuth.ExtractBearerAgreesWhenPresent | src/guards/auth.rs:34-41 | for a present header, the corrected guard and the guard as written give the same verdict and token |
| BearerAuth.BearerExamples | src/guards/auth.rs:34-41 | "Bearer " alone yields the empty token; "bearer abc" and "Bearerabc" are refused |

## Findings

| source | as written | input that shows it | evidently intended | confidence | as-written member | corrected member |
|---|---|---|---|---|---|---|
| src/guards/auth.rs:34-36 | the three tests are joined by the bitwise-or operator and compared by `==`, and neither operator short-circuits; under Rust's precedence the line is ill-typed, and under the evidently intended grouping (the three tests `is_none()`, `len() == 0` and `!starts_with(..)` each or-ed as a whole), which `ExtractAsWritten` models, `token.unwrap()` still runs when the header is absent | a request without an `Authorization` header: `ExtractAsWritten(None) == Panicked` | a missing header yields `Outcome::Failure` like an empty or unprefixed one | medium (the file does not compile as written, so the grouping is a reading of the intent); not executed | BearerAuth.MissingHeaderPanicsAsWritten | BearerAuth.ExtractBearer |

## Left out

- Key-set fetching, key lookup, signature, expiry and audience verification, and the refresh-and-retry flow. The source has no logic for these. `src/auth/auth0_keys.rs` is a network stub, and `src/guards/auth.rs` stops after the prefix check with unfinished RS256 code.
- `Auth0TokenFields::from_serde_val`. It depends on `serde_json::Value` printing, where a JSON string keeps its quotes. The token's `raw_permissions` is an input `Option<seq<string>>` to `PermCheck.CheckPerm` instead. The other token fields are not modelled because `check_perm` reads none of them.
- The generic required-permission type of `check_perm`. It is a type parameter with its `to_string` passed as `show`.
- Wall-clock time. Each `Utc::now()` becomes the integer-seconds parameter `now`. One `now` serves a whole operation, although the source reads the clock again in each helper, and twice in `reset_client`. Sub-second precision is dropped, so chrono's `num_seconds` is the exact difference.
- RateLimit.AddClient: `count` is a `nat`, so the `u32` overflow of `count += 1` (a panic in debug builds, wrap-around in release builds) after 2^32 - 1 requests is not modelled. The same holds for LegacyRateLimit.AddClient and RateLimit.Increment.
- The `tokio::sync::RwLock` around the table, the URI rewriting of `src/guards/rate_limit.rs`, and the setup in `src/main.rs`. These are concurrency and routing plumbing, and the operations are modelled as atomic state transformers.
- `src/guards/auth.rs` does not compile as written: `&srt` at line 8, `const this_aud: Fn` at line 9, the unfinished closure at lines 49-52, and the condition at lines 34-36, which Rust's precedence makes ill-typed. `BearerAuth.ExtractAsWritten` models the evidently intended grouping of that condition.
- RateLimit.NewServerLimit, RateLimit.ResetServer, RateLimit.Increment and RateLimit.Check: their own contracts only restate the field updates; what they promise together is stated by `ResetIsFresh`, `IncrementN`, `ServerRunCheck`, `ServerRunExpires` and `CheckSettles`. `ServerLimit` has no caller in the source.
- `RateType::new`. It is the datatype constructor `RateLimit.RateType`.
- Unicode. Rust strings are UTF-8, and `len()` counts bytes. The model uses `seq<char>`. All pattern classes are ASCII, so character and byte counts agree on accepted inputs.
- The MongoDB handlers (message read, opacity, delete body, insert, listing, health), `src/mongo.rs`, the message model, the constant error responses, the CORS and security headers, and the route tables. None of them holds logic of the gatekeeping core.
