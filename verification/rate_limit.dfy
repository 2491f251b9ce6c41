/** The per-client rate limiter and the process-wide request counter. Every
    clock read is the parameter `now`, in integer seconds, and every chrono
    `Duration` is a whole number of seconds. */
module RateLimit {
  import opened Wrappers
  import opened ClientTable

  /** A window length and the request limit that applies inside it. */
  datatype RateType = RateType(windowSecs: int, reqLimit: nat)

  /** The client table with its rate and idle reset timeout. */
  datatype RateLimitState = RateLimitState(clients: seq<ClientRecord>, limit: RateType, resetTimeoutSecs: int)

  /** The table after a `reset_client`, and the record it returns. */
  datatype ResetOutcome = ResetOutcome(state: RateLimitState, record: Option<ClientRecord>)

  /** The table after a `full_check_on_the_limit`, and whether it admits. */
  datatype Admission = Admission(state: RateLimitState, admitted: bool)

  /** `RateLimitState::new`: no clients yet. */
  function New(rate: RateType, resetTimeoutSecs: int): (st: RateLimitState)
    ensures st.clients == [] && UniqueIps(st.clients)
    ensures forall ip :: GetClient(st, ip).None?
    ensures st.limit == rate && st.resetTimeoutSecs == resetTimeoutSecs
  {
    RateLimitState([], rate, resetTimeoutSecs)
  }

  /** `get_client`: the first record of `ip`. */
  function GetClient(st: RateLimitState, ip: string): Option<ClientRecord> {
    Lookup(st.clients, ip)
  }

  /** `add_client`: a known address gets one more request seen at `now` and
      keeps its position and first-request time; an unknown one is appended
      with one request. No other record changes. */
  function AddClient(st: RateLimitState, ip: string, now: int): (r: RateLimitState)
    ensures GetClient(st, ip).Some? ==>
              var c := GetClient(st, ip).value;
              GetClient(r, ip) == Some(ClientRecord(ip, c.count + 1, now, c.firstRequest))
    ensures GetClient(st, ip).None? ==> GetClient(r, ip) == Some(ClientRecord(ip, 1, now, now))
    ensures forall other :: other != ip ==> GetClient(r, other) == GetClient(st, other)
    ensures Known(st.clients, ip) ==> |r.clients| == |st.clients|
    ensures !Known(st.clients, ip) ==> r.clients == st.clients + [ClientRecord(ip, 1, now, now)]
    ensures forall j :: 0 <= j < |st.clients| && st.clients[j].ip != ip ==> r.clients[j] == st.clients[j]
    ensures UniqueIps(st.clients) ==> UniqueIps(r.clients)
    ensures r.limit == st.limit && r.resetTimeoutSecs == st.resetTimeoutSecs
  {
    TouchSpec(st.clients, ip, now);
    var clients := Touch(st.clients, ip, now);
    assert Lookup(clients, ip) == Some(Bumped(Lookup(st.clients, ip), ip, now));
    st.(clients := clients)
  }

  /** `reset_client`: a known address restarts at count 0 with both times
      `now` and its new record is returned; an unknown one changes nothing. */
  function ResetClient(st: RateLimitState, ip: string, now: int): (r: ResetOutcome)
    ensures Known(st.clients, ip) ==> r.record == Some(ClientRecord(ip, 0, now, now))
    ensures Known(st.clients, ip) ==> GetClient(r.state, ip) == r.record
    ensures !Known(st.clients, ip) ==> r.record.None? && r.state == st
    ensures |r.state.clients| == |st.clients|
    ensures forall other :: other != ip ==> GetClient(r.state, other) == GetClient(st, other)
    ensures forall j :: 0 <= j < |st.clients| && st.clients[j].ip != ip ==> r.state.clients[j] == st.clients[j]
    ensures UniqueIps(st.clients) ==> UniqueIps(r.state.clients)
    ensures r.state.limit == st.limit && r.state.resetTimeoutSecs == st.resetTimeoutSecs
  {
    RestartSpec(st.clients, ip, now);
    var clients := Restart(st.clients, ip, now);
    var record := if Known(st.clients, ip) then Lookup(clients, ip) else None;
    ResetOutcome(st.(clients := clients), record)
  }

  /** `on_the_limit`: true means the request may pass. An unknown address is
      refused; for a known one the first record decides, and it passes when
      its count is still under the limit or its latest request lies outside
      the window. */
  function OnTheLimit(st: RateLimitState, ip: string, now: int): (pass: bool)
    ensures !Known(st.clients, ip) ==> !pass
    ensures forall j :: FirstOf(st.clients, ip, j) ==>
              (pass <==> st.clients[j].count < st.limit.reqLimit
                         || now - st.clients[j].lastRequest > st.limit.windowSecs)
  {
    assert forall j :: FirstOf(st.clients, ip, j) ==> GetClient(st, ip) == Some(st.clients[j]) by {
      forall j | FirstOf(st.clients, ip, j) ensures GetClient(st, ip) == Some(st.clients[j]) {
        LookupFirst(st.clients, ip, j);
      }
    }
    match GetClient(st, ip)
    case None => false
    case Some(c) =>
      if now - c.lastRequest <= st.limit.windowSecs && c.count >= st.limit.reqLimit then false else true
  }

  /** `passed_reset_timeout`: the address is known and its first record has
      been idle longer than the reset timeout. */
  function PassedResetTimeout(st: RateLimitState, ip: string, now: int): (idle: bool)
    ensures !Known(st.clients, ip) ==> !idle
    ensures forall j :: FirstOf(st.clients, ip, j) ==>
              (idle <==> now - st.clients[j].lastRequest > st.resetTimeoutSecs)
  {
    assert forall j :: FirstOf(st.clients, ip, j) ==> GetClient(st, ip) == Some(st.clients[j]) by {
      forall j | FirstOf(st.clients, ip, j) ensures GetClient(st, ip) == Some(st.clients[j]) {
        LookupFirst(st.clients, ip, j);
      }
    }
    match GetClient(st, ip)
    case None => false
    case Some(c) => now - c.lastRequest > st.resetTimeoutSecs
  }

  /** Once idle, an address stays idle as the clock advances. */
  lemma IdleStaysIdle(st: RateLimitState, ip: string, now: int, later: int)
    requires PassedResetTimeout(st, ip, now) && now <= later
    ensures PassedResetTimeout(st, ip, later)
  {
  }

  /** The count an address has after one more `add_client`. */
  function CountAfterAdd(st: RateLimitState, ip: string): nat {
    match GetClient(st, ip)
    case Some(c) => c.count + 1
    case None => 1
  }

  /** `full_check_on_the_limit`, the gate run on every request. */
  function FullCheckOnTheLimit(st: RateLimitState, ip: string, now: int): (r: Admission)
    // idle past the reset timeout: restart the record (count 0, this request
    // not counted) and admit
    ensures PassedResetTimeout(st, ip, now) ==>
              r.admitted && r.state == ResetClient(st, ip, now).state
              && GetClient(r.state, ip) == Some(ClientRecord(ip, 0, now, now))
    // otherwise: exactly one add_client, then admit iff the new count is under
    // the limit (a negative window never refuses)
    ensures !PassedResetTimeout(st, ip, now) ==>
              r.state == AddClient(st, ip, now)
              && GetClient(r.state, ip).value.count == CountAfterAdd(st, ip)
              && (r.admitted <==> st.limit.windowSecs < 0 || CountAfterAdd(st, ip) < st.limit.reqLimit)
    ensures forall other :: other != ip ==> GetClient(r.state, other) == GetClient(st, other)
    ensures UniqueIps(st.clients) ==> UniqueIps(r.state.clients)
  {
    if PassedResetTimeout(st, ip, now) then
      Admission(ResetClient(st, ip, now).state, true)
    else
      var added := AddClient(st, ip, now);
      Admission(added, OnTheLimit(added, ip, now))
  }

  /** A first request from a new address is admitted iff the limit exceeds
      one (for a non-negative window). */
  lemma NewClientAdmission(st: RateLimitState, ip: string, now: int)
    requires GetClient(st, ip).None?
    requires st.limit.windowSecs >= 0
    ensures FullCheckOnTheLimit(st, ip, now).admitted <==> st.limit.reqLimit > 1
  {
  }

  /** With a limit of 3 per 60 s, three requests at the same instant are
      admitted, admitted and refused; after more than the reset timeout of
      quiet the next one is admitted and restarts the count at 0. */
  lemma ThreePerMinuteScenario(now: int)
    ensures
      var s0 := New(RateType(60, 3), 3600);
      var a1 := FullCheckOnTheLimit(s0, "A", now);
      var a2 := FullCheckOnTheLimit(a1.state, "A", now);
      var a3 := FullCheckOnTheLimit(a2.state, "A", now);
      var a4 := FullCheckOnTheLimit(a3.state, "A", now + 3601);
      a1.admitted && a2.admitted && !a3.admitted
      && a4.admitted && GetClient(a4.state, "A").value.count == 0
  {
    var s0 := New(RateType(60, 3), 3600);
    var a1 := FullCheckOnTheLimit(s0, "A", now);
    assert GetClient(a1.state, "A") == Some(ClientRecord("A", 1, now, now));
    var a2 := FullCheckOnTheLimit(a1.state, "A", now);
    assert GetClient(a2.state, "A") == Some(ClientRecord("A", 2, now, now));
    var a3 := FullCheckOnTheLimit(a2.state, "A", now);
    assert GetClient(a3.state, "A") == Some(ClientRecord("A", 3, now, now));
  }

  /** The address's record has reached the limit and was last seen at `at`. */
  predicate Saturated(st: RateLimitState, ip: string, at: int) {
    GetClient(st, ip).Some?
    && GetClient(st, ip).value.count >= st.limit.reqLimit
    && GetClient(st, ip).value.lastRequest == at
  }

  /** An address the gate has just served is not idle at that instant. */
  lemma JustServedNotIdle(st: RateLimitState, ip: string, now: int)
    requires st.resetTimeoutSecs >= 0
    ensures !PassedResetTimeout(FullCheckOnTheLimit(st, ip, now).state, ip, now)
  {
    var r := FullCheckOnTheLimit(st, ip, now);
    assert GetClient(r.state, ip).value.lastRequest == now;
  }

  /** A request that is not idle and brings the count to the limit is refused,
      and leaves the address saturated at that instant. */
  lemma RefusalSaturates(st: RateLimitState, ip: string, now: int)
    requires st.limit.windowSecs >= 0
    requires !PassedResetTimeout(st, ip, now)
    requires CountAfterAdd(st, ip) >= st.limit.reqLimit
    ensures !FullCheckOnTheLimit(st, ip, now).admitted
    ensures Saturated(FullCheckOnTheLimit(st, ip, now).state, ip, now)
  {
  }

  /** The window never lifts a refusal: `add_client` has just set the latest
      request to `now`, so a saturated address keeps being refused, whatever
      the window length, until it has been quiet for longer than the reset
      timeout. */
  lemma SaturationPersists(st: RateLimitState, ip: string, at: int, later: int)
    requires st.limit.windowSecs >= 0
    requires Saturated(st, ip, at)
    requires at <= later && later - at <= st.resetTimeoutSecs
    ensures !FullCheckOnTheLimit(st, ip, later).admitted
    ensures Saturated(FullCheckOnTheLimit(st, ip, later).state, ip, later)
  {
    assert !PassedResetTimeout(st, ip, later);
    assert CountAfterAdd(st, ip) >= st.limit.reqLimit;
    RefusalSaturates(st, ip, later);
  }

  // ---------------------------------------------------------------------------
  // Process-wide counter

  /** One counter for all requests, with its own rate and reset timeout. */
  datatype ServerLimit = ServerLimit(limit: RateType, currentCount: nat, lastReset: int, resetTimeoutSecs: int)

  /** The counter after a `check`, and whether it admits. */
  datatype ServerAdmission = ServerAdmission(state: ServerLimit, admitted: bool)

  /** `ServerLimit::new`: count 0, last reset `now`. */
  function NewServerLimit(limit: RateType, resetTimeoutSecs: int, now: int): (sl: ServerLimit)
    ensures sl.currentCount == 0 && sl.lastReset == now
    ensures sl.limit == limit && sl.resetTimeoutSecs == resetTimeoutSecs
  {
    ServerLimit(limit, 0, now, resetTimeoutSecs)
  }

  /** `ServerLimit::reset`: count 0, last reset `now`, configuration kept. */
  function ResetServer(sl: ServerLimit, now: int): (r: ServerLimit)
    ensures r.currentCount == 0 && r.lastReset == now
    ensures r.limit == sl.limit && r.resetTimeoutSecs == sl.resetTimeoutSecs
  {
    sl.(currentCount := 0, lastReset := now)
  }

  /** `ServerLimit::increment`: exactly one more request, nothing else. */
  function Increment(sl: ServerLimit): (r: ServerLimit)
    ensures r.currentCount == sl.currentCount + 1
    ensures r.limit == sl.limit && r.lastReset == sl.lastReset && r.resetTimeoutSecs == sl.resetTimeoutSecs
  {
    sl.(currentCount := sl.currentCount + 1)
  }

  /** `ServerLimit::check`: past the reset timeout since the last reset it
      resets and admits; otherwise it leaves the counter alone and refuses
      exactly when still inside the window (strictly) with the count at the
      limit. It never increments. */
  function Check(sl: ServerLimit, now: int): (r: ServerAdmission)
    ensures now - sl.lastReset > sl.resetTimeoutSecs ==>
              r.admitted && r.state.currentCount == 0 && r.state.lastReset == now
    ensures now - sl.lastReset <= sl.resetTimeoutSecs ==>
              r.state == sl
              && (!r.admitted <==> now - sl.lastReset < sl.limit.windowSecs && sl.currentCount >= sl.limit.reqLimit)
    ensures r.state.currentCount <= sl.currentCount
    ensures r.state.limit == sl.limit && r.state.resetTimeoutSecs == sl.resetTimeoutSecs
  {
    var diff := now - sl.lastReset;
    if diff > sl.resetTimeoutSecs then
      ServerAdmission(ResetServer(sl, now), true)
    else if diff < sl.limit.windowSecs && sl.currentCount >= sl.limit.reqLimit then
      ServerAdmission(sl, false)
    else
      ServerAdmission(sl, true)
  }

  /** `n` calls of `ServerLimit::increment`. */
  function IncrementN(sl: ServerLimit, n: nat): (r: ServerLimit)
    ensures r == sl.(currentCount := sl.currentCount + n)
    decreases n
  {
    if n == 0 then sl else Increment(IncrementN(sl, n - 1))
  }

  /** A reset counter is a freshly created one with the same configuration. */
  lemma ResetIsFresh(sl: ServerLimit, now: int)
    ensures ResetServer(sl, now) == NewServerLimit(sl.limit, sl.resetTimeoutSecs, now)
  {
  }

  /** A new counter created at `start` that has seen `n` requests: a `check`
      no later than the reset timeout refuses exactly when it falls strictly
      inside the window and `n` has reached the limit, and keeps the count. */
  lemma ServerRunCheck(limit: RateType, timeout: int, start: int, n: nat, now: int)
    requires now - start <= timeout
    ensures var r := Check(IncrementN(NewServerLimit(limit, timeout, start), n), now);
            r.state.currentCount == n
            && (!r.admitted <==> now - start < limit.windowSecs && n >= limit.reqLimit)
  {
  }

  /** The same counter checked after the reset timeout admits and is then
      indistinguishable from a counter created at that instant. */
  lemma ServerRunExpires(limit: RateType, timeout: int, start: int, n: nat, now: int)
    requires now - start > timeout
    ensures var r := Check(IncrementN(NewServerLimit(limit, timeout, start), n), now);
            r.admitted && r.state == NewServerLimit(limit, timeout, now)
  {
  }

  /** A second `check` at the same instant leaves the counter as the first
      one left it (with a non-negative reset timeout). */
  lemma CheckSettles(sl: ServerLimit, now: int)
    requires sl.resetTimeoutSecs >= 0
    ensures Check(Check(sl, now).state, now).state == Check(sl, now).state
  {
  }
}
