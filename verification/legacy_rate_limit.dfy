/** The older rate limiter of the fairings module: a client table with a rate
    given per second, minute, hour or day. The clock is the parameter `now`,
    in integer seconds. */
module LegacyRateLimit {
  import opened Wrappers
  import opened ClientTable

  /** A request limit per time unit. */
  datatype RateType = PerSecond(limit: nat) | PerMinute(limit: nat) | PerHour(limit: nat) | PerDay(limit: nat)

  datatype RateLimitState = RateLimitState(clients: seq<ClientRecord>, limit: RateType)

  /** Length of the rate's time unit in seconds. */
  function UnitSecs(rate: RateType): (secs: nat)
    ensures secs >= 1
  {
    match rate
    case PerSecond(_) => 1
    case PerMinute(_) => 60
    case PerHour(_) => 3600
    case PerDay(_) => 86400
  }

  /** Integer division rounding toward zero, as Rust's `i64` division does
      (chrono's `num_minutes`, `num_hours`, `num_days` divide the seconds so). */
  function TruncDiv(a: int, b: nat): int
    requires b > 0
  {
    if a >= 0 then a / b else -((-a) / b)
  }

  /** Whole units elapsed from `since` to `now`, truncated toward zero. */
  function Elapsed(rate: RateType, now: int, since: int): int {
    TruncDiv(now - since, UnitSecs(rate))
  }

  /** `RateLimitState::new`: no clients yet. */
  function New(rate: RateType): (st: RateLimitState)
    ensures st.clients == [] && st.limit == rate
    ensures forall ip :: GetClient(st, ip).None?
  {
    RateLimitState([], rate)
  }

  /** `get_client`: the first record of `ip`, or none. */
  function GetClient(st: RateLimitState, ip: string): (r: Option<ClientRecord>)
    ensures r.Some? <==> Known(st.clients, ip)
    ensures r.Some? ==> r.value.ip == ip && r.value in st.clients
    ensures r.Some? ==> exists i :: 0 <= i < |st.clients| && st.clients[i] == r.value
                                    && forall j :: 0 <= j < i ==> st.clients[j].ip != ip
  {
    var f := Find(st.clients, ip);
    if f.Some? then
      assert st.clients[f.value] == Lookup(st.clients, ip).value;
      Lookup(st.clients, ip)
    else
      Lookup(st.clients, ip)
  }

  /** `add_client`: a known address gets one more request seen at `now`
      without a new record; an unknown one is appended with one request. */
  function AddClient(st: RateLimitState, ip: string, now: int): (r: RateLimitState)
    ensures GetClient(st, ip).Some? ==>
              var c := GetClient(st, ip).value;
              GetClient(r, ip) == Some(ClientRecord(ip, c.count + 1, now, c.firstRequest))
    ensures GetClient(st, ip).None? ==> GetClient(r, ip) == Some(ClientRecord(ip, 1, now, now))
    ensures forall other :: other != ip ==> GetClient(r, other) == GetClient(st, other)
    ensures Known(st.clients, ip) ==> |r.clients| == |st.clients|
    ensures !Known(st.clients, ip) ==> r.clients == st.clients + [ClientRecord(ip, 1, now, now)]
    ensures forall j :: 0 <= j < |st.clients| && st.clients[j].ip != ip ==> r.clients[j] == st.clients[j]
    ensures r.limit == st.limit
  {
    TouchSpec(st.clients, ip, now);
    var clients := Touch(st.clients, ip, now);
    assert Lookup(clients, ip) == Some(Bumped(Lookup(st.clients, ip), ip, now));
    st.(clients := clients)
  }

  /** `on_the_limit` for a given record: true means the request may pass. It
      refuses when at most one whole unit has elapsed since the latest request
      and the count has reached the limit, which for whole seconds means
      fewer than two units have elapsed. */
  function OnTheLimit(st: RateLimitState, client: ClientRecord, now: int): (pass: bool)
    ensures !pass <==> now - client.lastRequest < 2 * UnitSecs(st.limit) && client.count >= st.limit.limit
    ensures client.count < st.limit.limit ==> pass
  {
    !(Elapsed(st.limit, now, client.lastRequest) <= 1 && client.count >= st.limit.limit)
  }
}
