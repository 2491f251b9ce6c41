/** The per-address request records both rate limiters keep, as a list in
    insertion order, and the lookup and update steps they share. */
module ClientTable {
  import opened Wrappers

  /** One client address with its request count and the times (integer
      seconds) of its first and latest request. */
  datatype ClientRecord = ClientRecord(ip: string, count: nat, lastRequest: int, firstRequest: int)

  /** Some record belongs to `ip`. */
  predicate Known(clients: seq<ClientRecord>, ip: string) {
    exists j :: 0 <= j < |clients| && clients[j].ip == ip
  }

  /** At most one record per address. */
  predicate UniqueIps(clients: seq<ClientRecord>) {
    forall i, j :: 0 <= i < j < |clients| ==> clients[i].ip != clients[j].ip
  }

  /** Position `j` holds the first record of `ip`. */
  predicate FirstOf(clients: seq<ClientRecord>, ip: string, j: int) {
    0 <= j < |clients| && clients[j].ip == ip && forall i :: 0 <= i < j ==> clients[i].ip != ip
  }

  /** Position of the first record of `ip`, scanning from the front. */
  function Find(clients: seq<ClientRecord>, ip: string): (r: Option<nat>)
    decreases |clients|
    ensures r.Some? ==> r.value < |clients| && clients[r.value].ip == ip
    ensures r.Some? ==> forall j :: 0 <= j < r.value ==> clients[j].ip != ip
    ensures r.None? <==> !Known(clients, ip)
  {
    if |clients| == 0 then None
    else if clients[0].ip == ip then Some(0)
    else
      match Find(clients[1..], ip)
      case Some(k) => Some(k + 1)
      case None =>
        assert forall j :: 1 <= j < |clients| ==> clients[j] == clients[1..][j - 1];
        None
  }

  /** The first record of `ip`, if there is one (`get_client`). */
  function Lookup(clients: seq<ClientRecord>, ip: string): (r: Option<ClientRecord>)
    ensures r.Some? <==> Known(clients, ip)
    ensures r.Some? ==> r.value.ip == ip && r.value in clients
    ensures UniqueIps(clients) ==> forall j :: 0 <= j < |clients| && clients[j].ip == ip ==> r == Some(clients[j])
  {
    match Find(clients, ip)
    case Some(i) => Some(clients[i])
    case None => None
  }

  /** The record at the first position of `ip` is the one looked up. */
  lemma LookupFirst(clients: seq<ClientRecord>, ip: string, j: int)
    requires FirstOf(clients, ip, j)
    ensures Lookup(clients, ip) == Some(clients[j])
  {
    var f := Find(clients, ip);
    assert f.Some?;
    assert !(f.value < j) && !(j < f.value);
  }

  /** A table whose positions hold records of `ip` exactly where another's do
      (and only foreign records beyond) finds `ip` at the same place. */
  lemma FindSameIps(a: seq<ClientRecord>, b: seq<ClientRecord>, ip: string)
    requires |a| <= |b|
    requires forall j :: 0 <= j < |a| ==> (a[j].ip == ip <==> b[j].ip == ip)
    requires forall j :: |a| <= j < |b| ==> b[j].ip != ip
    ensures Find(a, ip) == Find(b, ip)
  {
    var fa := Find(a, ip);
    if fa.Some? {
      var i := fa.value;
      assert b[i].ip == ip;
      assert Known(b, ip);
      var k := Find(b, ip).value;
      assert k <= i;
      assert a[k].ip == ip;
      assert i <= k;
    } else {
      forall j | 0 <= j < |b| ensures b[j].ip != ip {
        if j < |a| {
          assert a[j].ip != ip;
        }
      }
      assert !Known(b, ip);
    }
  }

  /** The record `add_client` leaves for `ip`: one more request, seen at `now`,
      or a fresh record with one request. */
  function Bumped(found: Option<ClientRecord>, ip: string, now: int): ClientRecord {
    match found
    case Some(c) => c.(count := c.count + 1, lastRequest := now)
    case None => ClientRecord(ip, 1, now, now)
  }

  /** The shared body of both `add_client`s. */
  function Touch(clients: seq<ClientRecord>, ip: string, now: int): seq<ClientRecord> {
    match Find(clients, ip)
    case Some(i) => clients[i := clients[i].(count := clients[i].count + 1, lastRequest := now)]
    case None => clients + [ClientRecord(ip, 1, now, now)]
  }

  /** What `Touch` does, observed through lookups and positions. */
  lemma TouchSpec(clients: seq<ClientRecord>, ip: string, now: int)
    ensures Lookup(Touch(clients, ip, now), ip) == Some(Bumped(Lookup(clients, ip), ip, now))
    ensures forall other :: other != ip ==> Lookup(Touch(clients, ip, now), other) == Lookup(clients, other)
    ensures Known(clients, ip) ==> |Touch(clients, ip, now)| == |clients|
    ensures !Known(clients, ip) ==> Touch(clients, ip, now) == clients + [ClientRecord(ip, 1, now, now)]
    ensures forall j :: 0 <= j < |clients| && clients[j].ip != ip ==> Touch(clients, ip, now)[j] == clients[j]
    ensures UniqueIps(clients) ==> UniqueIps(Touch(clients, ip, now))
  {
    var r := Touch(clients, ip, now);
    if Known(clients, ip) {
      FindSameIps(clients, r, ip);
    } else {
      var f := Find(r, ip);
      assert r[|clients|].ip == ip;
      assert f.Some? && f.value == |clients|;
    }
    forall other | other != ip ensures Lookup(r, other) == Lookup(clients, other) {
      FindSameIps(clients, r, other);
    }
  }

  /** The shared body of `reset_client`: zero the count and restart both times. */
  function Restart(clients: seq<ClientRecord>, ip: string, now: int): seq<ClientRecord> {
    match Find(clients, ip)
    case Some(i) => clients[i := clients[i].(count := 0, lastRequest := now, firstRequest := now)]
    case None => clients
  }

  /** What `Restart` does, observed through lookups and positions. */
  lemma RestartSpec(clients: seq<ClientRecord>, ip: string, now: int)
    ensures Known(clients, ip) ==> Lookup(Restart(clients, ip, now), ip) == Some(ClientRecord(ip, 0, now, now))
    ensures !Known(clients, ip) ==> Restart(clients, ip, now) == clients
    ensures |Restart(clients, ip, now)| == |clients|
    ensures forall other :: other != ip ==> Lookup(Restart(clients, ip, now), other) == Lookup(clients, other)
    ensures forall j :: 0 <= j < |clients| && clients[j].ip != ip ==> Restart(clients, ip, now)[j] == clients[j]
    ensures UniqueIps(clients) ==> UniqueIps(Restart(clients, ip, now))
  {
    var r := Restart(clients, ip, now);
    FindSameIps(clients, r, ip);
    forall other | other != ip ensures Lookup(r, other) == Lookup(clients, other) {
      FindSameIps(clients, r, other);
    }
  }
}
