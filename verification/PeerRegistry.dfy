/** Connected peers and the pool of addresses they share. */
module PeerRegistry {
  import opened Basics

  // Addresses and ids are only compared, so they are plain numbers here.
  type Octet = int
  type PeerId = nat
  type Mac = int

  datatype Ip = Ip(a: Octet, b: Octet, c: Octet, host: Octet)
  /** `lastSeen` is in nanoseconds. */
  datatype Peer = Peer(id: PeerId, mac: Mac, ip: Ip, lastSeen: nat)
  const IP_POOL_START: Octet := 10
  const IP_POOL_END: Octet := 254
  const POOL_SIZE: nat := 245
  const HEARTBEAT_TIMEOUT: nat := 120
  const SECOND: nat := 1_000_000_000

  function InNetwork(host: Octet): Ip { Ip(10, 0, 2, host) }

  // ---------------------------------------------------------------------------
  // The address pool
  // ---------------------------------------------------------------------------

  ghost predicate InPool(h: Octet) { IP_POOL_START <= h <= IP_POOL_END }

  /** Available and taken host numbers partition the pool, without duplicates. */
  ghost predicate Partition(available: seq<Octet>, taken: map<Octet, PeerId>) {
    && (forall i | 0 <= i < |available| :: InPool(available[i]) && available[i] !in taken)
    && (forall i, j | 0 <= i < j < |available| :: available[i] != available[j])
    && (forall h | h in taken :: InPool(h))
    && (forall h: Octet | InPool(h) :: h in taken || h in available)
    && |available| + |taken| == POOL_SIZE
  }

  lemma PartitionAllocates(available: seq<Octet>, taken: map<Octet, PeerId>, id: PeerId)
    requires Partition(available, taken) && available != []
    ensures var n := |available| - 1; Partition(available[..n], taken[available[n] := id]) && available[n] !in taken
  {
    var n := |available| - 1;
    forall h: Octet | InPool(h) ensures h in taken[available[n] := id] || h in available[..n] {
      if h in available && h != available[n] {
        var i :| 0 <= i < |available| && available[i] == h;
        assert available[..n][i] == h;
      }
    }
  }

  lemma PartitionReleases(available: seq<Octet>, taken: map<Octet, PeerId>, h: Octet)
    requires Partition(available, taken) && h in taken
    ensures Partition(available + [h], taken - {h})
  {
    assert |taken - {h}| == |taken| - 1 by {
      assert (taken - {h}).Keys == taken.Keys - {h};
      assert taken == (taken - {h})[h := taken[h]];
    }
    forall k: Octet | InPool(k) ensures k in taken - {h} || k in available + [h] {
      if k in available { assert k in available + [h]; }
      if k == h { assert (available + [h])[|available|] == k; }
    }
  }

  class IpPool {
    var available: seq<Octet>
    var taken: map<Octet, PeerId>

    ghost predicate Valid()
      reads this
    {
      Partition(available, taken)
    }

    constructor ()
      ensures Valid() && taken == map[] && |available| == POOL_SIZE
    {
      available := seq(POOL_SIZE, i requires 0 <= i < POOL_SIZE => IP_POOL_START + i);
      taken := map[];
      new;
      forall h: Octet | InPool(h) ensures h in available { assert available[h - IP_POOL_START] == h; }
    }

    method Allocate(id: PeerId) returns (r: Option<Ip>)
      requires Valid()
      modifies this
      ensures Valid() && r.Some? == (old(available) != [])
      ensures r.None? ==> available == old(available) && taken == old(taken)
      ensures r.Some? ==> && r.value == InNetwork(r.value.host) && r.value.host !in old(taken)
                          && taken == old(taken)[r.value.host := id] && old(available) == available + [r.value.host]
    {
      if available == [] { return None; }
      PartitionAllocates(available, taken, id);
      var host := available[|available| - 1];
      available := available[..|available| - 1];
      taken := taken[host := id];
      return Some(InNetwork(host));
    }

    method Release(ip: Ip)
      requires Valid()
      modifies this
      ensures Valid()
      ensures var known := ip == InNetwork(ip.host) && ip.host in old(taken);
              && taken == (if known then old(taken) - {ip.host} else old(taken))
              && available == (if known then old(available) + [ip.host] else old(available))
    {
      if ip.a == 10 && ip.b == 0 && ip.c == 2 {
        if ip.host in taken {
          PartitionReleases(available, taken, ip.host);
          taken := taken - {ip.host};
          available := available + [ip.host];
        }
      }
    }
  }

  // ---------------------------------------------------------------------------
  // The registry
  // ---------------------------------------------------------------------------

  /** The id, MAC and IP tables and the pool's allocations are inverse to each other. */
  datatype Tables = Tables(peers: map<PeerId, Peer>, byMac: map<Mac, PeerId>, byIp: map<Ip, PeerId>) {
    /** Each peer is found by its MAC and by its address, which the pool has given to it. */
    ghost predicate Listed(taken: map<Octet, PeerId>, nextId: PeerId) {
      forall id | id in peers ::
        var p := peers[id];
        && p.id == id < nextId && p.mac in byMac && byMac[p.mac] == id && p.ip in byIp && byIp[p.ip] == id
        && p.ip == InNetwork(p.ip.host) && p.ip.host in taken && taken[p.ip.host] == id
    }

    ghost predicate MacsLive() { forall m | m in byMac :: byMac[m] in peers && peers[byMac[m]].mac == m }
    ghost predicate IpsLive() { forall ip | ip in byIp :: byIp[ip] in peers && peers[byIp[ip]].ip == ip }
    ghost predicate HostsLive(taken: map<Octet, PeerId>) {
      forall h | h in taken :: taken[h] in peers && peers[taken[h]].ip == InNetwork(h)
    }

    ghost predicate Inverse(taken: map<Octet, PeerId>, nextId: PeerId) {
      Listed(taken, nextId) && MacsLive() && IpsLive() && HostsLive(taken) && |peers| == |taken|
    }

    function With(p: Peer): Tables { Tables(peers[p.id := p], byMac[p.mac := p.id], byIp[p.ip := p.id]) }
    function Without(p: Peer): Tables { Tables(peers - {p.id}, byMac - {p.mac}, byIp - {p.ip}) }

    lemma NewIsFresh(taken: map<Octet, PeerId>, p: Peer)
      requires Inverse(taken, p.id) && p.ip.host !in taken
      ensures p.id !in peers && p.ip !in byIp
    {
    }

    lemma WithIsListed(taken: map<Octet, PeerId>, p: Peer)
      requires Listed(taken, p.id) && p.id !in peers && p.mac !in byMac && p.ip !in byIp
      requires p.ip == InNetwork(p.ip.host) && p.ip.host !in taken
      ensures With(p).Listed(taken[p.ip.host := p.id], p.id + 1)
    {
    }

    lemma WithIsLive(taken: map<Octet, PeerId>, p: Peer)
      requires MacsLive() && IpsLive() && HostsLive(taken) && p.id !in peers && p.ip == InNetwork(p.ip.host)
      ensures With(p).MacsLive() && With(p).IpsLive() && With(p).HostsLive(taken[p.ip.host := p.id])
    {
    }

    lemma WithIsInverse(taken: map<Octet, PeerId>, p: Peer)
      requires Inverse(taken, p.id) && p.mac !in byMac && p.ip == InNetwork(p.ip.host) && p.ip.host !in taken
      ensures With(p).Inverse(taken[p.ip.host := p.id], p.id + 1)
    {
      NewIsFresh(taken, p);
      WithIsListed(taken, p);
      WithIsLive(taken, p);
    }

    lemma TouchIsInverse(taken: map<Octet, PeerId>, nextId: PeerId, id: PeerId, now: nat)
      requires Inverse(taken, nextId) && id in peers
      ensures this.(peers := peers[id := peers[id].(lastSeen := now)]).Inverse(taken, nextId)
    {
    }

    lemma WithoutIsListed(taken: map<Octet, PeerId>, nextId: PeerId, id: PeerId)
      requires Listed(taken, nextId) && id in peers
      ensures Without(peers[id]).Listed(taken - {peers[id].ip.host}, nextId)
    {
    }

    lemma WithoutIsLive(taken: map<Octet, PeerId>, nextId: PeerId, id: PeerId)
      requires Listed(taken, nextId) && MacsLive() && IpsLive() && HostsLive(taken) && id in peers
      ensures Without(peers[id]).MacsLive() && Without(peers[id]).IpsLive()
      ensures Without(peers[id]).HostsLive(taken - {peers[id].ip.host})
    {
    }

    lemma WithoutIsSmaller(taken: map<Octet, PeerId>, id: PeerId, h: Octet)
      requires |peers| == |taken| && id in peers && h in taken
      ensures |peers - {id}| == |taken - {h}|
    {
      assert peers == (peers - {id})[id := peers[id]];
      assert taken == (taken - {h})[h := taken[h]];
    }

    lemma WithoutIsInverse(taken: map<Octet, PeerId>, nextId: PeerId, id: PeerId)
      requires Inverse(taken, nextId) && id in peers
      ensures Without(peers[id]).Inverse(taken - {peers[id].ip.host}, nextId)
    {
      WithoutIsListed(taken, nextId, id);
      WithoutIsLive(taken, nextId, id);
      WithoutIsSmaller(taken, id, peers[id].ip.host);
    }
  }

  /** No two live peers share an address, nor a MAC. */
  lemma NoSharedAddress(t: Tables, taken: map<Octet, PeerId>, nextId: PeerId, i: PeerId, j: PeerId)
    requires t.Inverse(taken, nextId) && i in t.peers && j in t.peers && i != j
    ensures t.peers[i].ip != t.peers[j].ip && t.peers[i].mac != t.peers[j].mac
  {
    assert t.byIp[t.peers[i].ip] == i && t.byMac[t.peers[i].mac] == i;
  }

  class PeerManager {
    var tables: Tables
    const pool: IpPool
    var nextId: PeerId

    ghost predicate Valid()
      reads this, pool
    {
      pool.Valid() && tables.Inverse(pool.taken, nextId)
    }

    constructor ()
      ensures Valid() && fresh(pool) && tables.peers == map[]
    {
      tables, nextId := Tables(map[], map[], map[]), 1;
      pool := new IpPool();
    }

    /** `register`: an already known MAC keeps its id and address; a new one gets both, or nothing but a used-up
        id when the pool is empty. */
    method Register(mac: Mac, now: nat) returns (r: Option<(PeerId, Ip)>)
      requires Valid()
      modifies this, pool
      ensures Valid() && r.None? == (mac !in old(tables).byMac && |old(tables).peers| == POOL_SIZE)
      ensures mac in old(tables).byMac ==> && tables == old(tables) && nextId == old(nextId)
                                           && pool.available == old(pool.available)
                                           && r == Some((tables.byMac[mac], tables.peers[tables.byMac[mac]].ip))
      ensures r.Some? ==> r.value.1 == Ip(10, 0, 2, r.value.1.host) && 10 <= r.value.1.host <= 254
      ensures mac !in old(tables).byMac ==> nextId == old(nextId) + 1
      ensures r.None? ==> tables == old(tables)
      ensures r.Some? && mac !in old(tables).byMac ==>
                && r.value.0 == old(nextId) && tables == old(tables).With(Peer(old(nextId), mac, r.value.1, now))
                && old(pool.available) == pool.available + [r.value.1.host]
                && forall id | id in old(tables).peers :: old(tables).peers[id].ip != r.value.1
    {
      if mac in tables.byMac {
        return Some((tables.byMac[mac], tables.peers[tables.byMac[mac]].ip));
      }
      var id := nextId;
      nextId := nextId + 1;
      var ip := pool.Allocate(id);
      if ip.None? { return None; }
      tables.WithIsInverse(old(pool.taken), Peer(id, mac, ip.value, now));
      tables := tables.With(Peer(id, mac, ip.value, now));
      return Some((id, ip.value));
    }

    /** The peer leaves all tables and its address goes back to the pool. */
    method Drop(p: Peer)
      requires Valid() && p.id in tables.peers && p == tables.peers[p.id]
      modifies this`tables, pool
      ensures Valid() && tables == old(tables).Without(p) && pool.available == old(pool.available) + [p.ip.host]
    {
      ghost var rest := pool.taken - {p.ip.host};
      assert p.ip == InNetwork(p.ip.host) && p.ip.host in pool.taken;
      tables.WithoutIsInverse(pool.taken, nextId, p.id);
      pool.Release(p.ip);
      assert pool.taken == rest;
      tables := tables.Without(p);
    }

    /** `unregister`: nothing happens for an unknown id. */
    method Unregister(id: PeerId)
      requires Valid()
      modifies this`tables, pool
      ensures Valid() && tables.peers == old(tables).peers - {id}
      ensures id !in old(tables).peers ==> tables == old(tables) && pool.available == old(pool.available)
      ensures id in old(tables).peers ==> && tables == old(tables).Without(old(tables).peers[id])
                                          && pool.available == old(pool.available) + [old(tables).peers[id].ip.host]
    {
      if id in tables.peers { Drop(tables.peers[id]); }
    }

    /** `touch` */
    method Touch(id: PeerId, now: nat)
      requires Valid()
      modifies this`tables
      ensures Valid() && tables.peers.Keys == old(tables).peers.Keys
      ensures forall k | k in tables.peers ::
                tables.peers[k]
                == if k == id then old(tables).peers[k].(lastSeen := now) else old(tables).peers[k]
    {
      if id in tables.peers {
        tables.TouchIsInverse(pool.taken, nextId, id, now);
        tables := tables.(peers := tables.peers[id := tables.peers[id].(lastSeen := now)]);
      }
    }

    /** `cleanup_expired`: collects the expired peers, then unregisters each; all others stay. */
    method CleanupExpired(now: nat) returns (expired: set<PeerId>)
      requires Valid()
      modifies this`tables, pool
      ensures Valid() && tables.peers == old(tables).peers - expired && expired <= old(tables).peers.Keys
      ensures forall id | id in old(tables).peers ::
                id in tables.peers <==> now < old(tables).peers[id].lastSeen + 121_000_000_000
      ensures |pool.available| == old(|pool.available|) + |expired|
    {
      expired := set id | id in tables.peers && Expired(tables.peers[id], now);
      UnregisterAll(expired);
      forall id | id in old(tables).peers
        ensures id in tables.peers <==> now < old(tables).peers[id].lastSeen + 121_000_000_000
      {
        ExpiresAfter(old(tables).peers[id], now);
      }
    }

    /** The second loop of `cleanup_expired`. */
    method UnregisterAll(ids: set<PeerId>)
      requires Valid() && ids <= tables.peers.Keys
      modifies this`tables, pool
      ensures Valid() && tables.peers == old(tables).peers - ids
      ensures |pool.available| == old(|pool.available|) + |ids|
    {
      var left := ids;
      while left != {}
        invariant Valid() && left <= ids
        invariant tables.peers == old(tables).peers - (ids - left)
        invariant |pool.available| + |left| == old(|pool.available|) + |ids|
        decreases |left|
      {
        var id :| id in left;
        OneMoreGone(old(tables).peers, ids, left, id);
        Unregister(id);
        left := left - {id};
      }
      assert ids - left == ids;
    }

    /** One call: what it does to each peer that is there, and who may be there after it. */
    method Perform(e: Event)
      requires Valid()
      modifies this, pool
      ensures Valid() && nextId >= old(nextId) && Moves(old(tables).peers, tables.peers, e, old(nextId))
    {
      ghost var before := tables.peers;
      match e
      case Register(mac, now) =>
        ghost var next := nextId;
        var r := Register(mac, now);
        RegisterMoves(before, tables.peers, mac, now, next);
      case Unregister(id) =>
        Unregister(id);
        UnregisterMoves(before, id, nextId);
      case Touch(id, now) =>
        Touch(id, now);
        TouchMoves(before, tables.peers, id, now, nextId);
      case Cleanup(now) =>
        var expired := CleanupExpired(now);
        CleanupMoves(before, tables.peers, expired, now, nextId);
    }

    /** After any sequence of calls the tables are inverse, the pool is partitioned, free addresses and live peers
        make up the pool, and each peer that was there has met its fate. */
    method Run(events: seq<Event>)
      requires Valid()
      modifies this, pool
      ensures Valid() && |pool.available| + |tables.peers| == POOL_SIZE
      ensures forall i, j | i in tables.peers && j in tables.peers && i != j :: tables.peers[i].ip != tables.peers[j].ip
      ensures Fated(old(tables).peers, tables.peers, events)
    {
      for k := 0 to |events|
        invariant Valid() && forall id | id in old(tables).peers :: id < nextId
        invariant Fated(old(tables).peers, tables.peers, events[..k])
      {
        ghost var before, next := tables.peers, nextId;
        Perform(events[k]);
        FatesGoOn(old(tables).peers, before, tables.peers, events, k, next);
      }
      assert events[..|events|] == events;
      forall i, j | i in tables.peers && j in tables.peers && i != j ensures tables.peers[i].ip != tables.peers[j].ip {
        NoSharedAddress(tables, pool.taken, nextId, i, j);
      }
    }
  }

  function Now(peers: map<PeerId, Peer>, id: PeerId): Option<Peer> { if id in peers then Some(peers[id]) else None }

  // ---------------------------------------------------------------------------
  // How long a peer stays
  // ---------------------------------------------------------------------------

  /** What a call leaves of a peer: unregistering it and a cleanup 121 seconds or more after it was last seen remove
      it, a touch renews it, and other calls leave it alone. */
  function After(p: Option<Peer>, id: PeerId, e: Event): Option<Peer> {
    if p.None? || e == Unregister(id) || (e.Cleanup? && e.now >= p.value.lastSeen + 121 * SECOND) then None
    else if e.Touch? && e.id == id then Some(p.value.(lastSeen := e.now))
    else p
  }

  /** Each peer that was there is what the call leaves of it, and a new one was registered by the call. */
  ghost predicate Moves(before: map<PeerId, Peer>, after: map<PeerId, Peer>, e: Event, nextId: PeerId) {
    && (forall id | id in before :: Now(after, id) == After(Some(before[id]), id, e))
    && forall id | id in after && id !in before ::
         id >= nextId && e.Register? && after[id].mac == e.mac && after[id].lastSeen == e.now
  }

  lemma RegisterMoves(before: map<PeerId, Peer>, after: map<PeerId, Peer>, mac: Mac, now: nat, nextId: PeerId)
    requires after == before || (nextId in after && after == before[nextId := after[nextId]])
    requires nextId !in before && (nextId in after ==> after[nextId].mac == mac && after[nextId].lastSeen == now)
    ensures Moves(before, after, Register(mac, now), nextId)
  {
  }

  lemma UnregisterMoves(before: map<PeerId, Peer>, id: PeerId, nextId: PeerId)
    ensures Moves(before, before - {id}, Unregister(id), nextId)
  {
  }

  lemma TouchMoves(before: map<PeerId, Peer>, after: map<PeerId, Peer>, id: PeerId, now: nat, nextId: PeerId)
    requires after.Keys == before.Keys
    requires forall k | k in after :: after[k] == if k == id then before[k].(lastSeen := now) else before[k]
    ensures Moves(before, after, Touch(id, now), nextId)
  {
  }

  lemma CleanupMoves(before: map<PeerId, Peer>, after: map<PeerId, Peer>, expired: set<PeerId>, now: nat,
      nextId: PeerId)
    requires after == before - expired
    requires forall id | id in before :: id in after <==> now < before[id].lastSeen + 121 * SECOND
    ensures Moves(before, after, Cleanup(now), nextId)
  {
  }

  /** What becomes of a peer over a sequence of calls. */
  function Fate(p: Peer, id: PeerId, events: seq<Event>): Option<Peer> {
    if events == [] then Some(p) else After(Fate(p, id, events[..|events| - 1]), id, events[|events| - 1])
  }

  lemma FateGoesOn(p: Peer, id: PeerId, events: seq<Event>, k: nat)
    requires k < |events|
    ensures Fate(p, id, events[..k + 1]) == After(Fate(p, id, events[..k]), id, events[k])
  {
    assert events[..k + 1][..k] == events[..k];
  }

  /** Each peer that was there at first is now what became of it. */
  ghost predicate Fated(first: map<PeerId, Peer>, now: map<PeerId, Peer>, events: seq<Event>) {
    forall id | id in first :: Now(now, id) == Fate(first[id], id, events)
  }

  lemma FatesGoOn(first: map<PeerId, Peer>, before: map<PeerId, Peer>, after: map<PeerId, Peer>, events: seq<Event>,
      k: nat, nextId: PeerId)
    requires k < |events| && Fated(first, before, events[..k]) && Moves(before, after, events[k], nextId)
    requires forall id | id in first :: id < nextId
    ensures Fated(first, after, events[..k + 1])
  {
    forall id | id in first ensures Now(after, id) == Fate(first[id], id, events[..k + 1]) {
      FateGoesOn(first[id], id, events, k);
      if id !in before { assert id !in after; }
    }
  }

  /** A peer heard of at `t` survives every cleanup less than 121 seconds later, unless it is unregistered. */
  lemma {:induction false} Survives(p: Peer, id: PeerId, events: seq<Event>, t: nat)
    requires p.lastSeen >= t && Unregister(id) !in events
    requires forall e | e in events && e.Cleanup? :: e.now < t + 121 * SECOND
    requires forall e | e in events && e.Touch? :: e.now >= t
    ensures Fate(p, id, events).Some? && Fate(p, id, events).value.lastSeen >= t
    decreases |events|
  {
    if events != [] {
      var n := |events| - 1;
      assert events[n] in events;
      Survives(p, id, events[..n], t);
    }
  }

  lemma {:induction false} GoneStaysGone(p: Peer, id: PeerId, events: seq<Event>, k: nat)
    requires k <= |events| && Fate(p, id, events[..k]).None?
    ensures Fate(p, id, events).None?
    decreases |events|
  {
    if k == |events| {
      assert events[..k] == events;
    } else {
      var n := |events| - 1;
      assert events[..n][..k] == events[..k];
      GoneStaysGone(p, id, events[..n], k);
    }
  }

  lemma {:induction false} UntouchedKeeps(p: Peer, id: PeerId, events: seq<Event>)
    requires forall e | e in events :: !(e.Touch? && e.id == id)
    ensures Fate(p, id, events).Some? ==> Fate(p, id, events).value == p
    decreases |events|
  {
    if events != [] {
      var n := |events| - 1;
      assert events[n] in events;
      UntouchedKeeps(p, id, events[..n]);
    }
  }

  /** A peer that is not heard of for 121 seconds does not survive the next cleanup. */
  lemma SilentIsRemoved(p: Peer, id: PeerId, events: seq<Event>, k: nat)
    requires k < |events| && events[k].Cleanup? && events[k].now >= p.lastSeen + 121 * SECOND
    requires forall e | e in events[..k] :: !(e.Touch? && e.id == id)
    ensures Fate(p, id, events).None?
  {
    UntouchedKeeps(p, id, events[..k]);
    FateGoesOn(p, id, events, k);
    GoneStaysGone(p, id, events, k + 1);
  }

  lemma OneMoreGone(peers: map<PeerId, Peer>, ids: set<PeerId>, left: set<PeerId>, id: PeerId)
    requires left <= ids <= peers.Keys && id in left
    ensures id in peers - (ids - left) && (peers - (ids - left)) - {id} == peers - (ids - (left - {id}))
    ensures |left - {id}| == |left| - 1
  {
  }

  /** Whole seconds since the peer was last seen; none if that lies ahead. */
  function ElapsedSeconds(p: Peer, now: nat): nat { if now < p.lastSeen then 0 else (now - p.lastSeen) / SECOND }

  predicate Expired(p: Peer, now: nat) { ElapsedSeconds(p, now) > HEARTBEAT_TIMEOUT }

  lemma ExpiresAfter(p: Peer, now: nat)
    ensures Expired(p, now) <==> now >= p.lastSeen + 121_000_000_000
  {
  }

  datatype Event =
    | Register(mac: Mac, now: nat)
    | Unregister(id: PeerId)
    | Touch(id: PeerId, now: nat)
    | Cleanup(now: nat)
}
