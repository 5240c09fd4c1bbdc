/**
 The DHCPv4 packet handlers of one node, working on the shared store: Discover,
 Request, Release and Decline.  Here a handler runs without interference; module
 Cluster lets other nodes' transactions fall between its store calls.
 */
module Handlers {
  import opened Wrappers
  import opened Leases
  import opened Allocator
  import opened LeaseStore
  import opened Cluster

  datatype Reply = Offer(ip: Addr, lease: nat) | Ack(ip: Addr, lease: nat) | Nak | Silent

  ghost predicate Serves(store: Store, cfg: Config)
    reads store
  {
    && store.Valid() && V4(store.rows)
    && store.reservations == cfg.rv
    && FitsFamily(cfg.scope, V4Family)
  }

  /** The allocation a handler at this clock performs on the given table. */
  ghost function Attempt(cfg: Config, t: Table, nextId: nat, mac: nat, preferred: Option<Addr>,
                         lease: nat, now: int): Outcome
    requires UniqueClients(t)
  {
    Allocate(cfg.scope, cfg.rv, t, Mac(mac), preferred, now, ClampLease(lease, cfg.ScopeMax()) * SECOND, nextId)
  }

  method CallStore(store: Store, cfg: Config, mac: nat, preferred: Option<Addr>, lease: nat, now: int)
    returns (granted: Option<Lease>)
    requires Serves(store, cfg) && !PoolHangs(cfg.scope, cfg.rv, store.rows, Mac(mac), preferred, now)
    modifies store
    ensures Serves(store, cfg)
    ensures
      var out := Attempt(cfg, old(store.rows), old(store.nextId), mac, preferred, lease, now);
      && granted == (if out.Granted? then Some(out.lease) else None)
      && store.rows == (if out.Granted? then out.table else old(store.rows))
  {
    hide Allocate;
    V4AllocateKeepsTable(cfg.scope, cfg.rv, store.rows, Mac(mac), preferred, now,
                         ClampLease(lease, cfg.ScopeMax()) * SECOND, store.nextId);
    granted := store.AllocateLease(cfg.scope, V4Family, Mac(mac), preferred, lease, cfg.ScopeMax(), now);
  }

  method HandleDiscover(store: Store, cfg: Config, mac: nat, asked: Option<Addr>, now: int) returns (reply: Reply)
    requires Serves(store, cfg) && !PoolHangs(cfg.scope, cfg.rv, store.rows, Mac(mac), asked, now)
    modifies store
    ensures Serves(store, cfg)
    ensures
      var out := Attempt(cfg, old(store.rows), old(store.nextId), mac, asked, cfg.ScopeLease(), now);
      reply == if out.Granted? then Offer(out.lease.ip, cfg.ScopeLease()) else Silent
    ensures reply.Offer? ==>
              && reply.ip in store.rows
              && store.rows[reply.ip].client == Mac(mac)
              && store.rows[reply.ip].Live()
              && (store.rows[reply.ip].endsAt == now + reply.lease * SECOND <==> cfg.ScopeLease() <= cfg.ScopeMax())
  {
    OfferedLeaseIsStoredExactly(cfg);
    GrantedRow(cfg.scope, cfg.rv, store.rows, Mac(mac), asked, now,
               ClampLease(cfg.ScopeLease(), cfg.ScopeMax()) * SECOND, store.nextId);
    hide Allocate;
    var granted := CallStore(store, cfg, mac, asked, cfg.ScopeLease(), now);
    return if granted.Some? then Offer(granted.value.ip, cfg.ScopeLease()) else Silent;
  }

  /** An ACK is given for exactly the requested address, exactly when the allocation
      grants it; the row there is then active, owned by the client, and ends one
      advertised lease time later. */
  method HandleRequest(store: Store, cfg: Config, mac: nat, wanted: Addr, asked: Option<nat>, now: int)
    returns (reply: Reply)
    requires Serves(store, cfg)
    requires RefusedUpFront(cfg, mac, wanted) || !PoolHangs(cfg.scope, cfg.rv, store.rows, Mac(mac), Some(wanted), now)
    modifies store
    ensures Serves(store, cfg)
    ensures reply.Ack? || reply.Nak?
    ensures
      reply.Ack? <==>
        && !RefusedUpFront(cfg, mac, wanted)
        && var out := Attempt(cfg, old(store.rows), old(store.nextId), mac, Some(wanted), cfg.RequestLease(asked), now);
        && out.Granted? && out.lease.ip == wanted
    ensures reply.Ack? ==>
              && reply == Ack(wanted, cfg.RequestLease(asked))
              && wanted in store.rows
              && store.rows[wanted].client == Mac(mac)
              && store.rows[wanted].state == Active
              && store.rows[wanted].endsAt == now + reply.lease * SECOND
    ensures (mac in cfg.rv && cfg.rv[mac] != wanted) || !(cfg.scope.subnetLo <= wanted <= cfg.scope.subnetHi)
            ==> reply.Nak? && store.rows == old(store.rows)
  {
    hide Allocate;
    if mac in store.reservations && store.reservations[mac] != wanted {
      return Nak;
    }
    if !cfg.scope.InSubnet(wanted) {
      return Nak;
    }
    var lease := cfg.RequestLease(asked);
    AckedLeaseIsStored(cfg, asked);
    V4ConfirmActivates(cfg.scope, cfg.rv, store.rows, Mac(mac), wanted, now, lease * SECOND, store.nextId, now);
    var granted := CallStore(store, cfg, mac, Some(wanted), lease, now);
    if granted.None? || granted.value.ip != wanted {
      return Nak;
    }
    UpdatesNarrow(store.rows, granted.value.id, Mac(mac), wanted, Active, now, 0);
    store.UpdateState(granted.value.id, Active, now);
    return Ack(wanted, lease);
  }

  /** Only the client's own live lease at that address is released; address 0 is
      ignored. */
  method HandleRelease(store: Store, cfg: Config, mac: nat, ciaddr: Addr, now: int)
    requires Serves(store, cfg)
    modifies store
    ensures Serves(store, cfg)
    ensures store.rows == if ciaddr == 0 then old(store.rows)
                          else SetStateByClientIp(old(store.rows), Mac(mac), ciaddr, Released, now)
  {
    if ciaddr != 0 {
      var _ := store.UpdateStateByClientIp(Mac(mac), ciaddr, Released, now);
    }
  }

  /** The declined address is the requested-address option, else ciaddr. */
  method HandleDecline(store: Store, cfg: Config, mac: nat, requested: Option<Addr>, ciaddr: Addr, now: int)
    requires Serves(store, cfg)
    modifies store
    ensures Serves(store, cfg)
    ensures
      var ip := if requested.Some? then requested.value else ciaddr;
      store.rows == if ip == 0 then old(store.rows)
                    else SetStateByClientIp(old(store.rows), Mac(mac), ip, Declined, now)
  {
    var ip := if requested.Some? then requested.value else ciaddr;
    if ip != 0 {
      var _ := store.UpdateStateByClientIp(Mac(mac), ip, Declined, now);
    }
  }
}
