/**
 The store that all nodes of a cluster share, restricted to one scope.  Each
 method is one database transaction or statement; its contract ties the committed
 tables to the functions of modules Leases and Allocator.
 */
module LeaseStore {
  import opened Wrappers
  import opened Leases
  import opened Words128
  import opened PoolSearch
  import opened Allocator

  datatype Family = V4Family | V6Family

  /** Addresses have the family's width. */
  predicate FitsFamily(scope: Scope, family: Family) {
    && scope.start < scope.space && scope.end < scope.space
    && scope.space == match family { case V4Family => TWO32 case V6Family => TWO128 }
  }

  function AddAll(used: set<Addr>, ips: seq<Addr>): set<Addr> {
    used + (set a | a in ips)
  }

  method MarkUsed(used: set<Addr>, ips: seq<Addr>) returns (r: set<Addr>)
    ensures r == AddAll(used, ips)
  {
    r := used;
    for i := 0 to |ips|
      invariant r == AddAll(used, ips[..i])
    {
      r := r + {ips[i]};
      assert ips[..i + 1] == ips[..i] + [ips[i]];
    }
    assert ips[..|ips|] == ips;
  }

  method AllocateFromPool(scope: Scope, family: Family, rv: Reservations, rest: Table,
                          declined: Option<Addr>, now: int)
    returns (r: Option<Addr>)
    requires FitsFamily(scope, family)
    requires Stops(scope.start, scope.end, Used(scope, rv, rest, declined, now), scope.space)
    ensures r == Search(scope.start, scope.end, Used(scope, rv, rest, declined, now), scope.space)
  {
    var used := set a | a in rest && SqlUsed(rest[a], now);
    used := used + set o | o in rv :: rv[o];
    used := MarkUsed(used, scope.excluded);
    used := MarkUsed(used, scope.gateway);
    used := MarkUsed(used, scope.dns);
    if declined.Some? {
      used := used + {declined.value};
    }
    assert used == Used(scope, rv, rest, declined, now);
    match family
    case V4Family =>
      r := SearchV4(scope.start, scope.end, used);
    case V6Family =>
      var w := SearchV6(OfValue(scope.start), OfValue(scope.end), used);
      r := if w.Some? then Some(w.value.Value()) else None;
  }

  class Store {
    var rows: Table
    var reservations: Reservations
    /** Supply of fresh uuids: every id ever issued is below it. */
    var nextId: nat

    ghost predicate Valid()
      reads this
    {
      && Keys(rows)
      && UniqueReserved(reservations)
      && forall a | a in rows :: rows[a].id < nextId
    }

    constructor (reserved: Reservations)
      requires UniqueReserved(reserved)
      ensures Valid() && rows == map[] && reservations == reserved
    {
      rows, reservations, nextId := map[], reserved, 0;
    }

    /** Upsert by address; false stands for the unique-violation error. */
    method SaveRow(a: Addr, r: Row) returns (ok: bool)
      modifies this`rows
      ensures ok == Save(old(rows), a, r).Some?
      ensures rows == if ok then Save(old(rows), a, r).value else old(rows)
    {
      if exists b :: b in rows && b != a && (rows[b].client == r.client || (a !in rows && rows[b].id == r.id)) {
        return false;
      }
      if a in rows {
        rows := rows[a := r.(id := rows[a].id)];
      } else {
        rows := rows[a := r];
      }
      return true;
    }

    /** Makes a reserved address available, or reports that another owner holds it. */
    method EnsureAvailable(a: Addr, owner: nat, now: int) returns (ok: bool)
      modifies this`rows
      ensures ok <==> !HeldByOther(old(rows), a, owner, now)
      ensures rows == if ok && a in old(rows) && old(rows)[a].client.owner != owner
                      then old(rows) - {a} else old(rows)
    {
      if a !in rows || rows[a].client.owner == owner {
        return true;
      }
      if rows[a].Blocks(now) {
        return false;
      }
      rows := rows - {a};
      return true;
    }

    /** The whole allocation transaction under the scope lock, with rollback. */
    method AllocateLease(scope: Scope, family: Family, c: Client, preferred: Option<Addr>,
                         leaseTime: nat, maxLeaseTime: nat, now: int)
      returns (lease: Option<Lease>)
      requires Valid() && FitsFamily(scope, family)
      requires !PoolHangs(scope, reservations, rows, c, preferred, now)
      modifies this`rows, this`nextId
      ensures Valid()
      ensures nextId == old(nextId) + 1
      ensures
        var out := Allocate(scope, reservations, old(rows), c, preferred, now,
                            ClampLease(leaseTime, maxLeaseTime) * SECOND, old(nextId));
        && lease == (if out.Granted? then Some(out.lease) else None)
        && rows == (if out.Granted? then out.table else old(rows))
    {
      var duration: nat := ClampLease(leaseTime, maxLeaseTime) * SECOND;
      AllocateKeepsKeys(scope, reservations, rows, c, preferred, now, duration, nextId);
      ghost var out := Allocate(scope, reservations, rows, c, preferred, now, duration, nextId);
      if out.Granted? {
        forall a | a in out.table ensures out.table[a].id <= nextId {
          RowsComeFrom(scope, reservations, rows, c, preferred, now, duration, nextId, a);
        }
      }
      var before := rows;
      var newId := nextId;
      nextId := nextId + 1;
      lease := RunAllocation(scope, family, c, preferred, duration, now, newId);
      if lease.None? {
        rows := before;
      }
    }

    /** The statements of the transaction, in order, without the rollback. */
    method RunAllocation(scope: Scope, family: Family, c: Client, preferred: Option<Addr>,
                         duration: nat, now: int, newId: nat)
      returns (lease: Option<Lease>)
      requires UniqueClients(rows) && FitsFamily(scope, family)
      requires !PoolHangs(scope, reservations, rows, c, preferred, now)
      modifies this`rows
      ensures
        var out := Allocate(scope, reservations, old(rows), c, preferred, now, duration, newId);
        && lease == (if out.Granted? then Some(out.lease) else None)
        && (out.Granted? ==> rows == out.table)
    {
      var declined: Option<Addr> := None;
      var own := FindClient(rows, c);
      if own.Some? {
        var r := rows[own.value];
        if CanKeep(scope, reservations, r, own.value, c) {
          r := Renewed(r, now, duration);
          var saved := SaveRow(own.value, r);
          return if saved then Some(Lease(r.id, own.value, r.endsAt, OwnLease)) else None;
        }
        if r.state == Declined && r.Blocks(now) {
          declined := own;
        }
        rows := Without(rows, c);
      } else {
        assert Without(rows, c) == rows;
      }
      assert declined == DeclinedIp(old(rows), own, now);
      var pick := PickAddress(scope, family, c, preferred, declined, now);
      if pick.NoGrant? {
        return None;
      }
      var row := NewOffer(newId, c, now, duration);
      var saved := SaveRow(pick.ip, row);
      return if saved then Some(Lease(newId, pick.ip, row.endsAt, pick.branch)) else None;
    }

    /** Reservation, then preferred address, then pool; evicts a stale row that stands
        in the way. */
    method PickAddress(scope: Scope, family: Family, c: Client, preferred: Option<Addr>,
                       declined: Option<Addr>, now: int)
      returns (pick: Decision)
      requires FitsFamily(scope, family)
      requires !PickHangs(scope, reservations, rows, c, preferred, declined, now)
      modifies this`rows
      ensures pick == Choose(scope, reservations, old(rows), c, preferred, declined, now)
      ensures pick.Grant? ==> pick.branch != OwnLease && rows == Evicted(old(rows), c.owner, pick.branch, pick.ip)
    {
      if c.owner in reservations {
        var ip := reservations[c.owner];
        var available := EnsureAvailable(ip, c.owner, now);
        return if available then Grant(Reserved, ip) else NoGrant;
      }
      if preferred.Some? && Usable(scope, reservations, rows, preferred.value, c, declined, now) {
        var ip := preferred.value;
        if ip in rows && rows[ip].client.owner != c.owner {
          rows := rows - {ip};
        }
        return Grant(Preferred, ip);
      }
      var found := AllocateFromPool(scope, family, reservations, rows, declined, now);
      return if found.Some? then Grant(Pool, found.value) else NoGrant;
    }

    method UpdateState(id: nat, state: LeaseState, now: int)
      requires Valid()
      modifies this`rows
      ensures Valid() && rows == SetStateById(old(rows), id, state, now)
    {
      rows := map a | a in rows :: if rows[a].id == id then rows[a].(state := state, updatedAt := now) else rows[a];
    }

    method UpdateStateByClientIp(c: Client, a: Addr, state: LeaseState, now: int) returns (changed: bool)
      requires Valid()
      modifies this`rows
      ensures Valid() && rows == SetStateByClientIp(old(rows), c, a, state, now)
      ensures changed <==> a in old(rows) && old(rows)[a].client == c && old(rows)[a].Live()
    {
      changed := a in rows && rows[a].client == c && rows[a].Live();
      if changed {
        rows := rows[a := rows[a].(state := state, updatedAt := now)];
      }
    }

    method ReleaseExpired(now: int)
      requires Valid()
      modifies this`rows
      ensures Valid() && rows == Sweep(old(rows), now)
    {
      rows := map a | a in rows :: SweepRow(rows[a], now);
    }

    /** Retention is the maximum lease time, else the lease time, else one day. */
    method CleanupExpired(now: int, leaseTime: nat, maxLeaseTime: nat)
      requires Valid()
      modifies this`rows
      ensures Valid()
      ensures
        var keep := if maxLeaseTime != 0 then maxLeaseTime else if leaseTime != 0 then leaseTime else DEFAULT_MAX_LEASE;
        rows == Cleanup(old(rows), now, keep * SECOND)
    {
      var keep := if maxLeaseTime != 0 then maxLeaseTime else if leaseTime != 0 then leaseTime else DEFAULT_MAX_LEASE;
      var limit: nat := keep * SECOND;
      rows := map a | a in rows && !CleanupHits(rows[a], now, limit) :: rows[a];
    }
  }
}
